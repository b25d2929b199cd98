/**
The burn-counter checkpoint protocol of one monitor.

`Status.MissedRuns` is the persisted checkpoint, `lastMissed` the in-memory baseline of the running
process and `missed_runs_total` the emitted counter, added up over process restarts. The steps are
the points where one of the three changes; a restart may fall between any two of them.
*/
module BurnCounter {

  import opened Basics

  function Pos(x: int): nat { if x < 0 then 0 else x }

  /** What a status write came back with. The last one landed, but the reply was an error. */
  datatype Outcome = Landed | Conflict | Failed | Unacknowledged

  /** Whether the write is durable. */
  predicate Durable(o: Outcome) { o == Landed || o == Unacknowledged }

  datatype Phase =
    | Idle
    | Tracking                           // object read, baseline synced
    | Written(missed: nat, prev: nat)    // happy write landed, commit pending
    | Advanced(missed: nat, prev: nat)   // baseline advanced, counter not yet incremented
    | Marked(value: nat)                 // early-return write landed, sync pending

  datatype State = State(persisted: nat, baseline: Option<nat>, emitted: nat, phase: Phase)

  datatype Event =
    | Begin
    | Abandon
    | WriteMissed(missed: nat, outcome: Outcome)
    | Advance
    | Emit
    | WriteMarker(outcome: Outcome)
    | WriteFrozen(outcome: Outcome)
    | SyncMarked
    | Restart

  /** `syncMissedBaseline`: raise to a persisted value, never lower. */
  function Raise(cur: Option<nat>, v: nat): Option<nat> {
    if cur.None? || v > cur.value then Some(v) else cur
  }

  predicate Enabled(s: State, e: Event) {
    match e
    case Begin => s.phase.Idle?
    case Abandon | WriteMissed(_, _) | WriteMarker(_) | WriteFrozen(_) => s.phase.Tracking?
    case Advance => s.phase.Written?
    case Emit => s.phase.Advanced?
    case SyncMarked => s.phase.Marked?
    case Restart => true
  }

  /** The baseline a happy reconcile reads before it overwrites the status. */
  function PrevOf(s: State): nat { if s.baseline.Some? then s.baseline.value else s.persisted }

  /** An early-return write of `v`: the 0 marker, or the frozen value as read. */
  function WriteEarly(s: State, v: nat, o: Outcome): State {
    if o == Landed then s.(persisted := v, phase := Marked(v))
    else if o == Unacknowledged then s.(persisted := v, phase := Idle)
    else s.(phase := Idle)
  }

  function Step(s: State, e: Event): State
    requires Enabled(s, e)
  {
    match e
    case Begin => s.(baseline := Raise(s.baseline, s.persisted), phase := Tracking)
    case Abandon => s.(phase := Idle)
    case WriteMissed(m, o) =>
      if o == Landed then s.(persisted := m, phase := Written(m, PrevOf(s)))
      else if o == Unacknowledged then s.(persisted := m, phase := Idle)
      else s.(phase := Idle)
    case Advance => s.(baseline := Some(s.phase.missed), phase := Advanced(s.phase.missed, s.phase.prev))
    case Emit => s.(emitted := s.emitted + Pos(s.phase.missed - s.phase.prev), phase := Idle)
    case WriteMarker(o) => WriteEarly(s, 0, o)
    case WriteFrozen(o) => WriteEarly(s, s.persisted, o)
    case SyncMarked => s.(baseline := Raise(s.baseline, s.phase.value), phase := Idle)
    case Restart => s.(baseline := None, phase := Idle)
  }

  predicate Runs(s: State, es: seq<Event>)
    decreases |es|
  {
    es == [] || (Enabled(s, es[0]) && Runs(Step(s, es[0]), es[1..]))
  }

  function Exec(s: State, es: seq<Event>): State
    requires Runs(s, es)
    decreases |es|
  {
    if es == [] then s else Exec(Step(s, es[0]), es[1..])
  }

  // ---------- The ledger: what an observer of the writes expects ----------

  /**
  The books an outside observer keeps from the events alone, without looking at any baseline.
  `checkpoint` is the last happy-path persisted value, `marked` says that a 0 marker has replaced
  it, and `blind` that the running process started while it was marked. `held` is the high-water mark
  the running process must be holding. `due` is the increment of a landed write that has not been
  emitted yet, and `swallowed` what a mark above the expected baseline kept from being emitted.
  */
  datatype Ledger = Ledger(
    checkpoint: nat, marked: bool, blind: bool, held: nat, due: nat,
    rises: nat, replayed: nat, lost: nat, swallowed: nat)

  /** The baseline a process without lost replies would hold. */
  function Expected(l: Ledger): nat { if l.blind then 0 else l.checkpoint }

  /** The part of a landed count that lies above the expected baseline but under the held mark. */
  function Hidden(l: Ledger, m: nat): nat { Pos(Min(m, l.held) - Expected(l)) }

  function Book(l: Ledger, e: Event): Ledger {
    match e
    case WriteMissed(m, o) =>
      if !Durable(o) then l else
      var rise := Pos(m - l.checkpoint);
      var replay := if l.blind then Min(m, l.checkpoint) else 0;
      var next := l.(checkpoint := m, marked := false, blind := false,
                     rises := l.rises + rise, replayed := l.replayed + replay);
      if o == Landed then next.(held := m, due := Pos(m - l.held), swallowed := l.swallowed + Hidden(l, m))
      else next.(held := Max(l.held, m), lost := l.lost + rise + replay)
    case WriteMarker(o) => if Durable(o) then l.(marked := true) else l
    case Emit => l.(due := 0)
    case Restart =>
      l.(blind := l.marked, held := if l.marked then 0 else l.checkpoint, due := 0, lost := l.lost + l.due)
    case Begin | Abandon | Advance | WriteFrozen(_) | SyncMarked => l
  }

  function Books(l: Ledger, es: seq<Event>): Ledger
    decreases |es|
  {
    if es == [] then l else Books(Book(l, es[0]), es[1..])
  }

  /** A monitor whose checkpoint is `h`, before the process first sees it. */
  function Fresh(h: nat, emitted: nat): State { State(h, None, emitted, Idle) }

  function Opening(h: nat): Ledger { Ledger(h, false, false, h, 0, 0, 0, 0, 0) }

  ghost predicate Inv(s: State, l: Ledger, start: nat) {
    && s.persisted == (if l.marked then 0 else l.checkpoint)
    && (l.blind ==> l.marked)
    && Expected(l) <= l.held
    && s.emitted + l.lost + l.due + l.swallowed == start + l.rises + l.replayed
    && match s.phase
       case Idle =>
         && l.due == 0
         && (s.baseline.None? ==> l.held == s.persisted && l.blind == l.marked)
         && (s.baseline.Some? ==> l.held == Max(s.baseline.value, s.persisted))
       case Tracking => l.due == 0 && s.baseline == Some(l.held)
       case Written(m, p) =>
         s.baseline == Some(p) && m == l.checkpoint == l.held && !l.marked && l.due == Pos(m - p)
       case Advanced(m, p) =>
         s.baseline == Some(m) && m == l.checkpoint == l.held && !l.marked && l.due == Pos(m - p)
       case Marked(v) => l.due == 0 && s.baseline == Some(l.held) && v == s.persisted
  }

  lemma StepKeepsInv(s: State, l: Ledger, start: nat, e: Event)
    requires Inv(s, l, start) && Enabled(s, e)
    ensures Inv(Step(s, e), Book(l, e), start)
  {}

  lemma {:induction false} RunKeepsInv(s: State, l: Ledger, start: nat, es: seq<Event>)
    requires Inv(s, l, start) && Runs(s, es)
    ensures Inv(Exec(s, es), Books(l, es), start)
    decreases |es|
  {
    if es != [] {
      StepKeepsInv(s, l, start, es[0]);
      RunKeepsInv(Step(s, es[0]), Book(l, es[0]), start, es[1..]);
    }
  }

  /**
  Conservation over every run: what was emitted, what a crash or a lost reply cost after a landed
  write, and what a mark above the checkpoint swallowed add up to the rises of the happy-path
  checkpoint plus one replay of min(m, checkpoint) for each recovery seeded from a 0 marker.
  */
  lemma Conservation(h: nat, start: nat, es: seq<Event>)
    requires Runs(Fresh(h, start), es)
    ensures var s, l := Exec(Fresh(h, start), es), Books(Opening(h), es);
            && s.emitted + l.lost + l.due + l.swallowed == start + l.rises + l.replayed
            && (s.phase.Idle? ==> l.due == 0)
  {
    RunKeepsInv(Fresh(h, start), Opening(h), start, es);
  }

  /** No landed write meets a held mark above the expected baseline. */
  predicate NothingHidden(l: Ledger, es: seq<Event>)
    decreases |es|
  {
    es == [] ||
    ((es[0].WriteMissed? && es[0].outcome == Landed ==> Hidden(l, es[0].missed) == 0) &&
     NothingHidden(Book(l, es[0]), es[1..]))
  }

  lemma {:induction false} SwallowedExactly(l: Ledger, es: seq<Event>)
    ensures l.lost <= Books(l, es).lost && l.swallowed <= Books(l, es).swallowed
    ensures Books(l, es).swallowed == l.swallowed <==> NothingHidden(l, es)
    decreases |es|
  {
    if es != [] { SwallowedExactly(Book(l, es[0]), es[1..]); }
  }

  /** Without the swallowed term the books balance exactly for the runs in which nothing was hidden. */
  lemma BalancedExactly(h: nat, start: nat, es: seq<Event>)
    requires Runs(Fresh(h, start), es)
    ensures var s, l := Exec(Fresh(h, start), es), Books(Opening(h), es);
            s.emitted + l.lost + l.due == start + l.rises + l.replayed <==> NothingHidden(Opening(h), es)
  {
    Conservation(h, start, es);
    SwallowedExactly(Opening(h), es);
  }

  /** Whatever replies are lost, the counter never reports more than the rises and the replays. */
  lemma NeverOverReports(h: nat, start: nat, es: seq<Event>)
    requires Runs(Fresh(h, start), es)
    ensures var l := Books(Opening(h), es);
            Exec(Fresh(h, start), es).emitted <= start + l.rises + l.replayed
  {
    Conservation(h, start, es);
  }

  // ---------- The documented invariant ----------

  /** At a reconcile boundary the baseline does not lead the checkpoint. */
  predicate NotLeading(s: State, l: Ledger) {
    s.phase.Idle? && s.baseline.Some? ==> s.baseline.value <= l.checkpoint
  }

  /** It never does, from here through the whole run. */
  predicate NeverLeads(s: State, l: Ledger, es: seq<Event>)
    requires Runs(s, es)
    decreases |es|
  {
    NotLeading(s, l) && (es == [] || NeverLeads(Step(s, es[0]), Book(l, es[0]), es[1..]))
  }

  /** No reply to a durable write is lost while the count is below the held mark. */
  predicate AdmissibleRun(l: Ledger, es: seq<Event>)
    decreases |es|
  {
    es == [] ||
    ((es[0].WriteMissed? && es[0].outcome == Unacknowledged ==> l.held <= es[0].missed) &&
     AdmissibleRun(Book(l, es[0]), es[1..]))
  }

  lemma {:induction false} LeadsExactly(s: State, l: Ledger, start: nat, es: seq<Event>)
    requires Inv(s, l, start) && l.held == Expected(l) && Runs(s, es)
    ensures NeverLeads(s, l, es) <==> AdmissibleRun(l, es)
    decreases |es|
  {
    if es != [] {
      var e := es[0];
      StepKeepsInv(s, l, start, e);
      if e.WriteMissed? && e.outcome == Unacknowledged && e.missed < l.held {
        assert !NotLeading(Step(s, e), Book(l, e));
      } else {
        LeadsExactly(Step(s, e), Book(l, e), start, es[1..]);
      }
    }
  }

  /**
  The baseline leads the checkpoint at no reconcile boundary of a run exactly when no reply to a
  falling count was lost; the persisted value is the checkpoint or the 0 marker in every run.
  */
  lemma BoundaryInvariant(h: nat, start: nat, es: seq<Event>)
    requires Runs(Fresh(h, start), es)
    ensures NeverLeads(Fresh(h, start), Opening(h), es) <==> AdmissibleRun(Opening(h), es)
    ensures var p, l := Exec(Fresh(h, start), es).persisted, Books(Opening(h), es);
            p == if l.marked then 0 else l.checkpoint
  {
    RunKeepsInv(Fresh(h, start), Opening(h), start, es);
    LeadsExactly(Fresh(h, start), Opening(h), start, es);
  }

  // ---------- Residuals ----------

  /** No restart while the status carries a 0 marker, so no process is ever seeded from one. */
  predicate NoMarkerRestart(l: Ledger, es: seq<Event>)
    decreases |es|
  {
    es == [] || ((es[0].Restart? ==> !l.marked) && NoMarkerRestart(Book(l, es[0]), es[1..]))
  }

  /** No restart and no lost reply after a landed write that still has something to emit. */
  predicate NoLateCrash(l: Ledger, es: seq<Event>)
    decreases |es|
  {
    es == [] ||
    (&& (es[0].Restart? ==> l.due == 0)
     && (es[0].WriteMissed? && es[0].outcome == Unacknowledged ==> es[0].missed <= l.checkpoint && !l.blind)
     && NoLateCrash(Book(l, es[0]), es[1..]))
  }

  /** Replays, losses and hidden misses each have one cause, and lost replies to falling counts are the last one's. */
  lemma {:induction false} ResidualsHaveCauses(l: Ledger, es: seq<Event>)
    ensures !l.blind && NoMarkerRestart(l, es) ==> Books(l, es).replayed == l.replayed
    ensures NoLateCrash(l, es) ==> Books(l, es).lost == l.lost
    ensures l.held == Expected(l) && AdmissibleRun(l, es) ==> NothingHidden(l, es)
    decreases |es|
  {
    if es != [] { ResidualsHaveCauses(Book(l, es[0]), es[1..]); }
  }

  // ---------- Runs of whole reconciles ----------

  lemma {:induction false} RunAppend(s: State, l: Ledger, a: seq<Event>, b: seq<Event>)
    requires Runs(s, a) && Runs(Exec(s, a), b)
    ensures Runs(s, a + b) && Exec(s, a + b) == Exec(Exec(s, a), b)
    ensures Books(l, a + b) == Books(Books(l, a), b)
    decreases |a|
  {
    if a == [] {
      assert a + b == b;
    } else {
      assert (a + b)[1..] == a[1..] + b;
      RunAppend(Step(s, a[0]), Book(l, a[0]), a[1..], b);
    }
  }

  lemma RunCons(s: State, l: Ledger, e: Event, rest: seq<Event>)
    requires Enabled(s, e) && Runs(Step(s, e), rest)
    ensures Runs(s, [e] + rest) && Exec(s, [e] + rest) == Exec(Step(s, e), rest)
    ensures Books(l, [e] + rest) == Books(Book(l, e), rest)
  {
    assert ([e] + rest)[1..] == rest;
  }

  /** A reconcile whose happy-path write landed, through to the counter. */
  function HappyPass(m: nat): seq<Event> { [Begin, WriteMissed(m, Landed), Advance, Emit] }

  /** One happy reconcile persists `m`, advances the baseline to it and emits the positive difference. */
  lemma HappyPassEffect(s: State, l: Ledger, m: nat)
    requires s.phase.Idle?
    ensures Runs(s, HappyPass(m))
    ensures var b := Raise(s.baseline, s.persisted).value;
            Exec(s, HappyPass(m)) == State(m, Some(m), s.emitted + Pos(m - b), Idle)
    ensures Books(l, HappyPass(m)) == Book(l, WriteMissed(m, Landed)).(due := 0)
  {
    var s1, e1 := Step(s, Begin), WriteMissed(m, Landed);
    var s2 := Step(s1, e1);
    var s3 := Step(s2, Advance);
    var l1 := Book(l, e1);
    RunCons(s3, l1, Emit, []);
    RunCons(s2, l1, Advance, [Emit]);
    RunCons(s1, l, e1, [Advance] + [Emit]);
    RunCons(s, l, Begin, [e1] + ([Advance] + [Emit]));
    assert HappyPass(m) == [Begin] + ([e1] + ([Advance] + [Emit]));
  }

  /** A reconcile whose happy-path write landed but came back as an error. */
  lemma LostPassEffect(s: State, l: Ledger, m: nat)
    requires s.phase.Idle?
    ensures var es := [Begin, WriteMissed(m, Unacknowledged)];
            && Runs(s, es)
            && Exec(s, es) == s.(persisted := m, baseline := Raise(s.baseline, s.persisted))
            && Books(l, es) == Book(l, WriteMissed(m, Unacknowledged))
  {
    var e := WriteMissed(m, Unacknowledged);
    RunCons(Step(s, Begin), l, e, []);
    RunCons(s, l, Begin, [e]);
    assert [Begin, e] == [Begin] + [e];
  }

  /** What the books say after a streak of `a`, a reset whose reply is lost, and a streak of `b`. */
  lemma TwoStreaks(a: nat, b: nat)
    ensures var l1 := Book(Opening(0), WriteMissed(a, Landed)).(due := 0);
            var l2 := Book(l1, WriteMissed(0, Unacknowledged));
            Book(l2, WriteMissed(b, Landed)).(due := 0) ==
              Ledger(b, false, false, b, 0, a + b, 0, 0, Min(a, b))
  {}

  /**
  A streak of `a` is reported; the reset to zero lands but its reply is lost; of the next streak of
  `b` only what exceeds `a` is emitted, without any crash.
  */
  lemma LostReplySwallowsAStreak(a: nat, b: nat) returns (es: seq<Event>)
    ensures Runs(Fresh(0, 0), es) && Exec(Fresh(0, 0), es) == State(b, Some(b), a + Pos(b - a), Idle)
    ensures Books(Opening(0), es) == Ledger(b, false, false, b, 0, a + b, 0, 0, Min(a, b))
  {
    var s0, l0 := Fresh(0, 0), Opening(0);
    var first, reset, second := HappyPass(a), [Begin, WriteMissed(0, Unacknowledged)], HappyPass(b);
    HappyPassEffect(s0, l0, a);
    var s1, l1 := State(a, Some(a), a, Idle), Book(l0, WriteMissed(a, Landed)).(due := 0);
    LostPassEffect(s1, l1, 0);
    var s2, l2 := s1.(persisted := 0), Book(l1, WriteMissed(0, Unacknowledged));
    HappyPassEffect(s2, l2, b);
    assert Exec(s2, second) == State(b, Some(b), a + Pos(b - a), Idle);
    RunAppend(s0, l0, first, reset);
    RunAppend(s0, l0, first + reset, second);
    TwoStreaks(a, b);
    es := first + reset + second;
  }
}
