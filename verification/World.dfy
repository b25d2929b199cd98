/**
One process reconciling many monitors: `lastMissed` and the counter vector are shared by all keys,
and the guarded sections of different keys interleave in any order. A restart hits every key.
*/
module World {
  import opened Basics
  import opened BurnCounter

  datatype Key = Key(namespace: string, name: string)

  function Lookup<V>(m: map<Key, V>, k: Key): Option<V> { if k in m then Some(m[k]) else None }

  function GetOr<V>(m: map<Key, V>, k: Key, default: V): V { if k in m then m[k] else default }

  /** The reconciler's in-memory tables. Every method is one guarded section. */
  class Reconciler {
    var lastMissed: map<Key, nat>
    var total: map<Key, nat>

    constructor ()
      ensures lastMissed == map[] && total == map[]
    {
      lastMissed, total := map[], map[];
    }

    method SyncMissedBaseline(key: Key, missed: nat)
      modifies this`lastMissed
      ensures lastMissed == SyncTable(old(lastMissed), key, missed)
      ensures forall w: Process ::
                Holds(w, old(lastMissed), total) && CanDo(w, On(key, Begin)) && GetOr(w.persisted, key, 0) == missed
                ==> Holds(Do(w, On(key, Begin)), lastMissed, total)
      ensures forall w: Process ::
                Holds(w, old(lastMissed), total) && GetOr(w.phase, key, Idle) == Marked(missed)
                ==> Holds(Do(w, On(key, SyncMarked)), lastMissed, total)
    {
      if key !in lastMissed || missed > lastMissed[key] {
        lastMissed := lastMissed[key := missed];
      }
    }

    method ReadBaseline(key: Key, persisted: nat) returns (prev: nat)
      ensures prev == GetOr(lastMissed, key, persisted)
    {
      if key in lastMissed { prev := lastMissed[key]; } else { prev := persisted; }
    }

    method CommitMissed(key: Key, missed: nat, prev: nat)
      modifies this
      ensures lastMissed == old(lastMissed)[key := missed]
      ensures total == AddTable(old(total), key, Pos(missed - prev))
      ensures forall w: Process :: Holds(w, old(lastMissed), old(total)) && Committing(w, key, missed, prev) ==>
                Holds(Committed(w, key), lastMissed, total)
    {
      lastMissed := lastMissed[key := missed];
      if missed > prev {
        total := total[key := (if key in total then total[key] else 0) + (missed - prev)];
      }
    }

    /** The state of one monitor, given its persisted status. */
    function View(key: Key, persisted: nat): State
      reads this
    {
      State(persisted, Lookup(lastMissed, key), GetOr(total, key, 0), Idle)
    }

    /**
    The burn-counter part of a happy-path `Reconcile`: sync on read, read the baseline, write, and
    commit only after the write was acknowledged. It is the protocol run of the same events, and it
    leaves every other monitor alone.
    */
    method ReconcileMissed(key: Key, persisted: nat, missed: nat, outcome: Outcome)
      returns (persisted': nat)
      modifies this
      ensures Runs(old(View(key, persisted)), PassEvents(missed, outcome))
      ensures View(key, persisted') == Exec(old(View(key, persisted)), PassEvents(missed, outcome))
      ensures forall k, p :: k != key ==> View(k, p) == old(View(k, p))
    {
      ghost var s := View(key, persisted);
      SyncMissedBaseline(key, persisted);
      var prev := ReadBaseline(key, persisted);
      persisted' := if Durable(outcome) then missed else persisted;
      if outcome == Landed {
        CommitMissed(key, missed, prev);
      }
      PassEffect(s, missed, outcome);
    }

    /**
    The burn-counter part of an early return: sync on read, write the 0 marker or the frozen value, and
    sync again only after the write was acknowledged. Nothing is ever emitted here.
    */
    method ReconcileUnmeasured(key: Key, persisted: nat, frozen: bool, outcome: Outcome)
      returns (persisted': nat)
      modifies this`lastMissed
      ensures Runs(old(View(key, persisted)), EarlyEvents(frozen, outcome))
      ensures View(key, persisted') == Exec(old(View(key, persisted)), EarlyEvents(frozen, outcome))
      ensures forall k, p :: k != key ==> View(k, p) == old(View(k, p))
    {
      ghost var s := View(key, persisted);
      SyncMissedBaseline(key, persisted);
      var missedRuns := if frozen then persisted else 0;
      persisted' := if Durable(outcome) then missedRuns else persisted;
      if outcome == Landed {
        SyncMissedBaseline(key, missedRuns);
      }
      EarlyEffect(s, frozen, outcome);
    }
  }

  function SyncTable(m: map<Key, nat>, k: Key, v: nat): map<Key, nat> {
    m[k := Raise(Lookup(m, k), v).value]
  }

  function AddTable(m: map<Key, nat>, k: Key, v: nat): map<Key, nat> {
    if v == 0 then m else m[k := GetOr(m, k, 0) + v]
  }

  /** The events of one happy-path reconcile. */
  function PassEvents(missed: nat, o: Outcome): seq<Event> {
    if o == Landed then HappyPass(missed) else [Begin, WriteMissed(missed, o)]
  }

  lemma PassEffect(s: State, missed: nat, o: Outcome)
    requires s.phase.Idle?
    ensures Runs(s, PassEvents(missed, o))
    ensures var b := Raise(s.baseline, s.persisted);
            Exec(s, PassEvents(missed, o)) ==
              if o == Landed then State(missed, Some(missed), s.emitted + Pos(missed - b.value), Idle)
              else s.(baseline := b, persisted := if Durable(o) then missed else s.persisted)
  {
    if o == Landed {
      HappyPassEffect(s, Opening(0), missed);
    } else {
      var e := WriteMissed(missed, o);
      RunCons(Step(s, Begin), Opening(0), e, []);
      RunCons(s, Opening(0), Begin, [e]);
      assert [Begin, e] == [Begin] + [e];
    }
  }

  /** The events of one early return. */
  function EarlyEvents(frozen: bool, o: Outcome): seq<Event> {
    var write := if frozen then WriteFrozen(o) else WriteMarker(o);
    if o == Landed then [Begin, write, SyncMarked] else [Begin, write]
  }

  lemma EarlyEffect(s: State, frozen: bool, o: Outcome)
    requires s.phase.Idle?
    ensures Runs(s, EarlyEvents(frozen, o))
    ensures Exec(s, EarlyEvents(frozen, o)) ==
              s.(baseline := Raise(s.baseline, s.persisted),
                 persisted := if Durable(o) && !frozen then 0 else s.persisted)
  {
    var write := if frozen then WriteFrozen(o) else WriteMarker(o);
    var s1 := Step(s, Begin);
    var rest := if o == Landed then [SyncMarked] else [];
    if o == Landed { RunCons(Step(s1, write), Opening(0), SyncMarked, []); }
    RunCons(s1, Opening(0), write, rest);
    RunCons(s, Opening(0), Begin, [write] + rest);
    assert EarlyEvents(frozen, o) == [Begin] + ([write] + rest);
  }

  // ---------- Interleavings ----------

  /** The whole process, with the persisted status and the reconcile phase of every monitor. */
  datatype Process = Process(
    persisted: map<Key, nat>, lastMissed: map<Key, nat>, total: map<Key, nat>, phase: map<Key, Phase>)

  datatype Section = On(key: Key, event: Event) | Crash

  /** The process holds these in-memory tables. */
  predicate Holds(w: Process, lastMissed: map<Key, nat>, total: map<Key, nat>) {
    w.lastMissed == lastMissed && w.total == total
  }

  function ViewOf(w: Process, k: Key): State {
    State(GetOr(w.persisted, k, 0), Lookup(w.lastMissed, k), GetOr(w.total, k, 0), GetOr(w.phase, k, Idle))
  }

  predicate CanDo(w: Process, a: Section) {
    a.On? ==> a.event != Restart && Enabled(ViewOf(w, a.key), a.event)
  }

  /** A status write of `v` for key `k` that came back with `o`; only an acknowledged one goes on. */
  function Write(w: Process, k: Key, v: nat, o: Outcome, next: Phase): Process {
    w.(persisted := if Durable(o) then w.persisted[k := v] else w.persisted,
       phase := w.phase[k := if o == Landed then next else Idle])
  }

  /** One section on the shared tables, with the table operations the reconciler's methods perform. */
  function Do(w: Process, a: Section): Process
    requires CanDo(w, a)
  {
    if a.Crash? then w.(lastMissed := map[], phase := map[]) else
    var k, stored, phase := a.key, GetOr(w.persisted, a.key, 0), GetOr(w.phase, a.key, Idle);
    match a.event
    case Begin => w.(lastMissed := SyncTable(w.lastMissed, k, stored), phase := w.phase[k := Tracking])
    case Abandon => w.(phase := w.phase[k := Idle])
    case WriteMissed(m, o) => Write(w, k, m, o, Written(m, GetOr(w.lastMissed, k, stored)))
    case Advance =>
      w.(lastMissed := w.lastMissed[k := phase.missed], phase := w.phase[k := Advanced(phase.missed, phase.prev)])
    case Emit => w.(total := AddTable(w.total, k, Pos(phase.missed - phase.prev)), phase := w.phase[k := Idle])
    case WriteMarker(o) => Write(w, k, 0, o, Marked(0))
    case WriteFrozen(o) => Write(w, k, stored, o, Marked(stored))
    case SyncMarked => w.(lastMissed := SyncTable(w.lastMissed, k, phase.value), phase := w.phase[k := Idle])
  }

  /** A landed happy-path write of `missed` over the baseline `prev` waits for its commit. */
  predicate Committing(w: Process, k: Key, missed: nat, prev: nat) { GetOr(w.phase, k, Idle) == Written(missed, prev) }

  /** The two sections of a commit: advance the baseline, then count. */
  function Committed(w: Process, k: Key): Process
    requires GetOr(w.phase, k, Idle).Written?
  {
    Do(Do(w, On(k, Advance)), On(k, Emit))
  }

  predicate Schedulable(w: Process, run: seq<Section>)
    decreases |run|
  {
    run == [] || (CanDo(w, run[0]) && Schedulable(Do(w, run[0]), run[1..]))
  }

  function DoAll(w: Process, run: seq<Section>): Process
    requires Schedulable(w, run)
    decreases |run|
  {
    if run == [] then w else DoAll(Do(w, run[0]), run[1..])
  }

  /** The events monitor `k` takes part in: its own sections and every crash. */
  function Project(run: seq<Section>, k: Key): seq<Event>
    decreases |run|
  {
    if run == [] then []
    else if run[0].Crash? then [Restart] + Project(run[1..], k)
    else if run[0].key == k then [run[0].event] + Project(run[1..], k)
    else Project(run[1..], k)
  }

  lemma WriteView(w: Process, k: Key, v: nat, o: Outcome, next: Phase, j: Key)
    ensures var s := ViewOf(w, k);
            ViewOf(Write(w, k, v, o, next), j) ==
              if j != k then ViewOf(w, j)
              else s.(persisted := if Durable(o) then v else s.persisted, phase := if o == Landed then next else Idle)
  {}

  lemma OwnSection(w: Process, k: Key, e: Event)
    requires CanDo(w, On(k, e))
    ensures ViewOf(Do(w, On(k, e)), k) == Step(ViewOf(w, k), e)
  {
    match e {
      case WriteMissed(m, o) =>
        WriteView(w, k, m, o, Written(m, PrevOf(ViewOf(w, k))), k);
      case WriteMarker(o) =>
        WriteView(w, k, 0, o, Marked(0), k);
      case WriteFrozen(o) =>
        var v := ViewOf(w, k).persisted;
        WriteView(w, k, v, o, Marked(v), k);
      case _ =>
    }
  }

  lemma OtherSection(w: Process, j: Key, e: Event, k: Key)
    requires CanDo(w, On(j, e)) && j != k
    ensures ViewOf(Do(w, On(j, e)), k) == ViewOf(w, k)
  {}

  /** On the shared tables a section is one protocol step of its own monitor and none of any other. */
  lemma SectionIsLocal(w: Process, a: Section, k: Key)
    requires CanDo(w, a)
    ensures ViewOf(Do(w, a), k) ==
              if a.Crash? then Step(ViewOf(w, k), Restart)
              else if a.key == k then Step(ViewOf(w, k), a.event)
              else ViewOf(w, k)
  {
    if a.On? {
      if a.key == k { OwnSection(w, k, a.event); } else { OtherSection(w, a.key, a.event, k); }
    }
  }

  /** For every interleaving, a monitor fares exactly as if its own sections had run alone, in order. */
  lemma {:induction false} Independent(w: Process, run: seq<Section>, k: Key)
    requires Schedulable(w, run)
    ensures Runs(ViewOf(w, k), Project(run, k))
    ensures ViewOf(DoAll(w, run), k) == Exec(ViewOf(w, k), Project(run, k))
    decreases |run|
  {
    if run != [] {
      var a, rest := run[0], Project(run[1..], k);
      SectionIsLocal(w, a, k);
      Independent(Do(w, a), run[1..], k);
      if a.Crash? { assert ([Restart] + rest)[1..] == rest; }
      else if a.key == k { assert ([a.event] + rest)[1..] == rest; }
    }
  }

  /** Hence the books of every monitor balance in every interleaved run of the whole process. */
  lemma ConservationEverywhere(w: Process, run: seq<Section>, k: Key)
    requires Schedulable(w, run)
    requires ViewOf(w, k).baseline.None? && ViewOf(w, k).phase.Idle?
    ensures var s, l := ViewOf(DoAll(w, run), k), Books(Opening(ViewOf(w, k).persisted), Project(run, k));
            s.emitted + l.lost + l.due + l.swallowed == ViewOf(w, k).emitted + l.rises + l.replayed
  {
    var s := ViewOf(w, k);
    Independent(w, run, k);
    Conservation(s.persisted, s.emitted, Project(run, k));
  }
}
