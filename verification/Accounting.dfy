/**
From slots to the counter: the floor a missed-run count starts from, and what the emitted counter
says about the slots themselves after any run of the protocol.
*/
module Accounting {
  import opened Calendar
  import opened Slots
  import opened Schedule
  import opened Basics
  import BurnCounter
  import Conditions

  // ---------- The floor ----------

  /** The scheduler's own record may raise the floor, when it speaks of our slots and not of the future. */
  predicate Admitted(lastStart: Instant, record: Option<Instant>, foreignGrid: bool, now: Instant) {
    !foreignGrid && record.Some? && lastStart < record.value <= now
  }

  /** Last observed start, else creation time, raised by an admitted witness. */
  function MissedFloor(lastSchedule: Option<Instant>, creation: Instant,
                       record: Option<Instant>, foreignGrid: bool, now: Instant): Instant
  {
    var lastStart := LastStart(lastSchedule, creation);
    if Admitted(lastStart, record, foreignGrid, now) then record.value else lastStart
  }

  /** What a floor starts from before any witness is heard. */
  function LastStart(lastSchedule: Option<Instant>, creation: Instant): Instant {
    if lastSchedule.Some? then lastSchedule.value else creation
  }

  /** The latch has not fallen, and its first value is no earlier than the monitor. */
  predicate LatchHolds(latch: Option<Instant>, latch': Option<Instant>, creation: Instant) {
    if latch.Some? then latch'.Some? && latch.value <= latch'.value
    else latch'.Some? ==> creation <= latch'.value
  }

  /** A witness that was admitted is still, or has been overtaken. */
  predicate WitnessHolds(latch: Option<Instant>, record: Option<Instant>, foreign: bool, now: Instant,
                         latch': Option<Instant>, record': Option<Instant>, foreign': bool, now': Instant,
                         creation: Instant)
  {
    Admitted(LastStart(latch, creation), record, foreign, now) ==>
      || record.value <= LastStart(latch', creation)
      || (!foreign' && record'.Some? && record.value <= record'.value <= now')
  }

  /**
  Between two measurements the floor does not move back if the latch and the witness hold. For the
  witness that is exact: if the latch holds, the floor moves back exactly when the witness does not.
  */
  lemma FloorMovesForward(latch: Option<Instant>, record: Option<Instant>, foreign: bool, now: Instant,
                          latch': Option<Instant>, record': Option<Instant>, foreign': bool, now': Instant,
                          creation: Instant)
    requires LatchHolds(latch, latch', creation)
    ensures MissedFloor(latch, creation, record, foreign, now) <= MissedFloor(latch', creation, record', foreign', now')
            <==> WitnessHolds(latch, record, foreign, now, latch', record', foreign', now', creation)
  {}

  /** Without witnesses the first Job seen lowers the floor exactly when it started before the monitor was created. */
  lemma FirstSightingLowersFloor(creation: Instant, first: Instant, now: Instant, now': Instant)
    ensures MissedFloor(Some(first), creation, None, false, now') < MissedFloor(None, creation, None, false, now)
            <==> !LatchHolds(None, Some(first), creation)
  {}

  /**
  The floor spelled out: the latch or the creation time, unless the scheduler's record is admitted, is
  later, and is not in the future.
  */
  ghost predicate FloorFrom(floor: Instant, latch: Option<Instant>, creation: Instant, record: Option<Instant>,
                            overridden: bool, zoneGiven: bool, now: Instant)
  {
    var base := if latch.Some? then latch.value else creation;
    floor == if !overridden && !zoneGiven && record.Some? && base < record.value <= now then record.value else base
  }

  lemma FloorIsMissedFloor(floor: Instant, latch: Option<Instant>, creation: Instant, record: Option<Instant>,
                           overridden: bool, zoneGiven: bool, now: Instant)
    ensures FloorFrom(floor, latch, creation, record, overridden, zoneGiven, now) <==>
              floor == MissedFloor(latch, creation, record, overridden || zoneGiven, now)
  {}

  /** The alert fires exactly when enough slots crossed the grace horizon since the floor. */
  lemma AlertExactly(slot: SlotSet, floor: Instant, horizon: Instant, alertAfter: int)
    ensures Conditions.ScheduleVerdict(Missed(slot, floor, horizon), alertAfter) ==
              if 0 < alertAfter <= 100_001 && Count(slot, floor, horizon) >= alertAfter
              then Conditions.Condition(Conditions.False, Conditions.ScheduleMissed)
              else Conditions.Condition(Conditions.True, Conditions.OnSchedule)
  {}

  /** The count a happy reconcile publishes; it always fits an int32. */
  method MeasureMissed(next: NextFn, ghost slot: SlotSet, lastSchedule: Option<Instant>, creation: Instant,
                       record: Option<Instant>, overridden: bool, zoneGiven: bool, now: Instant, grace: int)
    returns (missed: nat)
    requires Oracle(next, ReachFrom, slot)
    ensures missed <= 100_001 < 0x8000_0000
    ensures var floor := MissedFloor(lastSchedule, creation, record, overridden || zoneGiven, now);
            && missed <= Missed(slot, floor, now - grace)
            && (!SkipsZero(slot, floor, now - grace) ==> missed == Missed(slot, floor, now - grace))
    ensures forall floor :: FloorFrom(floor, lastSchedule, creation, record, overridden, zoneGiven, now)
                            && !SkipsZero(slot, floor, now - grace) ==>
              && (Count(slot, floor, now - grace) <= 100_000 ==> missed == Count(slot, floor, now - grace))
              && (Count(slot, floor, now - grace) > 100_000 ==> missed == 100_001)
  {
    var lastStart := creation;
    if lastSchedule.Some? { lastStart := lastSchedule.value; }
    if !overridden && !zoneGiven && record.Some? && record.value > lastStart && record.value <= now {
      lastStart := record.value;
    }
    missed := MissedRunsSince(next, ReachFrom, slot, lastStart, now, grace);
  }

  /** Raising a floor removes exactly the slots it passes, up to the horizon. */
  lemma RaisedFloor(slot: SlotSet, f: Instant, f': Instant, h: Instant)
    requires f <= f'
    ensures Count(slot, f', h) + Count(slot, f, Min(f', h)) == Count(slot, f, h)
  {
    if f <= Min(f', h) { CountSplits(slot, f, Min(f', h), h); }
  }

  /**
  The witness is one-sided: admitted, it lowers the count by exactly the slots it passes, so it
  never turns `ScheduleHealthy` from True to False; otherwise it changes nothing.
  */
  lemma WitnessOnlyLowers(slot: SlotSet, lastStart: Instant, record: Option<Instant>, foreignGrid: bool,
                          now: Instant, grace: int, alertAfter: int)
    ensures var h := now - grace;
            var f' := MissedFloor(Some(lastStart), 0, record, foreignGrid, now);
            && (!Admitted(lastStart, record, foreignGrid, now) ==> f' == lastStart)
            && Missed(slot, f', h) <= Missed(slot, lastStart, h)
            && (Count(slot, lastStart, h) < CAP ==>
                  Missed(slot, f', h) == Missed(slot, lastStart, h) - Count(slot, lastStart, Min(f', h)))
            && (Conditions.ScheduleVerdict(Missed(slot, lastStart, h), alertAfter).status.True? ==>
                  Conditions.ScheduleVerdict(Missed(slot, f', h), alertAfter).status.True?)
  {
    var f' := MissedFloor(Some(lastStart), 0, record, foreignGrid, now);
    RaisedFloor(slot, lastStart, f', now - grace);
  }

  // ---------- Counter and slots ----------

  /** Where one measurement started and ended. */
  datatype Sample = Sample(floor: Instant, horizon: Instant)

  ghost function MissedAt(slot: SlotSet, x: Sample): nat { Missed(slot, x.floor, x.horizon) }

  /** A happy-path value that became durable. */
  predicate Lands(e: BurnCounter.Event) { e.WriteMissed? && BurnCounter.Durable(e.outcome) }

  /** Every durable value is a measurement, and neither its floor nor its horizon ever moves back. */
  ghost predicate Forward(slot: SlotSet, last: Sample, es: seq<BurnCounter.Event>, ss: seq<Sample>)
    requires |es| == |ss|
    decreases |es|
  {
    es == [] ||
    if Lands(es[0]) then
      && es[0].missed == MissedAt(slot, ss[0])
      && last.floor <= ss[0].floor && last.horizon <= ss[0].horizon
      && Forward(slot, ss[0], es[1..], ss[1..])
    else Forward(slot, last, es[1..], ss[1..])
  }

  /** The measurement behind the last durable value. */
  function Latest(last: Sample, es: seq<BurnCounter.Event>, ss: seq<Sample>): Sample
    requires |es| == |ss|
    decreases |es|
  {
    if es == [] then last else Latest(if Lands(es[0]) then ss[0] else last, es[1..], ss[1..])
  }

  /** One rise is covered by the slots that crossed the horizon meanwhile. */
  lemma RiseCovered(slot: SlotSet, a: Sample, b: Sample)
    requires a.floor <= b.floor && a.horizon <= b.horizon
    ensures MissedAt(slot, b) <= MissedAt(slot, a) + Count(slot, a.horizon, b.horizon)
    ensures a.floor == b.floor ==> MissedAt(slot, a) <= MissedAt(slot, b)
  {
    CountMonotone(slot, a.floor, b.horizon, b.floor, b.horizon);
    if a.floor <= a.horizon {
      CountSplits(slot, a.floor, a.horizon, b.horizon);
    } else {
      CountMonotone(slot, a.horizon, b.horizon, a.floor, b.horizon);
      CountMonotone(slot, a.floor, b.horizon, a.floor, a.horizon);
    }
  }

  lemma {:induction false} LatestForward(slot: SlotSet, last: Sample, es: seq<BurnCounter.Event>, ss: seq<Sample>)
    requires |es| == |ss| && Forward(slot, last, es, ss)
    ensures last.floor <= Latest(last, es, ss).floor && last.horizon <= Latest(last, es, ss).horizon
    decreases |es|
  {
    if es != [] { LatestForward(slot, if Lands(es[0]) then ss[0] else last, es[1..], ss[1..]); }
  }

  lemma {:induction false} RisesCovered(slot: SlotSet, last: Sample, l: BurnCounter.Ledger,
                                        es: seq<BurnCounter.Event>, ss: seq<Sample>)
    requires |es| == |ss| && Forward(slot, last, es, ss) && l.checkpoint == MissedAt(slot, last)
    ensures BurnCounter.Books(l, es).rises <= l.rises + Count(slot, last.horizon, Latest(last, es, ss).horizon)
    ensures last.floor == Latest(last, es, ss).floor ==>
              BurnCounter.Books(l, es).rises + MissedAt(slot, last) == l.rises + MissedAt(slot, Latest(last, es, ss))
    decreases |es|
  {
    if es != [] {
      var mid := if Lands(es[0]) then ss[0] else last;
      RisesCovered(slot, mid, BurnCounter.Book(l, es[0]), es[1..], ss[1..]);
      LatestForward(slot, mid, es[1..], ss[1..]);
      RiseCovered(slot, last, mid);
      CountSplits(slot, last.horizon, mid.horizon, Latest(last, es, ss).horizon);
    }
  }

  /** Under a fixed floor counts never fall, so no lost reply can leave a mark above the checkpoint. */
  lemma {:induction false} FixedFloorHidesNothing(slot: SlotSet, last: Sample, l: BurnCounter.Ledger,
                                                  es: seq<BurnCounter.Event>, ss: seq<Sample>)
    requires |es| == |ss| && Forward(slot, last, es, ss) && l.checkpoint == MissedAt(slot, last)
    requires last.floor == Latest(last, es, ss).floor
    requires !l.blind && l.held == l.checkpoint && BurnCounter.NoMarkerRestart(l, es)
    ensures BurnCounter.NothingHidden(l, es)
    decreases |es|
  {
    if es != [] {
      var mid := if Lands(es[0]) then ss[0] else last;
      LatestForward(slot, mid, es[1..], ss[1..]);
      RiseCovered(slot, last, mid);
      FixedFloorHidesNothing(slot, mid, BurnCounter.Book(l, es[0]), es[1..], ss[1..]);
    }
  }

  /**
  End to end, floors moving forward: whatever conflicts, lost replies, early returns, failovers and
  crashes lie in between, the counter grows by no more than the slots that crossed the grace horizon
  and what was replayed. Misses lost or swallowed on the way are among those. Without a restart on a
  0 marker nothing is replayed.
  */
  lemma CounterAtMostSlots(slot: SlotSet, s: BurnCounter.State, l: BurnCounter.Ledger, start: nat, last: Sample,
                           es: seq<BurnCounter.Event>, ss: seq<Sample>)
    requires BurnCounter.Inv(s, l, start) && s.phase.Idle? && BurnCounter.Runs(s, es)
    requires |es| == |ss| && Forward(slot, last, es, ss) && l.checkpoint == MissedAt(slot, last)
    ensures var end, l', crossed := BurnCounter.Exec(s, es), BurnCounter.Books(l, es),
                                    Count(slot, last.horizon, Latest(last, es, ss).horizon);
            && end.emitted + (l'.lost - l.lost) + (l'.swallowed - l.swallowed)
                 <= s.emitted + crossed + (l'.replayed - l.replayed)
            && l.lost <= l'.lost && l.swallowed <= l'.swallowed
            && (!l.blind && BurnCounter.NoMarkerRestart(l, es) ==> end.emitted <= s.emitted + crossed)
  {
    BurnCounter.RunKeepsInv(s, l, start, es);
    BurnCounter.ResidualsHaveCauses(l, es);
    BurnCounter.SwallowedExactly(l, es);
    RisesCovered(slot, last, l, es, ss);
  }

  /** What the counter grew by, with the books' losses put back and their replays taken out. */
  ghost function Grown(s: BurnCounter.State, l: BurnCounter.Ledger, es: seq<BurnCounter.Event>): int
    requires BurnCounter.Runs(s, es)
  {
    var s', l' := BurnCounter.Exec(s, es), BurnCounter.Books(l, es);
    s'.emitted - s.emitted + (l'.lost - l.lost) + (l'.swallowed - l.swallowed) - (l'.replayed - l.replayed)
  }

  /**
  End to end, floor fixed: between two quiet points of any run the counter grows by exactly the slots
  after the floor that crossed the grace horizon (below the safety rail), up to what the books show as
  lost, swallowed and replayed.
  */
  lemma CounterEqualsSlots(slot: SlotSet, s: BurnCounter.State, l: BurnCounter.Ledger, start: nat, last: Sample,
                           es: seq<BurnCounter.Event>, ss: seq<Sample>)
    requires BurnCounter.Inv(s, l, start) && s.phase.Idle?
    requires BurnCounter.Runs(s, es) && BurnCounter.Exec(s, es).phase.Idle?
    requires |es| == |ss| && Forward(slot, last, es, ss) && l.checkpoint == MissedAt(slot, last)
    requires Latest(last, es, ss).floor == last.floor
    ensures var end := Latest(last, es, ss);
            && Grown(s, l, es) == MissedAt(slot, end) - MissedAt(slot, last)
            && (Count(slot, end.floor, end.horizon) < CAP ==>
                  Grown(s, l, es) == Count(slot, Max(last.floor, last.horizon), end.horizon))
  {
    var end := Latest(last, es, ss);
    BurnCounter.RunKeepsInv(s, l, start, es);
    RisesCovered(slot, last, l, es, ss);
    LatestForward(slot, last, es, ss);
    if last.floor <= last.horizon { CountSplits(slot, last.floor, last.horizon, end.horizon); }
  }

  /** And with a fixed floor and neither documented residual the books show nothing of the kind. */
  lemma QuietBooks(slot: SlotSet, s: BurnCounter.State, l: BurnCounter.Ledger, last: Sample,
                   es: seq<BurnCounter.Event>, ss: seq<Sample>)
    requires BurnCounter.Runs(s, es) && |es| == |ss| && Forward(slot, last, es, ss)
    requires l.checkpoint == MissedAt(slot, last) && Latest(last, es, ss).floor == last.floor
    requires !l.blind && l.held == l.checkpoint
    requires BurnCounter.NoMarkerRestart(l, es) && BurnCounter.NoLateCrash(l, es)
    ensures Grown(s, l, es) == BurnCounter.Exec(s, es).emitted - s.emitted
  {
    BurnCounter.ResidualsHaveCauses(l, es);
    BurnCounter.SwallowedExactly(l, es);
    FixedFloorHidesNothing(slot, last, l, es, ss);
  }
}
