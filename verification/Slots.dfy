/**
The plain set of slots that every search in the schedule package is measured against:
an arbitrary predicate on instants, with no bound on how dense or how sparse it is.
*/
module Slots {
  import opened Calendar

  type SlotSet = Instant -> bool

  /** No slot in the half-open window (a, b]. */
  ghost predicate Vacant(slot: SlotSet, a: Instant, b: Instant) {
    forall t :: a < t <= b ==> !slot(t)
  }

  /** `n` is the first slot strictly after `from`. */
  ghost predicate IsFirstAfter(slot: SlotSet, from: Instant, n: Instant) {
    from < n && slot(n) && forall t :: from < t < n ==> !slot(t)
  }

  /** `p` is the last slot at or before `at`. */
  ghost predicate IsLastUpTo(slot: SlotSet, at: Instant, p: Instant) {
    p <= at && slot(p) && Vacant(slot, p, at)
  }

  /** The number of slots in (a, b]. */
  ghost function Count(slot: SlotSet, a: Instant, b: Instant): nat
    decreases b - a
  {
    if b <= a then 0 else Count(slot, a, b - 1) + if slot(b) then 1 else 0
  }

  lemma {:induction false} CountSplits(slot: SlotSet, a: Instant, b: Instant, c: Instant)
    requires a <= b <= c
    ensures Count(slot, a, c) == Count(slot, a, b) + Count(slot, b, c)
    decreases c - b
  {
    if b < c { CountSplits(slot, a, b, c - 1); }
  }

  lemma {:induction false} CountVacant(slot: SlotSet, a: Instant, b: Instant)
    ensures Count(slot, a, b) == 0 <==> Vacant(slot, a, b)
    decreases b - a
  {
    if a < b {
      CountVacant(slot, a, b - 1);
      if Vacant(slot, a, b) { assert Vacant(slot, a, b - 1); }
      if Vacant(slot, a, b - 1) && !slot(b) { assert Vacant(slot, a, b); }
    }
  }

  /** Stepping onto the first slot after `a` raises the count by exactly one. */
  lemma CountFirst(slot: SlotSet, a: Instant, n: Instant)
    requires IsFirstAfter(slot, a, n)
    ensures Count(slot, a, n) == 1
  {
    CountVacant(slot, a, n - 1);
  }

  /** A later start never raises the count and a later end never lowers it. */
  lemma CountMonotone(slot: SlotSet, a: Instant, b: Instant, a': Instant, b': Instant)
    requires a <= a' && b' <= b
    ensures Count(slot, a', b') <= Count(slot, a, b)
  {
    if a' < b' {
      CountSplits(slot, a, a', b);
      CountSplits(slot, a', b', b);
    }
  }

  lemma WiderIsNotVacant(slot: SlotSet, a: Instant, a': Instant, b: Instant)
    requires a' <= a && !Vacant(slot, a, b)
    ensures !Vacant(slot, a', b)
  {
    var t :| a < t <= b && slot(t);
    assert a' < t;
  }
}
