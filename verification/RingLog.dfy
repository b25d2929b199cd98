/**
What a bounded ring remembers across merges: it is the front of the log that was never truncated,
as long as no record of the log moves back in time.
*/
module RingLog {
  import opened Basics
  import opened Ring

  // ---------- Runs ----------

  /** The log that keeps everything. */
  function LogOf(batches: seq<seq<Record>>): (m: Log)
    ensures ByName(m)
  {
    if batches == [] then map[] else Absorb(LogOf(batches[..|batches| - 1]), batches[|batches| - 1])
  }

  /** The ring after the same merges, truncated every time. */
  ghost function RingOf(batches: seq<seq<Record>>, limit: int): seq<Record> {
    if batches == [] then []
    else Merged(RingOf(batches[..|batches| - 1], limit), batches[|batches| - 1], limit)
  }

  // ---------- Absorbing is local to a name ----------

  /** Two logs hold the same entry for `n`, or both hold none. */
  ghost predicate AgreeOn(a: Log, b: Log, n: string) {
    (n in a <==> n in b) && (n in a ==> a[n] == b[n])
  }

  lemma {:induction false} AbsorbIsLocal(a: Log, b: Log, s: seq<Record>, n: string)
    requires AgreeOn(a, b, n)
    ensures AgreeOn(Absorb(a, s), Absorb(b, s), n)
    decreases |s|
  {
    if s != [] { AbsorbIsLocal(a, b, s[..|s| - 1], n); }
  }

  // ---------- Start times across views ----------

  /** Carries no drift annotation, like every view read from a Job. */
  predicate Bare(r: Record) { r.expected.None? && r.drift.None? }

  ghost predicate AllBare(s: seq<Record>) { forall i :: 0 <= i < |s| ==> Bare(s[i]) }

  /** No view starts before the record its name has by then. */
  ghost predicate NoStepBack(m: Log, s: seq<Record>)
    decreases |s|
  {
    s == [] ||
    var before, r := Absorb(m, s[..|s| - 1]), s[|s| - 1];
    NoStepBack(m, s[..|s| - 1]) && (r.jobName in before ==> before[r.jobName].start <= r.start)
  }

  lemma LaterViewSetsStart(prev: Record, r: Record)
    requires prev.start <= r.start
    ensures Survivor(prev, r).start == r.start
  {}

  /** Views that never step back set the start of their name, in the log and in anything behind it. */
  lemma {:induction false} StartFollows(a: Log, m: Log, s: seq<Record>, n: string)
    requires NoStepBack(m, s) && (n in a ==> n in m && a[n].start <= m[n].start)
    ensures n in m ==> m[n].start <= Absorb(m, s)[n].start
    ensures n in Absorb(a, s) ==> n in Absorb(m, s) && Absorb(a, s)[n].start <= Absorb(m, s)[n].start
    ensures n in NamesOf(s) ==> Absorb(a, s)[n].start == Absorb(m, s)[n].start
    decreases |s|
  {
    if s != [] {
      var front, r := s[..|s| - 1], s[|s| - 1];
      StartFollows(a, m, front, n);
      if r.jobName == n {
        if n in Absorb(a, front) { LaterViewSetsStart(Absorb(a, front)[n], r); }
        if n in Absorb(m, front) { LaterViewSetsStart(Absorb(m, front)[n], r); }
      }
    }
  }

  type StartFn = string -> int

  ghost predicate StartsBy(s: seq<Record>, startOf: StartFn) {
    forall i :: 0 <= i < |s| ==> s[i].start == startOf(s[i].jobName)
  }

  ghost predicate LogStartsBy(m: Log, startOf: StartFn) {
    forall n :: n in m ==> m[n].start == startOf(n)
  }

  /** With one start time per name no view steps back. */
  lemma {:induction false} OneStartNeverStepsBack(m: Log, s: seq<Record>, startOf: StartFn)
    requires ByName(m) && LogStartsBy(m, startOf) && StartsBy(s, startOf)
    ensures LogStartsBy(Absorb(m, s), startOf) && NoStepBack(m, s)
    decreases |s|
  {
    if s != [] {
      var last := s[|s| - 1];
      assert last.start == startOf(last.jobName);
      OneStartNeverStepsBack(m, s[..|s| - 1], startOf);
    }
  }

  // ---------- Names ----------

  lemma {:induction false} NamesCount(s: seq<Record>)
    requires DistinctNames(s)
    ensures |NamesOf(s)| == |s|
    decreases |s|
  {
    if s != [] { NamesCount(s[..|s| - 1]); }
  }

  lemma SameSizeOther(a: set<string>, b: set<string>, x: string) returns (y: string)
    requires |a| == |b| && x in a && x !in b
    ensures y in b && y !in a
  {
    if b <= a {
      assert b <= a - {x};
      CardLe(b, a - {x});
      assert false;
    }
    y :| y in b && y !in a;
  }

  lemma {:induction false} CardLe(a: set<string>, b: set<string>)
    requires a <= b
    ensures |a| <= |b|
    decreases |a|
  {
    if a != {} {
      var x :| x in a;
      CardLe(a - {x}, b - {x});
    }
  }

  // ---------- Rings and names ----------

  lemma TopHasDistinctNames(s: seq<Record>, m: Log, k: nat)
    requires IsTop(s, m, k)
    ensures DistinctNames(s) && |NamesOf(s)| == |s|
  {
    forall i, j | 0 <= i < j < |s| ensures s[i].jobName != s[j].jobName {
      NewerTotal(s[i], s[j]);
      assert Newer(s[i], s[j]);
    }
    NamesCount(s);
  }

  /** The entry of a name in a ring is its entry in the log. */
  lemma TopNameEntry(s: seq<Record>, m: Log, k: nat, n: string)
    requires ByName(m) && IsTop(s, m, k)
    ensures n in NamesOf(s) <==> n in m && m[n] in s
  {
    if n in m && m[n] in s {
      var i :| 0 <= i < |s| && s[i] == m[n];
      assert s[i].jobName in NamesOf(s);
    }
  }

  lemma {:induction false} LoadLast(s: seq<Record>, n: string)
    requires n in NamesOf(s)
    ensures Load(s)[n] in s
    decreases |s|
  {
    if s[|s| - 1].jobName != n { LoadLast(s[..|s| - 1], n); }
  }

  /** Loading a ring gives back the entries of its log. */
  lemma LoadTop(s: seq<Record>, m: Log, k: nat, n: string)
    requires ByName(m) && IsTop(s, m, k) && n in NamesOf(s)
    ensures n in m && Load(s)[n] == m[n]
  {
    LoadLast(s, n);
    var i :| 0 <= i < |s| && s[i] == Load(s)[n];
    assert s[i].jobName == n;
  }

  // ---------- One merge ----------

  /** No view of `n` is later than its record, or neither the record nor any view of it is annotated. */
  ghost predicate CarriesNothing(m: Log, batch: seq<Record>, n: string)
    requires n in m
  {
    || (forall i :: 0 <= i < |batch| && batch[i].jobName == n ==> batch[i].start <= m[n].start)
    || (Bare(m[n]) && forall i :: 0 <= i < |batch| && batch[i].jobName == n ==> Bare(batch[i]))
  }

  /** The entries of `n` are the same, or both have stayed at or behind `c`. */
  ghost predicate Tied(a: Log, b: Log, n: string, c: int) {
    && n in b
    && (if n in a then a[n] == b[n] || (a[n].start <= c && b[n].start <= c) else b[n].start <= c)
  }

  /** Survivors of views that do not start after `c` do not either. */
  lemma {:induction false} StaysBehind(m: Log, s: seq<Record>, n: string, c: int)
    requires forall i :: 0 <= i < |s| && s[i].jobName == n ==> s[i].start <= c
    requires n in m ==> m[n].start <= c
    ensures n in Absorb(m, s) ==> Absorb(m, s)[n].start <= c
    decreases |s|
  {
    if s != [] { StaysBehind(m, s[..|s| - 1], n, c); }
  }

  lemma {:induction false} StaysBare(m: Log, s: seq<Record>, n: string)
    requires forall i :: 0 <= i < |s| && s[i].jobName == n ==> Bare(s[i])
    requires n in m ==> Bare(m[n])
    ensures n in Absorb(m, s) ==> Bare(Absorb(m, s)[n])
    decreases |s|
  {
    if s != [] { StaysBare(m, s[..|s| - 1], n); }
  }

  /** One more view keeps two bare entries tied: a start after `c` makes it the survivor of both. */
  lemma TiedView(a: Log, b: Log, r: Record, c: int)
    requires Tied(a, b, r.jobName, c) && Bare(r) && Bare(b[r.jobName]) && (r.jobName in a ==> Bare(a[r.jobName]))
    ensures Tied(AbsorbOne(a, r), AbsorbOne(b, r), r.jobName, c)
  {}

  lemma {:induction false} BareIsTied(a: Log, m: Log, s: seq<Record>, n: string)
    requires n in m && n !in a && Bare(m[n])
    requires forall i :: 0 <= i < |s| && s[i].jobName == n ==> Bare(s[i])
    ensures Tied(Absorb(a, s), Absorb(m, s), n, m[n].start)
    decreases |s|
  {
    if s != [] {
      var front, r := s[..|s| - 1], s[|s| - 1];
      BareIsTied(a, m, front, n);
      if r.jobName == n {
        StaysBare(a, front, n);
        StaysBare(m, front, n);
        TiedView(Absorb(a, front), Absorb(m, front), r, m[n].start);
      }
    }
  }

  /** A record the ring has dropped comes back as the log has it, or else no newer than it was dropped. */
  lemma DroppedIsTied(a: Log, m: Log, batch: seq<Record>, n: string)
    requires n in m && n !in a && CarriesNothing(m, batch, n)
    ensures Tied(Absorb(a, batch), Absorb(m, batch), n, m[n].start)
  {
    if forall i :: 0 <= i < |batch| && batch[i].jobName == n ==> batch[i].start <= m[n].start {
      StaysBehind(a, batch, n, m[n].start);
      StaysBehind(m, batch, n, m[n].start);
    } else {
      BareIsTied(a, m, batch, n);
    }
  }

  /**
  What ties a ring `s` of the log `m` to the log, before truncation: kept names have the same entry,
  not older than before; new names have the same entry; dropped names are tied.
  */
  ghost predicate Bridge(s: seq<Record>, m: Log, small: Log, big: Log) {
    && ByName(small) && ByName(big)
    && big.Keys == m.Keys + small.Keys && NamesOf(s) <= m.Keys && NamesOf(s) <= small.Keys
    && (forall n :: n in NamesOf(s) ==> small[n] == big[n] && m[n].start <= small[n].start)
    && (forall n :: n in small && n !in m ==> small[n] == big[n])
    && (forall n :: n in m && n !in NamesOf(s) ==> Tied(small, big, n, m[n].start))
  }

  /** A kept record outranks everything that is no newer than a dropped one. */
  lemma KeptBeatsDropped(s: seq<Record>, m: Log, k: nat, small: Log, big: Log, q: string, n: string, x: Record)
    requires ByName(m) && IsTop(s, m, k) && Bridge(s, m, small, big)
    requires q in NamesOf(s) && n in m && n !in NamesOf(s) && x.jobName == n && x.start <= m[n].start
    ensures Newer(small[q], x)
  {
    TopNameEntry(s, m, k, n);
    TopNameEntry(s, m, k, q);
    var i :| 0 <= i < |s| && s[i] == m[q];
    assert Newer(s[i], m[n]);
  }

  lemma FullRing(s: seq<Record>, m: Log, k: nat, n: string)
    requires ByName(m) && IsTop(s, m, k) && n in m && n !in NamesOf(s)
    ensures |s| == k < |m| && |NamesOf(s)| == k
  {
    TopHasDistinctNames(s, m, k);
    forall x | x in NamesOf(s) ensures x in m { TopNameEntry(s, m, k, x); }
    CardLe(NamesOf(s), m.Keys - {n});
  }

  /** If a new ring lists a name the full old one did not, then some kept name has been pushed out. */
  lemma PushedOut(s: seq<Record>, m: Log, k: nat, small: Log, big: Log, out: seq<Record>, x: string) returns (q: string)
    requires ByName(m) && IsTop(s, m, k) && Bridge(s, m, small, big) && IsTop(out, small, k)
    requires |NamesOf(s)| == k && x in NamesOf(out) && x !in NamesOf(s)
    ensures q in NamesOf(s) && forall i :: 0 <= i < |out| ==> Newer(out[i], small[q])
  {
    TopHasDistinctNames(out, small, k);
    CardLe(NamesOf(s), small.Keys);
    q := SameSizeOther(NamesOf(out), NamesOf(s), x);
    TopNameEntry(out, small, k, q);
  }

  lemma BackIsOut(s: seq<Record>, m: Log, k: nat, small: Log, big: Log, out: seq<Record>, n: string)
    requires ByName(m) && IsTop(s, m, k) && Bridge(s, m, small, big) && IsTop(out, small, k)
    requires n in m && n !in NamesOf(s) && n in small && small[n].start <= m[n].start
    ensures n !in NamesOf(out)
  {
    if n in NamesOf(out) {
      FullRing(s, m, k, n);
      var q := PushedOut(s, m, k, small, big, out, n);
      KeptBeatsDropped(s, m, k, small, big, q, n, small[n]);
      NewerTotal(small[q], small[n]);
    }
  }

  lemma OutIsFromLog(s: seq<Record>, m: Log, k: nat, small: Log, big: Log, out: seq<Record>, i: nat)
    requires ByName(m) && IsTop(s, m, k) && Bridge(s, m, small, big) && IsTop(out, small, k) && i < |out|
    ensures out[i].jobName in big && big[out[i].jobName] == out[i]
  {
    var n := out[i].jobName;
    if n in m && n !in NamesOf(s) && small[n] != big[n] { BackIsOut(s, m, k, small, big, out, n); }
  }

  lemma OutBeatsRest(s: seq<Record>, m: Log, k: nat, small: Log, big: Log, out: seq<Record>, n: string, i: nat)
    requires ByName(m) && IsTop(s, m, k) && Bridge(s, m, small, big) && IsTop(out, small, k)
    requires n in big && big[n] !in out && i < |out|
    ensures Newer(out[i], big[n])
  {
    if !(n in small && small[n] == big[n]) {
      var x := out[i].jobName;
      if x in NamesOf(s) {
        KeptBeatsDropped(s, m, k, small, big, x, n, big[n]);
      } else {
        FullRing(s, m, k, n);
        var q := PushedOut(s, m, k, small, big, out, x);
        KeptBeatsDropped(s, m, k, small, big, q, n, big[n]);
        NewerTransitive(out[i], small[q], big[n]);
      }
    }
  }

  lemma OutSize(s: seq<Record>, m: Log, k: nat, small: Log, big: Log)
    requires ByName(m) && IsTop(s, m, k) && Bridge(s, m, small, big)
    ensures (if k < |small| then k else |small|) == (if k < |big| then k else |big|)
  {
    if n :| n in m && n !in NamesOf(s) {
      FullRing(s, m, k, n);
      CardLe(NamesOf(s), small.Keys);
      CardLe(NamesOf(s), big.Keys);
    } else {
      assert big.Keys == small.Keys;
    }
  }

  lemma BridgedTop(s: seq<Record>, m: Log, k: nat, small: Log, big: Log, out: seq<Record>)
    requires ByName(m) && IsTop(s, m, k) && Bridge(s, m, small, big) && IsTop(out, small, k)
    ensures IsTop(out, big, k)
  {
    OutSize(s, m, k, small, big);
    forall i | 0 <= i < |out| ensures out[i].jobName in big && big[out[i].jobName] == out[i] {
      OutIsFromLog(s, m, k, small, big, out, i);
    }
    forall n, i | n in big && big[n] !in out && 0 <= i < |out| ensures Newer(out[i], big[n]) {
      OutBeatsRest(s, m, k, small, big, out, n, i);
    }
  }

  /** No kept record moves back over the batch, and no dropped one gets a carried annotation with a later start. */
  ghost predicate KeepsRank(s: seq<Record>, m: Log, batch: seq<Record>) {
    forall n :: n in m ==>
      if n in NamesOf(s) then m[n].start <= Absorb(m, batch)[n].start else CarriesNothing(m, batch, n)
  }

  lemma KeptEntry(s: seq<Record>, m: Log, batch: seq<Record>, k: nat, n: string)
    requires ByName(m) && IsTop(s, m, k) && n in NamesOf(s)
    ensures n in m && Absorb(Load(s), batch)[n] == Absorb(m, batch)[n]
  {
    LoadTop(s, m, k, n);
    AbsorbIsLocal(Load(s), m, batch, n);
  }

  lemma NewEntry(s: seq<Record>, m: Log, batch: seq<Record>, k: nat, n: string)
    requires ByName(m) && IsTop(s, m, k) && n !in m && n in Absorb(Load(s), batch)
    ensures n in Absorb(m, batch) && Absorb(Load(s), batch)[n] == Absorb(m, batch)[n]
  {
    TopNameEntry(s, m, k, n);
    AbsorbIsLocal(Load(s), m, batch, n);
  }

  lemma BridgeKeys(s: seq<Record>, m: Log, batch: seq<Record>, k: nat)
    requires ByName(m) && IsTop(s, m, k)
    ensures Absorb(m, batch).Keys == m.Keys + Absorb(Load(s), batch).Keys
    ensures NamesOf(s) <= m.Keys && NamesOf(s) <= Absorb(Load(s), batch).Keys
  {
    forall n | n in NamesOf(s) ensures n in m { TopNameEntry(s, m, k, n); }
  }

  lemma MergeBridges(s: seq<Record>, m: Log, batch: seq<Record>, k: nat)
    requires ByName(m) && IsTop(s, m, k) && KeepsRank(s, m, batch)
    ensures Bridge(s, m, Absorb(Load(s), batch), Absorb(m, batch))
  {
    var small, big := Absorb(Load(s), batch), Absorb(m, batch);
    BridgeKeys(s, m, batch, k);
    forall n | n in NamesOf(s) ensures small[n] == big[n] { KeptEntry(s, m, batch, k, n); }
    forall n | n in small && n !in m ensures small[n] == big[n] { NewEntry(s, m, batch, k, n); }
    forall n | n in m && n !in NamesOf(s) ensures Tied(small, big, n, m[n].start) {
      DroppedIsTied(Load(s), m, batch, n);
    }
  }

  /** One truncated merge is the front of one merge that keeps everything. */
  lemma MergeStep(s: seq<Record>, m: Log, batch: seq<Record>, k: nat)
    requires ByName(m) && s == Take(Ordered(m), k) && KeepsRank(s, m, batch)
    ensures Merged(s, batch, k) == Take(Ordered(Absorb(m, batch)), k)
  {
    var small, big := Absorb(Load(s), batch), Absorb(m, batch);
    var out := Take(Ordered(small), k);
    TakeIsTop(m, k);
    TakeIsTop(small, k);
    MergeBridges(s, m, batch, k);
    BridgedTop(s, m, k, small, big, out);
    TopIsUnique(out, big, k);
  }

  // ---------- When one view breaks the refinement ----------

  /** Some record the ring has dropped is newer than `x`. */
  ghost predicate FallsBehind(s: seq<Record>, m: Log, x: Record) {
    exists q :: q in m && q !in NamesOf(s) && Newer(m[q], x)
  }

  /** The loaded ring and the log after the record of a kept name `n` became `x`. */
  ghost predicate Replaced(s: seq<Record>, m: Log, small: Log, big: Log, n: string, x: Record) {
    && ByName(small) && ByName(big) && NamesOf(s) <= m.Keys
    && small.Keys == NamesOf(s) && big.Keys == m.Keys && n in small && small[n] == big[n] == x
    && (forall q :: q in m && q != n ==> big[q] == m[q])
    && (forall q :: q in small && q != n ==> small[q] == m[q])
  }

  lemma LoadedEntries(s: seq<Record>, m: Log, k: nat)
    requires ByName(m) && IsTop(s, m, k)
    ensures NamesOf(s) <= m.Keys && forall q :: q in NamesOf(s) ==> Load(s)[q] == m[q]
  {
    forall q | q in NamesOf(s) ensures q in m && Load(s)[q] == m[q] { LoadTop(s, m, k, q); }
  }

  lemma ReplaceEntry(s: seq<Record>, m: Log, loaded: Log, n: string, x: Record)
    requires ByName(m) && ByName(loaded) && loaded.Keys == NamesOf(s) <= m.Keys && n in loaded && x.jobName == n
    requires forall q :: q in NamesOf(s) ==> loaded[q] == m[q]
    ensures Replaced(s, m, loaded[n := x], m[n := x], n, x)
  {}

  lemma KeptView(s: seq<Record>, m: Log, k: nat, r: Record)
    requires ByName(m) && IsTop(s, m, k) && r.jobName in NamesOf(s)
    ensures r.jobName in m
    ensures Replaced(s, m, Absorb(Load(s), [r]), Absorb(m, [r]), r.jobName, Survivor(m[r.jobName], r))
  {
    LoadedEntries(s, m, k);
    ReplaceEntry(s, m, Load(s), r.jobName, Survivor(m[r.jobName], r));
    SingleLogs(m, r);
    SingleLogs(Load(s), r);
  }

  /** A ring whose log fits lists all of it. */
  lemma WholeLog(small: Log, k: nat, out: seq<Record>)
    requires ByName(small) && IsTop(out, small, k) && |small| <= k
    ensures NamesOf(out) == small.Keys
  {
    forall n ensures n in NamesOf(out) <==> n in small {
      TopNameEntry(out, small, k, n);
      if n in small && n !in NamesOf(out) { FullRing(out, small, k, n); }
    }
  }

  lemma ReplacedFits(s: seq<Record>, m: Log, k: nat, small: Log, out: seq<Record>)
    requires ByName(m) && IsTop(s, m, k) && ByName(small) && small.Keys == NamesOf(s) && IsTop(out, small, k)
    ensures |out| == |s| && NamesOf(out) == NamesOf(s)
  {
    TopHasDistinctNames(s, m, k);
    assert |small| == |small.Keys|;
    WholeLog(small, k, out);
  }

  lemma BehindBreaks(s: seq<Record>, m: Log, k: nat, small: Log, big: Log, n: string, x: Record, out: seq<Record>)
    requires ByName(m) && IsTop(s, m, k) && Replaced(s, m, small, big, n, x)
    requires IsTop(out, small, k) && IsTop(out, big, k)
    ensures !FallsBehind(s, m, x)
  {
    if q :| q in m && q !in NamesOf(s) && Newer(m[q], x) {
      ReplacedFits(s, m, k, small, out);
      TopNameEntry(out, small, k, n);
      TopNameEntry(out, big, k, q);
      NewerTotal(x, m[q]);
    }
  }

  lemma AheadBeats(s: seq<Record>, m: Log, k: nat, small: Log, big: Log, n: string, x: Record, q: string, y: Record)
    requires ByName(m) && IsTop(s, m, k) && Replaced(s, m, small, big, n, x) && !FallsBehind(s, m, x)
    requires q in m && q !in NamesOf(s) && y.jobName in small && small[y.jobName] == y
    ensures Newer(y, m[q])
  {
    if y.jobName == n {
      NewerTotal(x, m[q]);
    } else {
      TopNameEntry(s, m, k, y.jobName);
      TopNameEntry(s, m, k, q);
      var j :| 0 <= j < |s| && s[j] == y;
    }
  }

  lemma AheadKeeps(s: seq<Record>, m: Log, k: nat, small: Log, big: Log, n: string, x: Record, out: seq<Record>)
    requires ByName(m) && IsTop(s, m, k) && Replaced(s, m, small, big, n, x) && !FallsBehind(s, m, x)
    requires IsTop(out, small, k)
    ensures IsTop(out, big, k)
  {
    ReplacedFits(s, m, k, small, out);
    assert |big| == |big.Keys| == |m.Keys| == |m|;
    forall q, i | q in big && big[q] !in out && 0 <= i < |out| ensures Newer(out[i], big[q]) {
      RestIsDropped(s, m, k, small, big, n, x, out, q);
      AheadBeats(s, m, k, small, big, n, x, q, out[i]);
    }
  }

  lemma RestIsDropped(s: seq<Record>, m: Log, k: nat, small: Log, big: Log, n: string, x: Record,
                      out: seq<Record>, q: string)
    requires ByName(m) && IsTop(s, m, k) && Replaced(s, m, small, big, n, x)
    requires IsTop(out, small, k) && NamesOf(out) == NamesOf(s) && q in big && big[q] !in out
    ensures q in m && q !in NamesOf(s) && big[q] == m[q]
  {
    TopNameEntry(out, small, k, q);
  }

  /**
  One unannotated view breaks the refinement exactly when the ring keeps its name and the survivor
  falls behind a record that the ring has dropped. A view of any other name never does.
  */
  lemma OneViewExactly(s: seq<Record>, m: Log, r: Record, k: nat)
    requires ByName(m) && s == Take(Ordered(m), k) && Bare(r) && (r.jobName in m ==> Bare(m[r.jobName]))
    ensures r.jobName in NamesOf(s) ==> r.jobName in m
    ensures Merged(s, [r], k) != Take(Ordered(Absorb(m, [r])), k) <==>
              r.jobName in NamesOf(s) && FallsBehind(s, m, Survivor(m[r.jobName], r))
  {
    TakeIsTop(m, k);
    if r.jobName in NamesOf(s) {
      KeptView(s, m, k, r);
      KeptViewExactly(s, m, r, k);
    } else {
      OtherViewKeepsRank(s, m, r);
      MergeStep(s, m, [r], k);
    }
  }

  lemma KeptViewExactly(s: seq<Record>, m: Log, r: Record, k: nat)
    requires ByName(m) && IsTop(s, m, k) && r.jobName in NamesOf(s) && r.jobName in m
    requires Replaced(s, m, Absorb(Load(s), [r]), Absorb(m, [r]), r.jobName, Survivor(m[r.jobName], r))
    ensures Merged(s, [r], k) != Take(Ordered(Absorb(m, [r])), k) <==> FallsBehind(s, m, Survivor(m[r.jobName], r))
  {
    var small, big := Absorb(Load(s), [r]), Absorb(m, [r]);
    var out, x := Take(Ordered(small), k), Survivor(m[r.jobName], r);
    TakeIsTop(small, k);
    TakeIsTop(big, k);
    if FallsBehind(s, m, x) {
      if out == Take(Ordered(big), k) { BehindBreaks(s, m, k, small, big, r.jobName, x, out); }
    } else {
      AheadKeeps(s, m, k, small, big, r.jobName, x, out);
      TopIsUnique(out, big, k);
    }
  }

  lemma OtherViewKeepsRank(s: seq<Record>, m: Log, r: Record)
    requires r.jobName !in NamesOf(s) && Bare(r) && (r.jobName in m ==> Bare(m[r.jobName]))
    ensures KeepsRank(s, m, [r])
  {
    SingleLogs(m, r);
  }

  // ---------- Any sequence of merges ----------

  /** No record of the log moves back over the batch, and none gets a carried annotation with a later start. */
  ghost predicate Settled(m: Log, batch: seq<Record>) {
    forall n :: n in m ==> m[n].start <= Absorb(m, batch)[n].start && CarriesNothing(m, batch, n)
  }

  /** No batch moves a record of the log back. */
  ghost predicate Orderly(batches: seq<seq<Record>>) {
    forall b :: 0 <= b < |batches| ==> Settled(LogOf(batches[..b]), batches[b])
  }

  /**
  The bounded ring refines the unbounded log: any sequence of merges leaves exactly the newest
  `limit` records of the same sequence merged without truncation. Names may be reused by later runs.
  */
  lemma {:induction false} RingRefinesLog(batches: seq<seq<Record>>, limit: int)
    requires Orderly(batches)
    ensures RingOf(batches, limit) == Take(Ordered(LogOf(batches)), limit)
    decreases |batches|
  {
    if batches != [] && 0 < limit {
      var n := |batches| - 1;
      OrderlyFront(batches);
      RingRefinesLog(batches[..n], limit);
      MergeStep(RingOf(batches[..n], limit), LogOf(batches[..n]), batches[n], limit);
    }
  }

  lemma OrderlyFront(batches: seq<seq<Record>>)
    requires Orderly(batches) && batches != []
    ensures Orderly(batches[..|batches| - 1])
  {
    var front := batches[..|batches| - 1];
    forall b | 0 <= b < |front| ensures Settled(LogOf(front[..b]), front[b]) {
      assert front[..b] == batches[..b] && front[b] == batches[b];
    }
  }

  /** Every report of a Job name carries the start time `startOf` gives it. */
  ghost predicate OneStart(batches: seq<seq<Record>>, startOf: StartFn) {
    forall b :: 0 <= b < |batches| ==> StartsBy(batches[b], startOf)
  }

  lemma {:induction false} LogKeepsStarts(batches: seq<seq<Record>>, startOf: StartFn)
    requires OneStart(batches, startOf)
    ensures LogStartsBy(LogOf(batches), startOf)
    decreases |batches|
  {
    if batches != [] {
      var n := |batches| - 1;
      LogKeepsStarts(batches[..n], startOf);
      OneStartNeverStepsBack(LogOf(batches[..n]), batches[n], startOf);
    }
  }

  /** One start time per name is orderly, whatever the annotations. */
  lemma OneStartIsOrderly(batches: seq<seq<Record>>, startOf: StartFn)
    requires OneStart(batches, startOf)
    ensures Orderly(batches)
  {
    forall b | 0 <= b < |batches| ensures Settled(LogOf(batches[..b]), batches[b]) {
      var m := LogOf(batches[..b]);
      LogKeepsStarts(batches[..b], startOf);
      OneStartNeverStepsBack(m, batches[b], startOf);
      forall n | n in m ensures m[n].start <= Absorb(m, batches[b])[n].start { StartFollows(m, m, batches[b], n); }
    }
  }

  /** No view ever starts before the log's record of its name. */
  ghost predicate NeverBack(batches: seq<seq<Record>>) {
    forall b :: 0 <= b < |batches| ==> NoStepBack(LogOf(batches[..b]), batches[b])
  }

  lemma {:induction false} LogStaysBare(batches: seq<seq<Record>>, n: string)
    requires (forall b :: 0 <= b < |batches| ==> AllBare(batches[b])) && n in LogOf(batches)
    ensures Bare(LogOf(batches)[n])
    decreases |batches|
  {
    if batches != [] {
      var last := |batches| - 1;
      var m := LogOf(batches[..last]);
      if n in m { LogStaysBare(batches[..last], n); }
      StaysBare(m, batches[last], n);
    }
  }

  /** Views read from Jobs are orderly unless one starts before the record of its name. */
  lemma NeverBackIsOrderly(batches: seq<seq<Record>>)
    requires NeverBack(batches) && forall b :: 0 <= b < |batches| ==> AllBare(batches[b])
    ensures Orderly(batches)
  {
    forall b | 0 <= b < |batches| ensures Settled(LogOf(batches[..b]), batches[b]) {
      var m := LogOf(batches[..b]);
      forall n | n in m ensures m[n].start <= Absorb(m, batches[b])[n].start && CarriesNothing(m, batches[b], n) {
        StartFollows(m, m, batches[b], n);
        LogStaysBare(batches[..b], n);
      }
    }
  }

  /** Hence a longer ring over the same merges extends a shorter one. */
  lemma LongerRingExtends(batches: seq<seq<Record>>, limit: int, more: int)
    requires Orderly(batches) && limit <= more
    ensures RingOf(batches, limit) == Take(RingOf(batches, more), limit)
  {
    var o := Ordered(LogOf(batches));
    TakeTake(o, limit, more);
    assert RingOf(batches, limit) == Take(o, limit) by { RingRefinesLog(batches, limit); }
    assert RingOf(batches, more) == Take(o, more) by { RingRefinesLog(batches, more); }
  }

  lemma TakeTake(s: seq<Record>, a: int, b: int)
    requires a <= b
    ensures Take(Take(s, b), a) == Take(s, a)
  {
    if 0 < a < |s| && b < |s| { assert s[..b][..a] == s[..a]; }
  }

  // ---------- The start latch ----------

  /** The `LastScheduleTime` latch: it only ever moves forward over the starts it is shown. */
  function LatchStart(last: Option<int>, s: seq<Record>): Option<int> {
    if s == [] then last else
    var before := LatchStart(last, s[..|s| - 1]);
    var start := s[|s| - 1].start;
    if before.None? || start > before.value then Some(start) else before
  }

  /** The start of the newest record of a log. */
  ghost function NewestStart(m: Log): Option<int>
    requires ByName(m)
  {
    if m == map[] then None else Some(Newest(m).start)
  }

  function Later(a: Option<int>, b: Option<int>): Option<int> {
    if a.None? then b else if b.None? || b.value <= a.value then a else b
  }

  function FrontStart(s: seq<Record>): Option<int> { if s == [] then None else Some(s[0].start) }

  /** Over a newest-first ring only the front record can move the latch. */
  lemma {:induction false} LatchSeesFront(last: Option<int>, s: seq<Record>)
    requires NewestFirst(s)
    ensures LatchStart(last, s) == Later(last, FrontStart(s))
    decreases |s|
  {
    if s != [] {
      LatchSeesFront(last, s[..|s| - 1]);
      if 1 < |s| { assert Newer(s[0], s[|s| - 1]); }
    }
  }

  // ---------- Records that move back ----------

  lemma SingleLogs(m: Log, r: Record)
    ensures Load([r]) == map[r.jobName := r] && Absorb(m, [r]) == AbsorbOne(m, r)
  {
    assert [r][..0] == [];
  }

  lemma TopOne(m: Log, r: Record)
    requires ByName(m) && IsNewest(m, r)
    ensures Take(Ordered(m), 1) == [r]
  {
    var w := Newest(m);
    NewerTotal(w, r);
    TakeStep(m);
  }

  lemma TakeStep(m: Log)
    requires ByName(m) && m != map[]
    ensures Take(Ordered(m), 1) == [Newest(m)]
  {}

  /**
  The hypothesis is needed. A Job first seen Running with its creation time, and later finished with
  an earlier real start, falls behind a record that the ring has already dropped.
  */
  lemma MovingStartBreaksRefinement(a: Record, b: Record, b': Record, m: Log)
    requires a.jobName != b.jobName == b'.jobName && m == map[a.jobName := a, b.jobName := b]
    requires !IsTerminal(b.phase) && IsTerminal(b'.phase) && b'.start < a.start < b.start
    ensures ByName(m) && Take(Ordered(m), 1) == [b]
    ensures Merged([b], [b'], 1) == [Survivor(b, b')]
    ensures Take(Ordered(Absorb(m, [b'])), 1) == [a]
  {
    assert ByName(m) && Take(Ordered(m), 1) == [b] by { NewestOfTwo(b, a); }
    assert Merged([b], [b'], 1) == [Survivor(b, b')] by { RingOfOne(b, b'); }
    assert Take(Ordered(Absorb(m, [b'])), 1) == [a] by { LogFallsBehind(a, b, b', m); }
  }

  lemma LogFallsBehind(a: Record, b: Record, b': Record, m: Log)
    requires a.jobName != b.jobName == b'.jobName && m == map[a.jobName := a, b.jobName := b]
    requires !IsTerminal(b.phase) && IsTerminal(b'.phase) && b'.start < a.start
    ensures ByName(m) && Take(Ordered(Absorb(m, [b'])), 1) == [a]
  {
    var m' := Absorb(m, [b']);
    NewestAfterView(a, b, b', m);
    TopOne(m', a);
  }

  lemma NewestAfterView(a: Record, b: Record, b': Record, m: Log)
    requires a.jobName != b.jobName == b'.jobName && m == map[a.jobName := a, b.jobName := b]
    requires !IsTerminal(b.phase) && IsTerminal(b'.phase) && b'.start < a.start
    ensures IsNewest(Absorb(m, [b']), a)
  {
    SingleLogs(m, b');
  }

  lemma NewestOfTwo(a: Record, b: Record)
    requires a.jobName != b.jobName && b.start < a.start
    ensures var m: Log := map[a.jobName := a, b.jobName := b];
            ByName(m) && Take(Ordered(m), 1) == [a] && map[b.jobName := b, a.jobName := a] == m
  {
    TopOne(map[a.jobName := a, b.jobName := b], a);
  }

  lemma RingOfOne(b: Record, b': Record)
    requires b.jobName == b'.jobName
    ensures Merged([b], [b'], 1) == [Survivor(b, b')]
  {
    var m: Log := map[b.jobName := Survivor(b, b')];
    assert Absorb(Load([b]), [b']) == m by {
      SingleLogs(map[], b);
      SingleLogs(Load([b]), b');
    }
    TopOne(m, Survivor(b, b'));
  }

  // ---------- Idempotence ----------

  /** What absorbing a batch of distinct names does to one of them. */
  lemma {:induction false} AbsorbDistinct(m: Log, s: seq<Record>, i: nat)
    requires DistinctNames(s) && i < |s|
    ensures s[i].jobName in Absorb(m, s) && Absorb(m, s)[s[i].jobName] == FirstSeen(m, s[i])
    decreases |s|
  {
    var front, last := s[..|s| - 1], s[|s| - 1];
    AbsorbLast(m, s);
    LastIsNew(s);
    if i < |front| {
      AbsorbDistinct(m, front, i);
    } else {
      NotNamed(m, front, last.jobName);
    }
  }

  lemma LastIsNew(s: seq<Record>)
    requires DistinctNames(s) && s != []
    ensures DistinctNames(s[..|s| - 1]) && s[|s| - 1].jobName !in NamesOf(s[..|s| - 1])
  {}

  /** The entry of a name after one view of it. */
  function FirstSeen(m: Log, r: Record): Record {
    if r.jobName in m then Survivor(m[r.jobName], r) else r
  }

  lemma AbsorbLast(m: Log, s: seq<Record>)
    requires s != []
    ensures Absorb(m, s) == AbsorbOne(Absorb(m, s[..|s| - 1]), s[|s| - 1])
  {}

  lemma {:induction false} NotNamed(m: Log, s: seq<Record>, n: string)
    requires n !in NamesOf(s)
    ensures AgreeOn(Absorb(m, s), m, n)
    decreases |s|
  {
    if s != [] { NotNamed(m, s[..|s| - 1], n); }
  }

  /** A view that has been merged once neither replaces nor outranks the survivor. */
  lemma SurvivorIsStable(prev: Record, r: Record)
    ensures Survivor(Survivor(prev, r), r) == Survivor(prev, r)
    ensures Survivor(r, r) == r
    ensures r.start <= Survivor(prev, r).start
  {}

  lemma MergedAgain(out: seq<Record>, m: Log, base: Log, batch: seq<Record>, k: nat, n: string)
    requires ByName(base) && DistinctNames(batch) && m == Absorb(base, batch) && IsTop(out, m, k)
    requires n in NamesOf(out)
    ensures n in m && Absorb(Load(out), batch)[n] == m[n]
  {
    LoadTop(out, m, k, n);
    if n in NamesOf(batch) {
      var i :| 0 <= i < |batch| && batch[i].jobName == n;
      AbsorbDistinct(base, batch, i);
      AbsorbDistinct(Load(out), batch, i);
      if n in base { SurvivorIsStable(base[n], batch[i]); } else { SurvivorIsStable(batch[i], batch[i]); }
    } else {
      NotNamed(Load(out), batch, n);
    }
  }

  /** A dropped name comes back no newer than it was. */
  lemma DroppedStaysBehind(out: seq<Record>, m: Log, base: Log, batch: seq<Record>, k: nat, n: string, i: nat)
    requires ByName(base) && DistinctNames(batch) && m == Absorb(base, batch) && IsTop(out, m, k)
    requires n in NamesOf(batch) && n !in NamesOf(out) && i < |out|
    ensures Newer(out[i], Absorb(Load(out), batch)[n])
  {
    var j :| 0 <= j < |batch| && batch[j].jobName == n;
    AbsorbDistinct(base, batch, j);
    AbsorbDistinct(Load(out), batch, j);
    TopNameEntry(out, m, k, n);
    if n in base { SurvivorIsStable(base[n], batch[j]); }
    assert Newer(out[i], m[n]);
  }

  lemma IdempotentEntries(out: seq<Record>, m: Log, base: Log, batch: seq<Record>, k: nat)
    requires ByName(base) && DistinctNames(batch) && m == Absorb(base, batch) && IsTop(out, m, k)
    ensures var again := Absorb(Load(out), batch);
            forall i :: 0 <= i < |out| ==> out[i].jobName in again && again[out[i].jobName] == out[i]
  {
    var again := Absorb(Load(out), batch);
    forall i | 0 <= i < |out| ensures out[i].jobName in again && again[out[i].jobName] == out[i] {
      MergedAgain(out, m, base, batch, k, out[i].jobName);
    }
  }

  lemma IdempotentRest(out: seq<Record>, m: Log, base: Log, batch: seq<Record>, k: nat, n: string, i: nat)
    requires ByName(base) && DistinctNames(batch) && m == Absorb(base, batch) && IsTop(out, m, k)
    requires n in Absorb(Load(out), batch) && i < |out|
    ensures Absorb(Load(out), batch)[n] in out || Newer(out[i], Absorb(Load(out), batch)[n])
  {
    if n in NamesOf(out) {
      MergedAgain(out, m, base, batch, k, n);
      TopNameEntry(out, m, k, n);
    } else {
      DroppedStaysBehind(out, m, base, batch, k, n, i);
    }
  }

  lemma IdempotentTop(out: seq<Record>, m: Log, base: Log, batch: seq<Record>, k: nat)
    requires ByName(base) && DistinctNames(batch) && m == Absorb(base, batch) && IsTop(out, m, k)
    ensures IsTop(out, Absorb(Load(out), batch), k)
  {
    var again := Absorb(Load(out), batch);
    assert |again| == |again.Keys| && again.Keys == NamesOf(out) + NamesOf(batch);
    IdempotentSize(out, m, batch, k);
    IdempotentEntries(out, m, base, batch, k);
    forall n, i | n in again && again[n] !in out && 0 <= i < |out| ensures Newer(out[i], again[n]) {
      IdempotentRest(out, m, base, batch, k, n, i);
    }
  }

  /** Merging the same observation twice changes nothing. */
  lemma MergeIsIdempotent(existing: seq<Record>, batch: seq<Record>, limit: int)
    requires DistinctNames(batch)
    ensures Merged(Merged(existing, batch, limit), batch, limit) == Merged(existing, batch, limit)
  {
    if 0 < limit {
      var m := Absorb(Load(existing), batch);
      var out := Take(Ordered(m), limit);
      TakeIsTop(m, limit);
      IdempotentTop(out, m, Load(existing), batch, limit);
      TopIsUnique(out, Absorb(Load(out), batch), limit);
    }
  }

  lemma IdempotentSize(out: seq<Record>, m: Log, batch: seq<Record>, k: nat)
    requires ByName(m) && IsTop(out, m, k) && NamesOf(batch) <= m.Keys
    ensures var n := |NamesOf(out) + NamesOf(batch)|; |out| == if k < n then k else n
  {
    TopHasDistinctNames(out, m, k);
    var all := NamesOf(out) + NamesOf(batch);
    CardLe(NamesOf(out), all);
    forall n | n in NamesOf(out) ensures n in m { TopNameEntry(out, m, k, n); }
    CardLe(all, m.Keys);
  }

  // ---------- Phases ----------

  /** A terminal record stays terminal under views that do not start a later run of the name. */
  lemma {:induction false} TerminalStays(m: Log, s: seq<Record>, n: string)
    requires n in m && IsTerminal(m[n].phase)
    requires forall i :: 0 <= i < |s| && s[i].jobName == n && s[i].phase == Running ==> s[i].start <= m[n].start
    ensures n in Absorb(m, s) && IsTerminal(Absorb(m, s)[n].phase) && m[n].start <= Absorb(m, s)[n].start
    decreases |s|
  {
    if s != [] {
      var front := s[..|s| - 1];
      TerminalStays(m, front, n);
      assert s[|s| - 1].jobName == n && s[|s| - 1].phase == Running ==> s[|s| - 1].start <= m[n].start;
    }
  }

  /** One truncated merge that keeps the name. */
  lemma TerminalStep(ring: seq<Record>, batch: seq<Record>, limit: int, n: string)
    requires n in NamesOf(ring) && IsTerminal(Load(ring)[n].phase) && n in NamesOf(Merged(ring, batch, limit))
    requires NoLaterRun(ring, batch, n)
    ensures IsTerminal(Load(Merged(ring, batch, limit))[n].phase)
    ensures Load(ring)[n].start <= Load(Merged(ring, batch, limit))[n].start
  {
    if 0 < limit {
      var m := Absorb(Load(ring), batch);
      TerminalStays(Load(ring), batch, n);
      TakeIsTop(m, limit);
      LoadTop(Merged(ring, batch, limit), m, limit, n);
    }
  }

  /** No Running view of `n` starts after its record in the ring. */
  ghost predicate NoLaterRun(ring: seq<Record>, batch: seq<Record>, n: string)
    requires n in NamesOf(ring)
  {
    forall i :: 0 <= i < |batch| && batch[i].jobName == n && batch[i].phase == Running ==>
      batch[i].start <= Load(ring)[n].start
  }

  /** The ring after a sequence of merges, each with a limit of its own. */
  ghost function RingAfter(ring: seq<Record>, batches: seq<seq<Record>>, limits: seq<int>): seq<Record>
    requires |batches| == |limits|
    decreases |batches|
  {
    if batches == [] then ring else RingAfter(Merged(ring, batches[0], limits[0]), batches[1..], limits[1..])
  }

  /** `n` stays in the ring throughout, and no Running view of it ever starts after its record of the time. */
  ghost predicate RemainsDone(ring: seq<Record>, batches: seq<seq<Record>>, limits: seq<int>, n: string)
    requires |batches| == |limits|
    decreases |batches|
  {
    && n in NamesOf(ring)
    && (batches != [] ==>
          && NoLaterRun(ring, batches[0], n)
          && RemainsDone(Merged(ring, batches[0], limits[0]), batches[1..], limits[1..], n))
  }

  /** And so it does in the ring, through every sequence of truncated merges that keeps it. */
  lemma {:induction false} TerminalStaysInRing(ring: seq<Record>, batches: seq<seq<Record>>, limits: seq<int>, n: string)
    requires |batches| == |limits| && RemainsDone(ring, batches, limits, n) && IsTerminal(Load(ring)[n].phase)
    ensures var r := RingAfter(ring, batches, limits);
            n in NamesOf(r) && IsTerminal(Load(r)[n].phase) && Load(ring)[n].start <= Load(r)[n].start
    decreases |batches|
  {
    if batches != [] {
      TerminalStep(ring, batches[0], limits[0], n);
      TerminalStaysInRing(Merged(ring, batches[0], limits[0]), batches[1..], limits[1..], n);
    }
  }

  /** Every newest-first sequence of distinct names is a history the ring can hold. */
  lemma HistoryIsReachable(s: seq<Record>)
    requires NewestFirst(s) && DistinctNames(s)
    ensures Merged([], s, |s|) == s
  {
    var m := Absorb(Load([]), s);
    assert Load([]) == map[];
    forall i | 0 <= i < |s| ensures s[i].jobName in m && m[s[i].jobName] == s[i] { AbsorbDistinct(map[], s, i); }
    NamesCount(s);
    assert m.Keys == NamesOf(s);
    TopIsUnique(s, m, |s|);
    assert Take(Ordered(m), |s|) == s;
  }

  /** `b` ranks at least as high as `a`: a later start, or the same start and no lost end time. */
  predicate RankLe(a: Record, b: Record) {
    a.start < b.start || (a.start == b.start && (a.end.Some? ==> b.end.Some?))
  }

  /** The survivor of several views of one Job, in arrival order. */
  function Arrive(first: Record, views: seq<Record>): Record {
    if views == [] then first else Survivor(Arrive(first, views[..|views| - 1]), views[|views| - 1])
  }

  ghost predicate OneClass(first: Record, views: seq<Record>) {
    forall i :: 0 <= i < |views| ==> IsTerminal(views[i].phase) == IsTerminal(first.phase)
  }

  /** Within one phase class the survivor is a highest-ranked view. */
  lemma {:induction false} ArriveIsMaximum(first: Record, views: seq<Record>)
    requires OneClass(first, views)
    ensures var r := Arrive(first, views);
            && IsTerminal(r.phase) == IsTerminal(first.phase)
            && RankLe(first, r)
            && (forall i :: 0 <= i < |views| ==> RankLe(views[i], r))
            && (RankLe(r, first) || exists i :: 0 <= i < |views| && RankLe(r, views[i]))
    decreases |views|
  {
    if views != [] {
      var front := views[..|views| - 1];
      ArriveIsMaximum(first, front);
      var before := Arrive(first, front);
      if !RankLe(before, first) && Arrive(first, views) == before {
        var i :| 0 <= i < |front| && RankLe(before, front[i]);
        assert RankLe(before, views[i]);
      }
    }
  }

  /** So the arrival order of the same views does not matter for start and completeness. */
  lemma ArrivalOrderIsIrrelevant(first: Record, views: seq<Record>, first': Record, views': seq<Record>)
    requires OneClass(first, views) && OneClass(first', views')
    requires forall x :: x == first || x in views <==> x == first' || x in views'
    ensures RankLe(Arrive(first, views), Arrive(first', views'))
    ensures RankLe(Arrive(first', views'), Arrive(first, views))
  {
    ArriveIsMaximum(first, views);
    ArriveIsMaximum(first', views');
    HighestOf(first, views, first', views');
    HighestOf(first', views', first, views);
  }

  lemma HighestOf(first: Record, views: seq<Record>, first': Record, views': seq<Record>)
    requires OneClass(first, views) && OneClass(first', views')
    requires forall x :: x == first || x in views ==> x == first' || x in views'
    ensures RankLe(Arrive(first, views), Arrive(first', views'))
  {
    ArriveIsMaximum(first, views);
    ArriveIsMaximum(first', views');
    var r, x := Arrive(first, views), first;
    if !RankLe(r, first) {
      var i :| 0 <= i < |views| && RankLe(r, views[i]);
      x := views[i];
    }
    assert x == first || x in views;
    if x != first' {
      assert x in views';
      var j :| 0 <= j < |views'| && views'[j] == x;
      assert RankLe(views'[j], Arrive(first', views'));
    }
  }
}
