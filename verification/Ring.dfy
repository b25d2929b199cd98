/**
`history.Merge`: a deduplicating, newest-first, bounded ring of execution records.
*/
module Ring {
  import opened Basics

  datatype ExecutionPhase = Succeeded | Failed | Running

  /** Times are instants in nanoseconds; durations and drifts are whole seconds. */
  datatype Record = Record(
    jobName: string, start: int, end: Option<int>, expected: Option<int>,
    duration: Option<int>, drift: Option<int>, phase: ExecutionPhase)

  predicate IsTerminal(p: ExecutionPhase) { p == Succeeded || p == Failed }

  /** Which of two views of one Job survives. */
  predicate ShouldReplace(prev: Record, next: Record) {
    if IsTerminal(next.phase) && !IsTerminal(prev.phase) then true
    else if IsTerminal(prev.phase) && !IsTerminal(next.phase) then next.start > prev.start
    else next.start > prev.start || (next.start == prev.start && prev.end.None? && next.end.Some?)
  }

  /** The surviving view, with the drift annotation of the replaced one carried forward. */
  function Survivor(prev: Record, next: Record): Record {
    if !ShouldReplace(prev, next) then prev
    else next.(expected := if next.expected.None? then prev.expected else next.expected,
               drift := if next.drift.None? then prev.drift else next.drift)
  }

  // ---------- The map by name ----------

  type Log = map<string, Record>

  ghost predicate ByName(m: Log) { forall n :: n in m ==> m[n].jobName == n }

  function NamesOf(s: seq<Record>): (names: set<string>)
    ensures forall i :: 0 <= i < |s| ==> s[i].jobName in names
    ensures forall n :: n in names ==> exists i :: 0 <= i < |s| && s[i].jobName == n
  {
    if s == [] then {} else NamesOf(s[..|s| - 1]) + {s[|s| - 1].jobName}
  }

  ghost predicate DistinctNames(s: seq<Record>) {
    forall i, j :: 0 <= i < j < |s| ==> s[i].jobName != s[j].jobName
  }

  /** Later records of one name overwrite earlier ones. */
  function Load(s: seq<Record>): (m: Log)
    ensures ByName(m)
    ensures m.Keys == NamesOf(s)
  {
    if s == [] then map[] else Load(s[..|s| - 1])[s[|s| - 1].jobName := s[|s| - 1]]
  }

  function AbsorbOne(m: Log, r: Record): Log {
    m[r.jobName := if r.jobName in m then Survivor(m[r.jobName], r) else r]
  }

  function Absorb(m: Log, s: seq<Record>): (m': Log)
    ensures ByName(m) ==> ByName(m')
    ensures m'.Keys == m.Keys + NamesOf(s)
  {
    if s == [] then m else AbsorbOne(Absorb(m, s[..|s| - 1]), s[|s| - 1])
  }

  // ---------- The order ----------

  /** Go's `<` on strings. */
  predicate StrLess(a: string, b: string)
    decreases |a|
  {
    b != [] && (a == [] || a[0] < b[0] || (a[0] == b[0] && StrLess(a[1..], b[1..])))
  }

  lemma {:induction false} StrTotal(a: string, b: string)
    ensures a == b || StrLess(a, b) || StrLess(b, a)
    ensures !(StrLess(a, b) && StrLess(b, a))
    ensures StrLess(a, b) ==> a != b
    decreases |a|
  {
    if a != [] && b != [] {
      StrTotal(a[1..], b[1..]);
      if a[0] == b[0] && a[1..] == b[1..] { assert a == [a[0]] + a[1..] && b == [b[0]] + b[1..]; }
    }
  }

  lemma {:induction false} StrTransitive(a: string, b: string, c: string)
    requires StrLess(a, b) && StrLess(b, c)
    ensures StrLess(a, c)
    decreases |a|
  {
    if a != [] && a[0] == b[0] && b[0] == c[0] { StrTransitive(a[1..], b[1..], c[1..]); }
  }

  /** Spelled out: `a` is a proper prefix of `b`, or has the smaller character where they first differ. */
  lemma {:induction false} StrLessMeans(a: string, b: string)
    ensures StrLess(a, b) <==> exists k :: DiffersAt(a, b, k) && (if k == |a| then k < |b| else k < |b| && a[k] < b[k])
    decreases |a|
  {
    if a == [] {
      assert DiffersAt(a, b, 0);
    } else if b != [] && a[0] == b[0] {
      StrLessMeans(a[1..], b[1..]);
      forall k ensures DiffersAt(a[1..], b[1..], k) <==> k >= 0 && DiffersAt(a, b, k + 1) { TailDiffers(a, b, k); }
      if StrLess(a, b) {
        var k :| DiffersAt(a[1..], b[1..], k)
                 && (if k == |a[1..]| then k < |b[1..]| else k < |b[1..]| && a[1..][k] < b[1..][k]);
        assert DiffersAt(a, b, k + 1);
      }
      if k :| DiffersAt(a, b, k) && (if k == |a| then k < |b| else k < |b| && a[k] < b[k]) {
        assert k != 0;
        assert DiffersAt(a[1..], b[1..], k - 1);
      }
    } else {
      assert DiffersAt(a, b, 0);
    }
  }

  /** The strings agree on their first `k` characters. */
  ghost predicate DiffersAt(a: string, b: string, k: int) {
    0 <= k <= |a| && k <= |b| && forall i :: 0 <= i < k ==> a[i] == b[i]
  }

  lemma TailDiffers(a: string, b: string, k: int)
    requires a != [] && b != [] && a[0] == b[0]
    ensures DiffersAt(a[1..], b[1..], k) <==> k >= 0 && DiffersAt(a, b, k + 1)
  {
    if k >= 0 && DiffersAt(a, b, k + 1) {
      forall i | 0 <= i < k ensures a[1..][i] == b[1..][i] { assert a[i + 1] == b[i + 1]; }
    }
    if DiffersAt(a[1..], b[1..], k) {
      forall i | 0 < i < k + 1 ensures a[i] == b[i] { assert a[1..][i - 1] == b[1..][i - 1]; }
    }
  }

  /** Newest first; equal start times are ordered by name, later names first. */
  predicate Newer(a: Record, b: Record) {
    a.start > b.start || (a.start == b.start && StrLess(b.jobName, a.jobName))
  }

  lemma NewerTotal(a: Record, b: Record)
    ensures (a.jobName == b.jobName && a.start == b.start) || Newer(a, b) || Newer(b, a)
    ensures !(Newer(a, b) && Newer(b, a))
    ensures !Newer(a, a)
  {
    StrTotal(a.jobName, b.jobName);
    StrTotal(a.jobName, a.jobName);
  }

  lemma NewerTransitive(a: Record, b: Record, c: Record)
    requires Newer(a, b) && Newer(b, c)
    ensures Newer(a, c)
  {
    if a.start == b.start == c.start { StrTransitive(c.jobName, b.jobName, a.jobName); }
  }

  ghost predicate NewestFirst(s: seq<Record>) { forall i, j :: 0 <= i < j < |s| ==> Newer(s[i], s[j]) }

  /** Spelled out: later starts come first, and of equal starts the later name. */
  lemma NewestFirstMeans(s: seq<Record>)
    ensures NewestFirst(s) <==> forall i, j :: 0 <= i < j < |s| ==>
              || s[i].start > s[j].start
              || (s[i].start == s[j].start && StrLess(s[j].jobName, s[i].jobName))
  {}

  // ---------- The ordered log ----------

  ghost predicate IsNewest(m: Log, r: Record) {
    r.jobName in m && m[r.jobName] == r && forall n :: n in m && n != r.jobName ==> Newer(r, m[n])
  }

  lemma {:induction false} NewestExists(m: Log) returns (r: Record)
    requires m != map[] && ByName(m)
    ensures IsNewest(m, r)
    decreases |m|
  {
    var n :| n in m;
    var rest := m - {n};
    assert forall k :: k in m && k != n ==> k in rest;
    if rest == map[] {
      r := m[n];
    } else {
      r := NewestExists(rest);
      NewerTotal(m[n], r);
      if Newer(m[n], r) {
        forall k | k in m && k != n ensures Newer(m[n], m[k]) {
          if k != r.jobName { NewerTransitive(m[n], r, m[k]); }
        }
        r := m[n];
      }
    }
  }

  lemma NewestIsSome(m: Log)
    requires m != map[] && ByName(m)
    ensures exists r :: IsNewest(m, r)
  {
    var r := NewestExists(m);
  }

  ghost function Newest(m: Log): (r: Record)
    requires m != map[] && ByName(m)
    ensures IsNewest(m, r)
  {
    NewestIsSome(m);
    var r :| IsNewest(m, r);
    r
  }

  /** All records of the log, newest first. */
  ghost function Ordered(m: Log): (s: seq<Record>)
    requires ByName(m)
    ensures |s| == |m|
    ensures forall i :: 0 <= i < |s| ==> s[i].jobName in m && m[s[i].jobName] == s[i]
    decreases |m|
  {
    if m == map[] then [] else
    var r := Newest(m);
    [r] + Ordered(m - {r.jobName})
  }

  ghost function Take(s: seq<Record>, k: int): seq<Record> {
    if k <= 0 then [] else if k < |s| then s[..k] else s
  }

  lemma {:induction false} OrderedSorted(m: Log)
    requires ByName(m)
    ensures NewestFirst(Ordered(m))
    decreases |m|
  {
    if m != map[] {
      var r := Newest(m);
      OrderedSorted(m - {r.jobName});
    }
  }

  lemma {:induction false} OrderedComplete(m: Log, n: string)
    requires ByName(m) && n in m
    ensures m[n] in Ordered(m)
    decreases |m|
  {
    var r := Newest(m);
    var rest := m - {r.jobName};
    if n != r.jobName {
      OrderedComplete(rest, n);
      var i :| 0 <= i < |Ordered(rest)| && Ordered(rest)[i] == m[n];
      assert Ordered(m)[i + 1] == m[n];
    } else {
      assert Ordered(m)[0] == m[n];
    }
  }

  /** `s` holds the newest records of `m`: sorted, taken from `m`, as many as fit, nothing newer left out. */
  ghost predicate IsTop(s: seq<Record>, m: Log, k: nat) {
    && NewestFirst(s)
    && |s| == (if k < |m| then k else |m|)
    && (forall i :: 0 <= i < |s| ==> s[i].jobName in m && m[s[i].jobName] == s[i])
    && (forall n, i :: n in m && m[n] !in s && 0 <= i < |s| ==> Newer(s[i], m[n]))
  }

  /** There is only one such sequence, so neither map order nor the sort algorithm can show. */
  lemma {:induction false} TopIsUnique(s: seq<Record>, m: Log, k: nat)
    requires ByName(m) && IsTop(s, m, k)
    ensures s == Take(Ordered(m), k)
    decreases |s|
  {
    if s != [] {
      HeadIsNewest(s, m, k);
      TailIsTop(s, m, k);
      TopIsUnique(s[1..], m - {s[0].jobName}, k - 1);
      TopStep(s, m, k);
    }
  }

  lemma TopStep(s: seq<Record>, m: Log, k: nat)
    requires ByName(m) && m != map[] && 0 < k && s != []
    requires s[0] == Newest(m) && s[1..] == Take(Ordered(m - {s[0].jobName}), k - 1)
    ensures s == Take(Ordered(m), k)
  {
    OrderedHead(m);
    TakeCons(s[0], Ordered(m - {s[0].jobName}), k);
    assert s == [s[0]] + s[1..];
  }

  lemma OrderedHead(m: Log)
    requires ByName(m) && m != map[]
    ensures ByName(m - {Newest(m).jobName})
    ensures Ordered(m) == [Newest(m)] + Ordered(m - {Newest(m).jobName})
  {}

  lemma TakeCons(r: Record, t: seq<Record>, k: nat)
    requires 0 < k
    ensures Take([r] + t, k) == [r] + Take(t, k - 1)
  {
    if k <= |t| { assert ([r] + t)[..k] == [r] + t[..k - 1]; }
  }

  lemma HeadIsNewest(s: seq<Record>, m: Log, k: nat)
    requires ByName(m) && IsTop(s, m, k) && s != []
    ensures m != map[] && s[0] == Newest(m)
  {
    assert s[0].jobName in m;
    var r := Newest(m);
    NewerTotal(s[0], r);
    if r in s {
      var i :| 0 <= i < |s| && s[i] == r;
    }
  }

  lemma TailIsTop(s: seq<Record>, m: Log, k: nat)
    requires ByName(m) && IsTop(s, m, k) && s != []
    ensures IsTop(s[1..], m - {s[0].jobName}, k - 1)
  {
    var rest := m - {s[0].jobName};
    assert |rest| == |m| - 1;
    forall i | 0 <= i < |s[1..]| ensures s[1..][i].jobName in rest && rest[s[1..][i].jobName] == s[1..][i] {
      NewerTotal(s[0], s[i + 1]);
      assert Newer(s[0], s[i + 1]);
    }
    forall n, i | n in rest && rest[n] !in s[1..] && 0 <= i < |s[1..]| ensures Newer(s[1..][i], rest[n]) {
      assert m[n] !in s;
    }
  }

  /** Conversely the prefix of the ordered log is such a sequence. */
  lemma TakeIsTop(m: Log, k: nat)
    requires ByName(m)
    ensures IsTop(Take(Ordered(m), k), m, k)
  {
    var o := Ordered(m);
    var s := Take(o, k);
    OrderedSorted(m);
    assert s <= o;
    forall n, i | n in m && m[n] !in s && 0 <= i < |s| ensures Newer(s[i], m[n]) {
      OrderedComplete(m, n);
      var j :| 0 <= j < |o| && o[j] == m[n];
    }
  }

  // ---------- Merge ----------

  /** The merged ring as a function of its inputs. */
  ghost function Merged(existing: seq<Record>, incoming: seq<Record>, limit: int): seq<Record> {
    Take(Ordered(Absorb(Load(existing), incoming)), limit)
  }

  /** `s` lists every record of `m` once, in some order. */
  ghost predicate Lists(s: seq<Record>, m: Log) {
    && (forall i :: 0 <= i < |s| ==> s[i].jobName in m && m[s[i].jobName] == s[i])
    && (forall n :: n in m ==> m[n] in s)
    && |s| == |m|
  }

  /** The values of a Go map, in whatever order the runtime yields them. */
  method Values(m: Log) returns (out: seq<Record>)
    requires ByName(m)
    ensures Lists(out, m) && DistinctNames(out)
  {
    out := [];
    var left := m.Keys;
    while left != {}
      invariant left <= m.Keys && |out| + |left| == |m|
      invariant forall i :: 0 <= i < |out| ==> out[i].jobName in m && m[out[i].jobName] == out[i]
      invariant forall i :: 0 <= i < |out| ==> out[i].jobName !in left
      invariant forall n :: n in m && n !in left ==> m[n] in out
      invariant DistinctNames(out)
      decreases left
    {
      var n :| n in left;
      out := out + [m[n]];
      left := left - {n};
    }
  }

  function Insert(r: Record, s: seq<Record>): (s': seq<Record>)
    ensures |s'| == |s| + 1
    ensures forall x :: x in s' <==> x == r || x in s
  {
    if s == [] || Newer(r, s[0]) then [r] + s else [s[0]] + Insert(r, s[1..])
  }

  lemma {:induction false} InsertSorted(r: Record, s: seq<Record>)
    requires NewestFirst(s) && forall x :: x in s ==> x.jobName != r.jobName
    ensures NewestFirst(Insert(r, s))
    decreases |s|
  {
    if s != [] {
      if Newer(r, s[0]) {
        forall i | 0 < i < |s| ensures Newer(r, s[i]) { NewerTransitive(r, s[0], s[i]); }
      } else {
        NewerTotal(r, s[0]);
        InsertSorted(r, s[1..]);
        var t := Insert(r, s[1..]);
        forall i | 0 <= i < |t| ensures Newer(s[0], t[i]) {
          assert t[i] == r || t[i] in s[1..];
        }
      }
    }
  }

  /** Sorting by start and name, newest first. */
  method SortNewestFirst(s: seq<Record>) returns (r: seq<Record>)
    requires DistinctNames(s)
    ensures NewestFirst(r) && |r| == |s| && forall x :: x in r <==> x in s
  {
    r := [];
    for i := 0 to |s|
      invariant NewestFirst(r) && |r| == i
      invariant forall x :: x in r <==> x in s[..i]
    {
      assert s[..i + 1] == s[..i] + [s[i]];
      InsertSorted(s[i], r);
      r := Insert(s[i], r);
    }
    assert s[..|s|] == s;
  }

  /** The first loop of `Merge`: the existing records by name. */
  method LoadAll(existing: seq<Record>) returns (byName: Log)
    ensures byName == Load(existing)
  {
    byName := map[];
    for i := 0 to |existing|
      invariant byName == Load(existing[..i])
    {
      assert existing[..i + 1][..i] == existing[..i];
      byName := byName[existing[i].jobName := existing[i]];
    }
    assert existing[..|existing|] == existing;
  }

  /** The first two loops of `Merge`: the map by name. */
  method Collect(existing: seq<Record>, incoming: seq<Record>) returns (byName: Log)
    ensures byName == Absorb(Load(existing), incoming)
  {
    byName := LoadAll(existing);
    for i := 0 to |incoming|
      invariant byName == Absorb(Load(existing), incoming[..i])
    {
      assert incoming[..i + 1][..i] == incoming[..i];
      byName := Admit(byName, incoming[i]);
    }
    assert incoming[..|incoming|] == incoming;
  }

  /** One incoming record: insert it, drop it, or let it replace the known view and carry its annotation. */
  method Admit(byName: Log, incoming: Record) returns (m: Log)
    ensures m == AbsorbOne(byName, incoming)
  {
    var r := incoming;
    if r.jobName !in byName {
      return byName[r.jobName := r];
    }
    var prev := byName[r.jobName];
    if !ShouldReplace(prev, r) {
      assert byName[r.jobName := prev] == byName;
      return byName;
    }
    if r.expected == None && prev.expected != None {
      r := r.(expected := prev.expected);
    }
    if r.drift == None && prev.drift != None {
      r := r.(drift := prev.drift);
    }
    m := byName[r.jobName := r];
  }

  /** `Merge`: whatever the map order and the sort, the outcome is the newest records of the merged log. */
  method Merge(existing: seq<Record>, incoming: seq<Record>, limit: int) returns (out: seq<Record>)
    ensures out == Merged(existing, incoming, limit)
  {
    if limit <= 0 {
      return [];
    }
    var byName := Collect(existing, incoming);
    var listed := Values(byName);
    out := SortNewestFirst(listed);
    SortedListIsOrdered(listed, out, byName);
    if |out| > limit {
      out := out[..limit];
    }
  }

  lemma SortedListIsOrdered(listed: seq<Record>, s: seq<Record>, m: Log)
    requires ByName(m) && Lists(listed, m)
    requires NewestFirst(s) && |s| == |listed| && forall x :: x in s <==> x in listed
    ensures s == Ordered(m)
  {
    assert forall i :: 0 <= i < |s| ==> s[i] in listed;
    TopIsUnique(s, m, |m|);
  }
}
