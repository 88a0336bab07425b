/** The time range canonicaliser of the timerange match: a list of start/end
    pairs is checked for overlap, sorted, merged where ranges touch, and split
    where a range runs past the end of the period. */
module TimeRange {
  import opened Wrappers

  datatype Range = Range(start: int, end: int)

  /** The length of a day or of a week in seconds. */
  function Period(weekly: bool): int {
    if weekly then 7 * 24 * 60 * 60 else 24 * 60 * 60
  }

  // ---- What ranges and boundary lists mean -----------------------------------------

  /** A range contains second `t`; an end before the start runs on into the next period. */
  predicate InRange(r: Range, t: int) {
    if r.start <= r.end then r.start <= t < r.end else r.start <= t || t < r.end
  }

  predicate Covers(rs: seq<Range>, t: int) {
    exists i :: 0 <= i < |rs| && InRange(rs[i], t)
  }

  /** A list of boundaries read as start, end, start, end, ... */
  predicate ListCovers(s: seq<int>, t: int) {
    |s| >= 2 && (s[0] <= t < s[1] || ListCovers(s[2..], t))
  }

  /** Ranges as a user may write them: inside the period and not empty. */
  predicate Proper(rs: seq<Range>, period: int) {
    forall i :: 0 <= i < |rs| ==> 0 <= rs[i].start <= period && 0 <= rs[i].end <= period && rs[i].start != rs[i].end
  }

  /** Ranges inside the period, empty ones included. */
  predicate Within(rs: seq<Range>, period: int) {
    forall i :: 0 <= i < |rs| ==> 0 <= rs[i].start <= period && 0 <= rs[i].end <= period
  }

  predicate IsEmpty(r: Range) {
    r.start == r.end
  }

  /** Some ranges start before range `i` and some behind it. */
  predicate Between(rs: seq<Range>, i: nat)
    requires i < |rs|
  {
    (exists j :: 0 <= j < |rs| && rs[j].start < rs[i].start) && (exists j :: 0 <= j < |rs| && rs[j].start > rs[i].start)
  }

  /** No other range has a boundary where range `i` starts. */
  predicate Alone(rs: seq<Range>, i: nat)
    requires i < |rs|
  {
    forall j :: 0 <= j < |rs| && j != i ==> rs[j].start != rs[i].start && rs[j].end != rs[i].start
  }

  /** Every empty range lies between others and touches none of them. */
  predicate Harmless(rs: seq<Range>) {
    forall i :: 0 <= i < |rs| && IsEmpty(rs[i]) ==> Between(rs, i) && Alone(rs, i)
  }

  // ---- The steps on values -----------------------------------------------------------

  /** The end of a range on an unrolled time line. */
  function Unrolled(r: Range, period: int): int {
    if r.end < r.start then r.end + period else r.end
  }

  predicate Clash(a: Range, b: Range, period: int) {
    a.start < Unrolled(b, period) && Unrolled(a, period) > b.start
  }

  predicate Overlaps(rs: seq<Range>, period: int) {
    exists i, j :: 0 <= i < |rs| && 0 <= j < |rs| && i != j && Clash(rs[i], rs[j], period)
  }

  function Swap(rs: seq<Range>, i: nat, k: nat): (r: seq<Range>)
    requires i < |rs| && k < |rs|
    ensures |r| == |rs|
  {
    rs[k := rs[i]][i := rs[k]]
  }

  /** The first of the smallest starts among `best` and the ranges from `i` on. */
  function MinStart(rs: seq<Range>, i: nat, best: nat): (k: nat)
    requires i <= |rs| && best < |rs|
    ensures k < |rs| && (k == best || i <= k)
    ensures rs[k].start <= rs[best].start && forall j :: i <= j < |rs| ==> rs[k].start <= rs[j].start
    decreases |rs| - i
  {
    if i == |rs| then best else MinStart(rs, i + 1, if rs[best].start > rs[i].start then i else best)
  }

  /** Selection sort by start, with the ranges before `i` in place. */
  function SortFrom(rs: seq<Range>, i: nat): (r: seq<Range>)
    requires i <= |rs|
    ensures |r| == |rs|
    decreases |rs| - i
  {
    if i == |rs| then rs else SortFrom(Swap(rs, i, MinStart(rs, i, i)), i + 1)
  }

  function Flat(rs: seq<Range>): (s: seq<int>)
    ensures |s| == 2 * |rs|
  {
    if rs == [] then [] else [rs[0].start, rs[0].end] + Flat(rs[1..])
  }

  /** Whether the merge keeps boundary `i`: not if it equals a neighbour. */
  predicate Kept(s: seq<int>, i: nat)
    requires i < |s|
  {
    i == 0 || i == |s| - 1 || (s[i] != s[i - 1] && s[i] != s[i + 1])
  }

  function MergedFrom(s: seq<int>, i: nat): (r: seq<int>)
    requires i <= |s|
    ensures |r| <= |s| - i
    decreases |s| - i
  {
    if i == |s| then [] else if Kept(s, i) then [s[i]] + MergedFrom(s, i + 1) else MergedFrom(s, i + 1)
  }

  function Merged(s: seq<int>): seq<int> {
    MergedFrom(s, 0)
  }

  /** Split a range that runs past the end of the period. */
  function Adjusted(m: seq<int>, period: int): (r: seq<int>)
    requires m != []
    ensures |r| <= |m| + 2
  {
    var a := if m[|m| - 1] < m[0] then [0, m[|m| - 1]] + m[..|m| - 1] else m;
    if |a| % 2 == 1 then a + [period] else a
  }

  predicate AlwaysActive(m: seq<int>, period: int) {
    |m| >= 2 && m[0] == 0 && m[1] == period
  }

  function Canonical(rs: seq<Range>, period: int): Option<seq<int>> {
    if Overlaps(rs, period) then None
    else
      var m := Merged(Flat(SortFrom(rs, 0)));
      if AlwaysActive(m, period) || m == [] then None else Some(Adjusted(m, period))
  }

  // ---- Sorting keeps the meaning -----------------------------------------------------

  /** A range that runs past the end of the period ends before any start. */
  predicate WrapsEarly(rs: seq<Range>) {
    forall i, j :: 0 <= i < |rs| && 0 <= j < |rs| && rs[i].end < rs[i].start ==> rs[i].end < rs[j].start
  }

  /** No range ends at second 0 while another starts at the very end of the
      period: the two meet at midnight, but are not next to each other. */
  predicate Seamless(rs: seq<Range>, period: int) {
    forall i, j :: 0 <= i < |rs| && 0 <= j < |rs| && i != j ==> !(rs[i].end == 0 && rs[j].start == period)
  }

  /** Two lists hold the same ranges in some order. */
  ghost predicate SameRanges(a: seq<Range>, b: seq<Range>, period: int) {
    && multiset(a) == multiset(b)
    && (Within(a, period) ==> Within(b, period))
    && (Harmless(a) ==> Harmless(b))
    && (Overlaps(b, period) ==> Overlaps(a, period))
    && (WrapsEarly(a) <==> WrapsEarly(b))
    && (Seamless(a, period) <==> Seamless(b, period))
    && forall t :: Covers(a, t) <==> Covers(b, t)
  }

  lemma SameElements(a: seq<Range>, b: seq<Range>, period: int)
    requires multiset(a) == multiset(b)
    ensures Within(a, period) ==> Within(b, period)
    ensures WrapsEarly(a) ==> WrapsEarly(b)
    ensures forall t :: Covers(a, t) ==> Covers(b, t)
  {
    forall i | 0 <= i < |b| ensures exists k :: 0 <= k < |a| && a[k] == b[i] {
      assert b[i] in multiset(b);
    }
    forall t | Covers(a, t) ensures Covers(b, t) {
      var i :| 0 <= i < |a| && InRange(a[i], t);
      assert a[i] in multiset(a);
      assert a[i] in b;
    }
  }

  lemma SwapKeeps(rs: seq<Range>, i: nat, k: nat, period: int)
    requires i < |rs| && k < |rs|
    ensures SameRanges(rs, Swap(rs, i, k), period)
  {
    hide Within, Harmless, Overlaps, WrapsEarly, Seamless, Covers;
    var r := Swap(rs, i, k);
    assert multiset(rs) == multiset(r);
    SameElements(rs, r, period);
    SameElements(r, rs, period);
    SwapPairs(rs, i, k, period);
    SwapHarmless(rs, i, k);
    assert Swap(r, i, k) == rs;
    SwapPairs(r, i, k, period);
  }

  /** What is said of two different places moves with them. */
  lemma SwapPairs(rs: seq<Range>, i: nat, k: nat, period: int)
    requires i < |rs| && k < |rs|
    ensures Overlaps(Swap(rs, i, k), period) ==> Overlaps(rs, period)
    ensures Seamless(rs, period) ==> Seamless(Swap(rs, i, k), period)
  {
  }

  lemma SwapHarmless(rs: seq<Range>, i: nat, k: nat)
    requires i < |rs| && k < |rs|
    ensures Harmless(rs) ==> Harmless(Swap(rs, i, k))
  {
    if Harmless(rs) {
      var r := Swap(rs, i, k);
      forall x | 0 <= x < |r| && IsEmpty(r[x]) ensures Between(r, x) && Alone(r, x) {
        var x' := if x == i then k else if x == k then i else x;
        assert r[x] == rs[x'];
        SwapBetween(rs, i, k, x, x');
        SwapAlone(rs, i, k, x, x');
      }
    }
  }

  lemma SwapBetween(rs: seq<Range>, i: nat, k: nat, x: nat, x': nat)
    requires i < |rs| && k < |rs| && x < |rs| && x' == (if x == i then k else if x == k then i else x) && Between(rs, x')
    ensures Between(Swap(rs, i, k), x)
  {
    var r := Swap(rs, i, k);
    var a :| 0 <= a < |rs| && rs[a].start < rs[x'].start;
    var b :| 0 <= b < |rs| && rs[b].start > rs[x'].start;
    assert r[if a == i then k else if a == k then i else a] == rs[a];
    assert r[if b == i then k else if b == k then i else b] == rs[b];
  }

  lemma SwapAlone(rs: seq<Range>, i: nat, k: nat, x: nat, x': nat)
    requires i < |rs| && k < |rs| && x < |rs| && x' == (if x == i then k else if x == k then i else x) && Alone(rs, x')
    ensures Alone(Swap(rs, i, k), x)
  {
    var r := Swap(rs, i, k);
    forall j | 0 <= j < |r| && j != x ensures r[j].start != r[x].start && r[j].end != r[x].start {
      var j' := if j == i then k else if j == k then i else j;
      assert r[j] == rs[j'] && j' != x';
    }
  }

  /** The starts before `i` are in order and no larger than any later start. */
  predicate SortedTo(rs: seq<Range>, i: nat) {
    forall a, b :: 0 <= a < b < |rs| && a < i ==> rs[a].start <= rs[b].start
  }

  /** The selection sort sorts by start and permutes. */
  lemma {:induction false} SortMeaning(rs: seq<Range>, i: nat, period: int)
    requires i <= |rs| && SortedTo(rs, i)
    ensures SortedTo(SortFrom(rs, i), |rs|) && SameRanges(rs, SortFrom(rs, i), period)
    decreases |rs| - i
  {
    hide SortedTo, SameRanges;
    if i == |rs| {
      SameItself(rs, period);
    } else {
      var k := MinStart(rs, i, i);
      SwapKeeps(rs, i, k, period);
      SwapSorted(rs, i);
      SortMeaning(Swap(rs, i, k), i + 1, period);
      SameTransitive(rs, Swap(rs, i, k), SortFrom(rs, i), period);
    }
  }

  lemma SwapSorted(rs: seq<Range>, i: nat)
    requires i < |rs| && SortedTo(rs, i)
    ensures SortedTo(Swap(rs, i, MinStart(rs, i, i)), i + 1)
  {
  }

  lemma SameItself(a: seq<Range>, period: int)
    ensures SameRanges(a, a, period)
  {
  }

  lemma SameTransitive(a: seq<Range>, b: seq<Range>, c: seq<Range>, period: int)
    requires SameRanges(a, b, period) && SameRanges(b, c, period)
    ensures SameRanges(a, c, period)
  {
  }

  // ---- The parity of boundaries --------------------------------------------------------

  predicate NonDecreasing(s: seq<int>, n: nat)
    requires n <= |s|
  {
    forall a, b :: 0 <= a < b < n ==> s[a] <= s[b]
  }

  /** How many boundaries lie at or before `t`. */
  function Count(s: seq<int>, t: int): nat {
    if s == [] then 0 else (if s[0] <= t then 1 else 0) + Count(s[1..], t)
  }

  lemma {:induction false} CountConcat(a: seq<int>, b: seq<int>, t: int)
    ensures Count(a + b, t) == Count(a, t) + Count(b, t)
  {
    if a == [] {
      assert a + b == b;
    } else {
      assert (a + b)[1..] == a[1..] + b;
      CountConcat(a[1..], b, t);
    }
  }

  lemma CountTwo(x: int, y: int, s: seq<int>, t: int)
    ensures Count([x, y] + s, t) == (if x <= t then 1 else 0) + (if y <= t then 1 else 0) + Count(s, t)
  {
  }

  lemma {:induction false} CountNone(s: seq<int>, t: int)
    requires forall x :: 0 <= x < |s| ==> t < s[x]
    ensures Count(s, t) == 0
  {
    if s != [] {
      CountNone(s[1..], t);
    }
  }

  lemma {:induction false} CountAll(s: seq<int>, t: int)
    requires forall x :: 0 <= x < |s| ==> s[x] <= t
    ensures Count(s, t) == |s|
  {
    if s != [] {
      CountAll(s[1..], t);
    }
  }

  /** In an ordered list a second is covered iff an odd number of boundaries
      has been passed. */
  lemma {:induction false} CoverParity(s: seq<int>, t: int)
    requires |s| % 2 == 0 && NonDecreasing(s, |s|)
    ensures ListCovers(s, t) <==> Count(s, t) % 2 == 1
  {
    if s != [] {
      var r := s[2..];
      CoverParity(r, t);
      assert s == [s[0], s[1]] + r;
      CountTwo(s[0], s[1], r, t);
      if t < s[1] {
        CountNone(r, t);
      }
    }
  }

  lemma {:induction false} FlatAt(rs: seq<Range>, i: nat)
    requires i < |rs|
    ensures Flat(rs)[2 * i] == rs[i].start && Flat(rs)[2 * i + 1] == rs[i].end
  {
    if i > 0 {
      FlatAt(rs[1..], i - 1);
    }
  }

  lemma MergedTwo(s: seq<int>, i: nat)
    requires 0 < i && i + 2 < |s| && s[i] != s[i - 1] && s[i + 1] != s[i + 2]
    ensures MergedFrom(s, i) == if s[i] == s[i + 1] then MergedFrom(s, i + 2) else [s[i], s[i + 1]] + MergedFrom(s, i + 2)
  {
  }

  /** Merging drops boundaries two equal ones at a time. */
  lemma {:induction false} MergeParity(rs: seq<Range>, j: nat, t: int)
    requires j < |rs| && forall i :: 0 <= i < |rs| ==> rs[i].start != rs[i].end
    ensures ParityKept(Flat(rs), 2 * j + 1, t)
    decreases |rs| - j
  {
    hide Flat, ParityKept;
    var s, i := Flat(rs), 2 * j + 1;
    FlatAt(rs, j);
    if j == |rs| - 1 {
      ParityLast(s, t);
    } else {
      FlatAt(rs, j + 1);
      MergeParity(rs, j + 1, t);
      ParityStep(s, i, t);
    }
  }

  ghost predicate ParityKept(s: seq<int>, i: nat, t: int) {
    i <= |s| && Count(MergedFrom(s, i), t) % 2 == Count(s[i..], t) % 2 && |MergedFrom(s, i)| % 2 == 1
  }

  lemma ParityLast(s: seq<int>, t: int)
    requires s != []
    ensures ParityKept(s, |s| - 1, t)
  {
    hide Count;
    assert MergedFrom(s, |s|) == [];
    assert s[|s| - 1..] == [s[|s| - 1]] == MergedFrom(s, |s| - 1);
  }

  lemma ParityStep(s: seq<int>, i: nat, t: int)
    requires 0 < i && i + 2 < |s| && s[i] != s[i - 1] && s[i + 1] != s[i + 2] && ParityKept(s, i + 2, t)
    ensures ParityKept(s, i, t)
  {
    hide Count, MergedFrom;
    MergedTwo(s, i);
    assert s[i..] == [s[i], s[i + 1]] + s[i + 2..];
    CountTwo(s[i], s[i + 1], s[i + 2..], t);
    CountTwo(s[i], s[i + 1], MergedFrom(s, i + 2), t);
  }

  lemma MergedParity(rs: seq<Range>, t: int)
    requires rs != [] && forall i :: 0 <= i < |rs| ==> rs[i].start != rs[i].end
    ensures var s := Flat(rs);
            Count(Merged(s), t) % 2 == Count(s, t) % 2 && |Merged(s)| % 2 == 0 && |Merged(s)| >= 2
  {
    hide Flat, Count, MergedFrom;
    var s := Flat(rs);
    MergeParity(rs, 0, t);
    MergedFirst(s);
    CountConcat([s[0]], MergedFrom(s, 1), t);
    assert s == [s[0]] + s[1..];
    CountConcat([s[0]], s[1..], t);
  }

  lemma MergedFirst(s: seq<int>)
    requires s != []
    ensures Merged(s) == [s[0]] + MergedFrom(s, 1)
  {
    assert Kept(s, 0);
  }

  /** Merging keeps the first and the last boundary and leaves the ones in
      between strictly increasing. */
  lemma {:induction false} MergedShape(s: seq<int>, i: nat)
    requires i < |s| && |s| >= 2 && NonDecreasing(s, |s| - 1) && (|s| > 2 ==> s[0] < s[1])
    ensures var m := MergedFrom(s, i);
            && m != [] && m[|m| - 1] == s[|s| - 1]
            && (Kept(s, i) ==> m[0] == s[i])
            && Increasing(m, |m| - 1)
            && forall x :: 0 <= x < |m| - 1 ==> s[i] <= m[x] <= s[|s| - 2]
    decreases |s| - i
  {
    hide Increasing, NonDecreasing;
    if i == |s| - 1 {
      assert MergedFrom(s, |s|) == [] && MergedFrom(s, i) == [s[i]];
      AloneIncreasing([s[i]]);
    } else {
      var rest := MergedFrom(s, i + 1);
      MergedShape(s, i + 1);
      Ordered(s, i);
      if Kept(s, i) {
        ShapeMore(s[i], rest, if i + 1 == |s| - 1 then s[i] else s[i + 1], s[|s| - 2]);
      }
    }
  }

  lemma AloneIncreasing(m: seq<int>)
    requires m != []
    ensures Increasing(m, 0) && (|m| > 1 ==> Increasing(m, 1))
  {
  }

  lemma Ordered(s: seq<int>, i: nat)
    requires i < |s| - 1 && NonDecreasing(s, |s| - 1)
    ensures s[i] <= s[|s| - 2] && (i < |s| - 2 ==> s[i] <= s[i + 1])
  {
  }

  /** A smaller boundary in front of the others. */
  lemma ShapeMore(x: int, m: seq<int>, low: int, high: int)
    requires m != [] && Increasing(m, |m| - 1) && x <= high && (|m| > 1 ==> x < low)
    requires forall k :: 0 <= k < |m| - 1 ==> low <= m[k] <= high
    ensures Increasing([x] + m, |m|)
    ensures forall k :: 0 <= k < |m| ==> x <= ([x] + m)[k] <= high
  {
    var r := [x] + m;
    assert forall k :: 0 < k < |r| ==> r[k] == m[k - 1];
  }

  predicate Increasing(s: seq<int>, n: nat)
    requires n <= |s|
  {
    forall a, b :: 0 <= a < b < n ==> s[a] < s[b]
  }

  // ---- Ranges in order -------------------------------------------------------------------

  /** Only the last range may run past the end, and none starts before its
      predecessor has ended. */
  predicate Chained(rs: seq<Range>) {
    && (forall i, j :: 0 <= i < j < |rs| ==> rs[i].start < rs[i].end <= rs[j].start)
    && (rs != [] ==> rs[|rs| - 1].start != rs[|rs| - 1].end)
  }

  /** Sorted ranges without overlap are chained up to the first one that runs past
      the end; all ranges behind that one start at the very end of the period. */
  lemma SortedIsChained(rs: seq<Range>, period: int) returns (n: nat)
    requires rs != [] && Proper(rs, period) && !Overlaps(rs, period) && SortedTo(rs, |rs|)
    ensures 0 < n <= |rs| && Chained(rs[..n])
    ensures forall j :: n <= j < |rs| ==> rs[j].start == period
    ensures n < |rs| ==> rs[n - 1].end < rs[n - 1].start
    ensures n == |rs| <==> Seamless(rs, period)
  {
    hide Proper, Overlaps, SortedTo, Chained, Seamless, FirstPast;
    n := FirstPast(rs);
    forall i, j | 0 <= i < j < |rs| ensures ChainedPair(rs[i], rs[j], period) {
      SortedPair(rs, i, j, period);
    }
    ChainedFront(rs, n, period);
    if n == |rs| {
      NoSeam(rs, period);
    } else {
      HasSeam(rs, n, period);
    }
  }

  lemma SortedPair(rs: seq<Range>, i: nat, j: nat, period: int)
    requires i < j < |rs| && Proper(rs, period) && !Overlaps(rs, period) && SortedTo(rs, |rs|)
    ensures ChainedPair(rs[i], rs[j], period)
  {
    assert !Clash(rs[i], rs[j], period) && rs[i].start <= rs[j].start;
    NoClash(rs[i], rs[j], period);
  }

  lemma ChainedFront(rs: seq<Range>, n: nat, period: int)
    requires 0 < n <= |rs| && Proper(rs, period)
    requires forall i, j :: 0 <= i < j < |rs| ==> ChainedPair(rs[i], rs[j], period)
    requires forall i :: 0 <= i < n - 1 ==> rs[i].start <= rs[i].end
    ensures Chained(rs[..n])
  {
    var f := rs[..n];
    assert forall i :: 0 <= i < n ==> f[i] == rs[i];
    forall i, j | 0 <= i < j < n ensures f[i].start < f[i].end <= f[j].start {
      assert ChainedPair(rs[i], rs[j], period);
    }
  }

  lemma NoSeam(rs: seq<Range>, period: int)
    requires rs != [] && Proper(rs, period)
    requires forall i :: 0 <= i < |rs| - 1 ==> rs[i].start <= rs[i].end
    ensures Seamless(rs, period)
  {
    forall i, j | 0 <= i < |rs| && 0 <= j < |rs| && i != j ensures !(rs[i].end == 0 && rs[j].start == period) {
      ProperAt(rs, i, period);
      ProperAt(rs, j, period);
    }
  }

  lemma HasSeam(rs: seq<Range>, n: nat, period: int)
    requires 0 < n < |rs| && rs[n - 1].end < rs[n - 1].start
    requires forall i, j :: 0 <= i < j < |rs| ==> ChainedPair(rs[i], rs[j], period)
    ensures !Seamless(rs, period)
    ensures forall j :: n <= j < |rs| ==> rs[j].start == period
  {
    assert forall j :: n <= j < |rs| ==> ChainedPair(rs[n - 1], rs[j], period);
    assert rs[n].start == period;
  }

  /** How two ranges that do not clash lie, the first one starting no later. */
  predicate ChainedPair(a: Range, b: Range, period: int) {
    if a.start < a.end then a.end <= b.start else b.start == period && (a.end == 0 || (a.start == period && b.end == 0))
  }

  lemma NoClash(a: Range, b: Range, period: int)
    requires Proper([a], period) && Proper([b], period) && a.start <= b.start && !Clash(a, b, period)
    ensures ChainedPair(a, b, period)
  {
    assert [a][0] == a && [b][0] == b;
  }

  /** How many ranges there are up to the first that runs past the end. */
  function FirstPast(rs: seq<Range>): (n: nat)
    requires rs != []
    ensures 0 < n <= |rs|
    ensures forall i :: 0 <= i < n - 1 ==> rs[i].start <= rs[i].end
    ensures n < |rs| ==> rs[n - 1].end < rs[n - 1].start
  {
    if |rs| == 1 || rs[0].end < rs[0].start then 1
    else
      var n := FirstPast(rs[1..]);
      assert forall i :: 0 < i < |rs| ==> rs[i] == rs[1..][i - 1];
      n + 1
  }

  lemma {:induction false} FlatOrdered(rs: seq<Range>)
    requires rs != [] && Chained(rs)
    ensures var s := Flat(rs);
            && NonDecreasing(s, |s| - 1)
            && (forall x :: 0 <= x < |s| - 1 ==> rs[0].start <= s[x] <= rs[|rs| - 1].start)
            && s[0] == rs[0].start && (|s| > 2 ==> s[0] < s[1])
            && s[|s| - 2] == rs[|rs| - 1].start && s[|s| - 1] == rs[|rs| - 1].end
  {
    hide NonDecreasing, Chained;
    if |rs| > 1 {
      ChainedRest(rs);
      FlatOrdered(rs[1..]);
      OrderedMore(rs[0].start, rs[0].end, Flat(rs[1..]), rs[1].start, rs[|rs| - 1].start);
    } else {
      FlatOne(rs[0]);
      assert rs == [rs[0]];
      OneOrdered(Flat(rs));
    }
  }

  lemma ChainedRest(rs: seq<Range>)
    requires |rs| > 1 && Chained(rs)
    ensures Chained(rs[1..]) && rs[0].start < rs[0].end <= rs[1].start <= rs[|rs| - 1].start
  {
    assert forall i :: 0 < i < |rs| ==> rs[i] == rs[1..][i - 1];
  }

  lemma OneOrdered(s: seq<int>)
    requires |s| == 2
    ensures NonDecreasing(s, 1)
  {
  }

  lemma OrderedMore(a: int, b: int, f: seq<int>, low: int, high: int)
    requires f != [] && NonDecreasing(f, |f| - 1) && a < b <= low <= high
    requires forall x :: 0 <= x < |f| - 1 ==> low <= f[x] <= high
    ensures NonDecreasing([a, b] + f, |f| + 1)
    ensures forall x :: 0 <= x < |f| + 1 ==> a <= ([a, b] + f)[x] <= high
  {
    var s := [a, b] + f;
    assert forall x :: 2 <= x < |s| ==> s[x] == f[x - 2];
  }

  lemma {:induction false} FlatCovers(rs: seq<Range>, t: int)
    requires Chained(rs) && (rs != [] ==> rs[|rs| - 1].start < rs[|rs| - 1].end)
    ensures Covers(rs, t) <==> ListCovers(Flat(rs), t)
  {
    if rs != [] {
      FlatCovers(rs[1..], t);
      assert rs == [rs[0]] + rs[1..];
      CoversConcat([rs[0]], rs[1..], t);
      assert Covers([rs[0]], t) <==> InRange([rs[0]][0], t);
      assert Flat(rs)[2..] == Flat(rs[1..]);
    }
  }

  lemma CoversConcat(a: seq<Range>, b: seq<Range>, t: int)
    ensures Covers(a + b, t) <==> Covers(a, t) || Covers(b, t)
  {
    var c := a + b;
    if Covers(a, t) {
      var i :| 0 <= i < |a| && InRange(a[i], t);
      assert InRange(c[i], t);
    }
    if Covers(b, t) {
      var i :| 0 <= i < |b| && InRange(b[i], t);
      assert InRange(c[|a| + i], t);
    }
    if Covers(c, t) {
      var i :| 0 <= i < |c| && InRange(c[i], t);
      assert if i < |a| then InRange(a[i], t) else InRange(b[i - |a|], t);
    }
  }

  lemma {:induction false} FlatConcat(a: seq<Range>, b: seq<Range>)
    ensures Flat(a + b) == Flat(a) + Flat(b)
  {
    if a == [] {
      assert a + b == b;
    } else {
      assert (a + b)[1..] == a[1..] + b;
      FlatConcat(a[1..], b);
    }
  }

  /** With no range past the end, the covered seconds are those with odd parity. */
  lemma StraightParity(rs: seq<Range>, t: int)
    requires rs != [] && Chained(rs) && rs[|rs| - 1].start < rs[|rs| - 1].end
    ensures Covers(rs, t) <==> Count(Flat(rs), t) % 2 == 1
  {
    hide Flat, Count, ListCovers, Covers;
    FlatOrdered(rs);
    FlatCovers(rs, t);
    CoverParity(Flat(rs), t);
  }

  /** With a range past the end that ends before any start, those with even parity. */
  lemma WrappedParity(rs: seq<Range>, period: int, t: int)
    requires rs != [] && Chained(rs) && 0 <= t < period
    requires var last := rs[|rs| - 1]; last.end < rs[0].start && last.end < last.start <= period
    ensures Covers(rs, t) <==> Count(Flat(rs), t) % 2 == 0
  {
    hide Flat, Count, Covers, Chained;
    var init, last := rs[..|rs| - 1], rs[|rs| - 1];
    assert rs == init + [last];
    CountLast(init, last, t);
    CoversLast(init, last, t);
    if t < last.end {
      FlatOrdered(rs);
      CountNone(Flat(rs), t);
    } else if last.start == period {
      InitParity(init, last, t);
    } else {
      var upper := Range(last.start, period);
      var u := init + [upper];
      CountLast(init, upper, t);
      CoversLast(init, upper, t);
      ChainedRaise(init, last, upper);
      StraightParity(u, t);
    }
  }

  /** All ranges but the last are straight. */
  lemma InitParity(init: seq<Range>, last: Range, t: int)
    requires Chained(init + [last])
    ensures Covers(init, t) <==> Count(Flat(init), t) % 2 == 1
  {
    hide Flat, Count, Covers;
    var rs := init + [last];
    if init == [] {
      NothingCovered(t);
    } else {
      assert forall i :: 0 <= i < |init| ==> init[i] == rs[i];
      assert rs[|rs| - 1] == last && rs[|init| - 1].start < rs[|init| - 1].end;
      StraightParity(init, t);
    }
  }

  lemma NothingCovered(t: int)
    ensures !Covers([], t) && Count(Flat([]), t) == 0
  {
  }

  /** With a range past the end, the last second of the period is covered iff an
      even number of boundaries lies before the end. */
  lemma EndParity(rs: seq<Range>, period: int)
    requires rs != [] && Chained(rs) && Proper(rs, period) && rs[|rs| - 1].end < rs[|rs| - 1].start
    ensures Covers(rs, period - 1) <==> Count(Flat(rs), period - 1) % 2 == 0
  {
    hide Flat, Count, Covers, Chained, Proper;
    var init, last, t := rs[..|rs| - 1], rs[|rs| - 1], period - 1;
    ProperAt(rs, |rs| - 1, period);
    assert rs == init + [last];
    CountLast(init, last, t);
    CoversLast(init, last, t);
    if last.start == period {
      InitParity(init, last, t);
    } else {
      FlatOrdered(rs);
      CountAll(Flat(rs), t);
    }
  }

  lemma ProperAt(rs: seq<Range>, i: nat, period: int)
    requires i < |rs| && Proper(rs, period)
    ensures 0 <= rs[i].start <= period && 0 <= rs[i].end <= period && rs[i].start != rs[i].end
  {
  }

  lemma ChainedRaise(init: seq<Range>, last: Range, upper: Range)
    requires Chained(init + [last]) && upper.start == last.start < upper.end
    ensures Chained(init + [upper])
  {
    var rs, u := init + [last], init + [upper];
    forall i, j | 0 <= i < j < |u| ensures u[i].start < u[i].end <= u[j].start {
      assert u[i] == rs[i] && u[j].start == rs[j].start;
    }
  }

  lemma CoversLast(init: seq<Range>, r: Range, t: int)
    ensures Covers(init + [r], t) <==> Covers(init, t) || InRange(r, t)
  {
    CoversConcat(init, [r], t);
    assert Covers([r], t) <==> InRange([r][0], t);
  }

  lemma CountLast(init: seq<Range>, r: Range, t: int)
    ensures Count(Flat(init + [r]), t) == Count(Flat(init), t) + (if r.start <= t then 1 else 0) + (if r.end <= t then 1 else 0)
  {
    FlatConcat(init, [r]);
    FlatOne(r);
    CountConcat(Flat(init), [r.start, r.end], t);
    assert [r.start, r.end] + [] == [r.start, r.end];
    CountTwo(r.start, r.end, [], t);
  }

  lemma FlatOne(r: Range)
    ensures Flat([r]) == [r.start, r.end]
  {
  }

  // ---- The canonicaliser is exact ----------------------------------------------------------

  /** The result is ordered and covers exactly the seconds that the input covers. */
  ghost predicate Correct(rs: seq<Range>, out: seq<int>, period: int) {
    && |out| % 2 == 0 && NonDecreasing(out, |out|)
    && forall t :: 0 <= t < period ==> (ListCovers(out, t) <==> Covers(rs, t))
  }

  ghost predicate CoversAll(rs: seq<Range>, period: int) {
    forall t :: 0 <= t < period ==> Covers(rs, t)
  }

  ghost predicate ListCoversAll(m: seq<int>, period: int) {
    forall t :: 0 <= t < period ==> ListCovers(m, t)
  }

  lemma StraightExact(rs: seq<Range>, period: int)
    requires rs != [] && Chained(rs) && Proper(rs, period) && rs[|rs| - 1].start < rs[|rs| - 1].end
    ensures var m := Merged(Flat(rs));
            && |m| >= 2
            && (AlwaysActive(m, period) <==> CoversAll(rs, period))
            && Correct(rs, Adjusted(m, period), period)
  {
    hide Flat, Count, Covers, Chained, MergedFrom, ListCovers;
    var s := Flat(rs);
    var m := Merged(s);
    FlatOrdered(rs);
    MergedShape(s, 0);
    MergedParity(rs, 0);
    assert Increasing(m, |m|);
    assert Adjusted(m, period) == m;
    forall t ensures ListCovers(m, t) <==> Covers(rs, t) {
      StraightParity(rs, t);
      MergedParity(rs, t);
      CoverParity(m, t);
    }
    ActiveIffAll(m, period);
    assert ListCoversAll(m, period) ==> CoversAll(rs, period);
    assert CoversAll(rs, period) ==> ListCoversAll(m, period);
  }

  /** A merged list covers the whole period only as the single range `0, period`. */
  lemma ActiveIffAll(m: seq<int>, period: int)
    requires |m| >= 2 && |m| % 2 == 0 && Increasing(m, |m|) && period > 0
    requires forall x :: 0 <= x < |m| ==> 0 <= m[x] <= period
    ensures AlwaysActive(m, period) <==> ListCoversAll(m, period)
  {
    if !AlwaysActive(m, period) {
      var t := if m[0] > 0 then 0 else m[1];
      CoverParity(m, t);
      assert m == [m[0], m[1]] + m[2..];
      CountTwo(m[0], m[1], m[2..], t);
      CountNone(m[2..], t);
      assert m[1] <= period && !ListCovers(m, t);
    }
  }

  /** The list that splitting a range past the end of the period produces. */
  lemma SplitShape(m: seq<int>, period: int)
    requires |m| >= 2 && |m| % 2 == 0 && Increasing(m, |m| - 1)
    requires 0 <= m[|m| - 1] < m[0] && m[|m| - 2] <= period
    ensures var out := Adjusted(m, period); |out| % 2 == 0 && NonDecreasing(out, |out|)
  {
    var e, front, out := m[|m| - 1], m[..|m| - 1], Adjusted(m, period);
    assert out == [0, e] + (front + [period]);
    forall a, b | 0 <= a < b < |out| ensures out[a] <= out[b] {
      assert forall x :: 2 <= x < |out| - 1 ==> out[x] == m[x - 2];
    }
  }

  /** Splitting adds the boundaries 0 and the end of the period. */
  lemma SplitCount(m: seq<int>, period: int, t: int)
    requires |m| >= 2 && |m| % 2 == 0 && m[|m| - 1] < m[0] && 0 <= t < period
    ensures Count(Adjusted(m, period), t) == 1 + Count(m, t)
  {
    hide Count;
    var e, front := m[|m| - 1], m[..|m| - 1];
    assert Adjusted(m, period) == [0, e] + (front + [period]);
    assert m == front + [e];
    CountTwo(0, e, front + [period], t);
    CountConcat(front, [period], t);
    CountConcat(front, [e], t);
    CountOne(period, t);
    CountOne(e, t);
  }

  lemma CountOne(x: int, t: int)
    ensures Count([x], t) == if x <= t then 1 else 0
  {
  }

  /** With a range past the end the merged list never reads as always active. */
  lemma PastNotActive(rs: seq<Range>, period: int)
    requires rs != [] && Chained(rs) && Proper(rs, period) && rs[|rs| - 1].end < rs[|rs| - 1].start
    ensures var m := Merged(Flat(rs)); |m| >= 2 && |m| % 2 == 0 && m[1] < period && m[0] == rs[0].start
  {
    hide Flat, Count, Chained, MergedFrom, Proper;
    var s := Flat(rs);
    FlatOrdered(rs);
    MergedShape(s, 0);
    DistinctEnds(rs, period);
    MergedParity(rs, 0);
    ProperAt(rs, |rs| - 1, period);
    var m := Merged(s);
    assert Kept(s, 0);
    assert |m| > 2 ==> m[1] < m[2] <= s[|s| - 2];
  }

  lemma DistinctEnds(rs: seq<Range>, period: int)
    requires Proper(rs, period)
    ensures forall i :: 0 <= i < |rs| ==> rs[i].start != rs[i].end
  {
  }

  lemma WrappedExact(rs: seq<Range>, period: int)
    requires rs != [] && Chained(rs) && Proper(rs, period)
    requires rs[|rs| - 1].end < rs[|rs| - 1].start && rs[|rs| - 1].end < rs[0].start
    ensures var m := Merged(Flat(rs));
            && |m| >= 2
            && !AlwaysActive(m, period) && !CoversAll(rs, period)
            && Correct(rs, Adjusted(m, period), period)
  {
    hide Flat, Count, Covers, Chained, MergedFrom, ListCovers;
    var s, e := Flat(rs), rs[|rs| - 1].end;
    var m := Merged(s);
    FlatOrdered(rs);
    MergedShape(s, 0);
    MergedParity(rs, 0);
    SplitShape(m, period);
    PastNotActive(rs, period);
    var out := Adjusted(m, period);
    forall t | 0 <= t < period ensures ListCovers(out, t) <==> Covers(rs, t) {
      SplitCount(m, period, t);
      WrappedParity(rs, period, t);
      MergedParity(rs, t);
      CoverParity(out, t);
    }
    WrappedParity(rs, period, e);
    CountOnlyLast(s);
    assert !Covers(rs, e);
  }

  lemma CountOnlyLast(s: seq<int>)
    requires s != [] && forall x :: 0 <= x < |s| - 1 ==> s[|s| - 1] < s[x]
    ensures Count(s, s[|s| - 1]) == 1
  {
  }

  /** A range past the end that reaches the first start is left unsplit, and the
      last second of the period is taken for the opposite. */
  lemma WrappedWrong(rs: seq<Range>, period: int)
    requires rs != [] && Chained(rs) && Proper(rs, period)
    requires rs[|rs| - 1].end < rs[|rs| - 1].start && rs[0].start <= rs[|rs| - 1].end
    ensures var m := Merged(Flat(rs));
            && |m| >= 2
            && !AlwaysActive(m, period)
            && !Correct(rs, Adjusted(m, period), period)
  {
    hide Flat, Count, Covers, Chained, MergedFrom, ListCovers;
    var s, t := Flat(rs), period - 1;
    var m := Merged(s);
    FlatOrdered(rs);
    MergedShape(s, 0);
    MergedParity(rs, t);
    PastNotActive(rs, period);
    assert Adjusted(m, period) == m;
    EndParity(rs, period);
    if NonDecreasing(m, |m|) {
      CoverParity(m, t);
      assert ListCovers(m, t) != Covers(rs, t);
    }
  }

  // ---- Ranges that meet at midnight without being next to each other ---------------------

  /** Behind a range past the end, every boundary is kept. */
  lemma {:induction false} MergedTail(rs: seq<Range>, n: nat, j: nat, period: int)
    requires 0 < n <= j <= |rs| && Proper(rs, period) && rs[n - 1].end < rs[n - 1].start
    requires forall i :: n <= i < |rs| ==> rs[i].start == period
    ensures MergedFrom(Flat(rs), 2 * j) == Flat(rs)[2 * j..]
    decreases |rs| - j
  {
    hide Flat;
    var s := Flat(rs);
    if j < |rs| {
      MergedTail(rs, n, j + 1, period);
      FlatAt(rs, j - 1);
      FlatAt(rs, j);
      if j + 1 < |rs| {
        FlatAt(rs, j + 1);
      }
      KeptTwo(s, 2 * j);
    }
  }

  lemma KeptTwo(s: seq<int>, i: nat)
    requires i + 1 < |s| && Kept(s, i) && Kept(s, i + 1) && MergedFrom(s, i + 2) == s[i + 2..]
    ensures MergedFrom(s, i) == s[i..]
  {
  }

  lemma {:induction false} MergedPrefix(s: seq<int>, k: nat, i: nat)
    requires i <= k < |s| && 0 < k && Kept(s, k - 1)
    ensures MergedFrom(s, i) == MergedFrom(s[..k], i) + MergedFrom(s, k)
    decreases k - i
  {
    if i < k {
      MergedPrefix(s, k, i + 1);
      assert Kept(s, i) == Kept(s[..k], i);
    }
  }

  /** Ranges up to the first past the end, and those that start at the very end. */
  ghost predicate Seam(rs: seq<Range>, n: nat, period: int) {
    && 0 < n < |rs| && Proper(rs, period) && Chained(rs[..n]) && rs[n - 1].end < rs[n - 1].start
    && forall i :: n <= i < |rs| ==> rs[i].start == period
  }

  lemma SeamMerged(rs: seq<Range>, n: nat, period: int)
    requires Seam(rs, n, period)
    ensures Merged(Flat(rs)) == Merged(Flat(rs[..n])) + Flat(rs[n..])
  {
    hide Flat, MergedFrom;
    var s := Flat(rs);
    assert rs == rs[..n] + rs[n..];
    FlatConcat(rs[..n], rs[n..]);
    assert s[..2 * n] == Flat(rs[..n]) && s[2 * n..] == Flat(rs[n..]);
    FlatAt(rs, n - 1);
    FlatAt(rs, n);
    assert Kept(s, 2 * n - 1);
    MergedPrefix(s, 2 * n, 0);
    MergedTail(rs, n, n, period);
  }

  /** The first and the last two boundaries of the ranges at the very end. */
  lemma TailEnds(rs: seq<Range>, n: nat, period: int)
    requires Seam(rs, n, period)
    ensures var f := Flat(rs[n..]);
      && |f| >= 2 && f[0] == period && f[1] == rs[n].end < period
      && f[|f| - 2] == period && f[|f| - 1] == rs[|rs| - 1].end && 0 <= rs[|rs| - 1].end < period
  {
    FlatAt(rs[n..], 0);
    FlatAt(rs[n..], |rs| - n - 1);
  }

  /** One range at the very end: it is split, and the last second of the period
      is taken for the opposite. */
  lemma SeamParity(rs: seq<Range>, period: int)
    requires rs != [] && Seam(rs, |rs| - 1, period)
    ensures Covers(rs, period - 1) <==> Count(Merged(Flat(rs)), period - 1) % 2 == 1
  {
    hide Flat, Count, Covers, MergedFrom, Chained;
    var front, last, t := rs[..|rs| - 1], rs[|rs| - 1], period - 1;
    assert rs == front + [last];
    CountLast(front, last, t);
    CoversLast(front, last, t);
    EndParity(front, period);
    DistinctEnds(rs, period);
    MergedParity(rs, t);
  }

  /** Such ranges are never brought into order. */
  lemma SeamWrong(rs: seq<Range>, n: nat, period: int)
    requires Seam(rs, n, period)
    ensures var m := Merged(Flat(rs));
            && |m| >= 2
            && !AlwaysActive(m, period)
            && !Correct(rs, Adjusted(m, period), period)
  {
    hide Flat, Count, Covers, MergedFrom, ListCovers, Chained, Proper, Adjusted, Correct;
    var m', f := Merged(Flat(rs[..n])), Flat(rs[n..]);
    SeamMerged(rs, n, period);
    TailEnds(rs, n, period);
    SeamFront(rs, n, period);
    PastNotActive(rs[..n], period);
    var m := m' + f;
    if m[|m| - 1] >= m[0] {
      NotSplit(m, period);
      NotSorted(rs, Adjusted(m, period), |m| - 2, period);
    } else if n < |rs| - 1 {
      var out := Split(m, period);
      assert out == Adjusted(m, period);
      assert out[|m'| + 2] == m[|m'|] == f[0] && out[|m'| + 3] == m[|m'| + 1] == f[1];
      NotSorted(rs, out, |m'| + 2, period);
    } else {
      SeamParity(rs, period);
      SplitCount(m, period, period - 1);
      WrongParity(rs, Adjusted(m, period), period);
    }
  }

  lemma SeamFront(rs: seq<Range>, n: nat, period: int)
    requires Seam(rs, n, period)
    ensures Proper(rs[..n], period) && period > 0
  {
    ProperAt(rs, n, period);
    ProperAt(rs, n - 1, period);
    assert forall i :: 0 <= i < n ==> rs[..n][i] == rs[i];
  }

  lemma NotSplit(m: seq<int>, period: int)
    requires m != [] && |m| % 2 == 0 && m[|m| - 1] >= m[0]
    ensures Adjusted(m, period) == m
  {
  }

  /** A list in which the last boundary goes to the front. */
  lemma Split(m: seq<int>, period: int) returns (out: seq<int>)
    requires m != [] && |m| % 2 == 0 && m[|m| - 1] < m[0]
    ensures out == Adjusted(m, period) && |out| == |m| + 2
    ensures forall x :: 0 <= x < |m| - 1 ==> out[x + 2] == m[x]
  {
    out := [0, m[|m| - 1]] + m[..|m| - 1] + [period];
  }

  lemma NotSorted(rs: seq<Range>, out: seq<int>, x: nat, period: int)
    requires x + 1 < |out| && out[x] > out[x + 1]
    ensures !Correct(rs, out, period)
  {
    hide Covers, ListCovers;
  }

  lemma WrongParity(rs: seq<Range>, out: seq<int>, period: int)
    requires period > 0 && (Covers(rs, period - 1) <==> Count(out, period - 1) % 2 == 0)
    ensures !Correct(rs, out, period)
  {
    hide Covers, ListCovers, Count;
    if Correct(rs, out, period) {
      CoverParity(out, period - 1);
    }
  }

  lemma ChainedWraps(rs: seq<Range>)
    requires rs != [] && Chained(rs)
    ensures var last := rs[|rs| - 1]; WrapsEarly(rs) <==> last.start < last.end || last.end < rs[0].start
  {
  }

  /** What is proved of a merged list: with `good` for the condition, the result is
      right if and only if it holds, and it is absent exactly when everything is covered. */
  ghost predicate Exact(rs: seq<Range>, m: seq<int>, period: int) {
    var good := WrapsEarly(rs) && Seamless(rs, period);
    && m != []
    && if AlwaysActive(m, period) then good && CoversAll(rs, period)
       else (Correct(rs, Adjusted(m, period), period) <==> good) && (good ==> !CoversAll(rs, period))
  }

  lemma SortedExact(r: seq<Range>, period: int)
    requires r != [] && Proper(r, period) && !Overlaps(r, period) && SortedTo(r, |r|)
    ensures Exact(r, Merged(Flat(r)), period)
  {
    hide Flat, Covers, Chained, MergedFrom, ListCovers, Proper, Overlaps, WrapsEarly, Seamless, AlwaysActive, Adjusted;
    var n := SortedIsChained(r, period);
    if n < |r| {
      SeamWrong(r, n, period);
    } else {
      assert r[..n] == r;
      ChainedWraps(r);
      ProperAt(r, |r| - 1, period);
      var last := r[|r| - 1];
      if last.start < last.end {
        StraightExact(r, period);
      } else if last.end < r[0].start {
        WrappedExact(r, period);
      } else {
        WrappedWrong(r, period);
      }
    }
  }

  // ---- Empty ranges between others ---------------------------------------------------------

  function Without(r: seq<Range>, j: nat): seq<Range>
    requires j < |r|
  {
    r[..j] + r[j + 1..]
  }

  /** Where the range at `i` of the shorter list was. */
  function Skip(j: nat, i: nat): nat {
    if i < j then i else i + 1
  }

  /** Where the range at `i` goes, for `i` other than `j`. */
  function Back(j: nat, i: nat): nat
    requires i != j
  {
    if i < j then i else i - 1
  }

  lemma WithoutAt(r: seq<Range>, j: nat, i: nat)
    requires j < |r| && i < |r| - 1
    ensures |Without(r, j)| == |r| - 1
    ensures Without(r, j)[i] == r[Skip(j, i)]
  {
  }

  /** An empty range at `j` in a sorted list, between others and touching none. */
  ghost predicate Loose(r: seq<Range>, j: nat, period: int) {
    && 0 < j < |r| - 1 && IsEmpty(r[j]) && Alone(r, j)
    && Within(r, period) && SortedTo(r, |r|) && !Overlaps(r, period)
  }

  /** The boundaries next to it are different from it and from each other. */
  lemma LooseApart(r: seq<Range>, j: nat, period: int)
    requires Loose(r, j, period)
    ensures r[0].start < r[j].start < r[|r| - 1].start
    ensures r[j - 1].end < r[j].start < r[j + 1].start
  {
    assert r[j - 1].start <= r[j].start <= r[j + 1].start;
    assert !Clash(r[j - 1], r[j], period);
  }

  /** Merging drops it. */
  lemma {:induction false} MergedBehind(x: seq<int>, a: int, y: seq<int>, i: nat)
    requires x != [] && y != [] && i <= |y| && y[0] != a && y[0] != x[|x| - 1]
    ensures MergedFrom(x + [a, a] + y, |x| + 2 + i) == MergedFrom(x + y, |x| + i)
    decreases |y| - i
  {
    hide Kept;
    var s, t := x + [a, a] + y, x + y;
    if i < |y| {
      MergedBehind(x, a, y, i + 1);
      KeptBehind(x, a, y, i);
    }
  }

  lemma KeptBehind(x: seq<int>, a: int, y: seq<int>, i: nat)
    requires x != [] && i < |y| && y[0] != a && y[0] != x[|x| - 1]
    ensures (x + [a, a] + y)[|x| + 2 + i] == (x + y)[|x| + i]
    ensures Kept(x + [a, a] + y, |x| + 2 + i) <==> Kept(x + y, |x| + i)
  {
    var s, t := x + [a, a] + y, x + y;
    assert s[|x| + 2 + i] == y[i] == t[|x| + i];
    if i == 0 {
      assert s[|x| + 1] == a && t[|x| - 1] == x[|x| - 1];
    } else {
      assert s[|x| + 1 + i] == y[i - 1] == t[|x| + i - 1];
    }
    if i + 1 < |y| {
      assert s[|x| + 3 + i] == y[i + 1] == t[|x| + i + 1];
    }
  }

  lemma {:induction false} MergedBefore(x: seq<int>, a: int, y: seq<int>, i: nat)
    requires |x| >= 2 && y != [] && i <= |x| && x[|x| - 1] != a && y[0] != a && y[0] != x[|x| - 1]
    ensures MergedFrom(x + [a, a] + y, i) == MergedFrom(x + y, i)
    decreases |x| - i
  {
    hide Kept;
    var s, t := x + [a, a] + y, x + y;
    if i == |x| {
      MergedBehind(x, a, y, 0);
      KeptNeither(x, a, y);
    } else {
      MergedBefore(x, a, y, i + 1);
      KeptBefore(x, a, y, i);
    }
  }

  lemma KeptNeither(x: seq<int>, a: int, y: seq<int>)
    requires x != [] && y != []
    ensures !Kept(x + [a, a] + y, |x|) && !Kept(x + [a, a] + y, |x| + 1)
  {
    var s := x + [a, a] + y;
    assert s[|x|] == a && s[|x| + 1] == a;
  }

  lemma KeptBefore(x: seq<int>, a: int, y: seq<int>, i: nat)
    requires |x| >= 2 && y != [] && i < |x| && x[|x| - 1] != a && y[0] != x[|x| - 1]
    ensures (x + [a, a] + y)[i] == (x + y)[i]
    ensures Kept(x + [a, a] + y, i) <==> Kept(x + y, i)
  {
    var s, t := x + [a, a] + y, x + y;
    assert s[i] == x[i] == t[i];
    if 0 < i {
      assert s[i - 1] == x[i - 1] == t[i - 1];
    }
    if i + 1 < |x| {
      assert s[i + 1] == x[i + 1] == t[i + 1];
    } else {
      assert s[i + 1] == a && t[i + 1] == y[0];
    }
  }

  lemma LooseMerged(r: seq<Range>, j: nat, period: int)
    requires Loose(r, j, period)
    ensures Merged(Flat(r)) == Merged(Flat(Without(r, j)))
  {
    hide Flat, MergedFrom, Within, SortedTo, Overlaps, Alone;
    LooseApart(r, j, period);
    var front, back, a := r[..j], r[j + 1..], r[j].start;
    Around(r, j);
    FlatConcat(front + [r[j]], back);
    FlatConcat(front, [r[j]]);
    FlatOne(r[j]);
    FlatConcat(front, back);
    FlatAt(front, j - 1);
    FlatAt(back, 0);
    MergedBefore(Flat(front), a, Flat(back), 0);
  }

  lemma Around(r: seq<Range>, j: nat)
    requires j < |r|
    ensures r == r[..j] + [r[j]] + r[j + 1..]
    ensures j > 0 ==> r[..j][j - 1] == r[j - 1]
    ensures j < |r| - 1 ==> r[j + 1..][0] == r[j + 1]
  {
  }

  /** It covers nothing. */
  lemma LooseCovers(r: seq<Range>, j: nat, t: int)
    requires j < |r| && IsEmpty(r[j])
    ensures Covers(r, t) <==> Covers(Without(r, j), t)
  {
    hide Covers;
    var front, back := r[..j], r[j + 1..];
    Around(r, j);
    CoversConcat(front + [r[j]], back, t);
    CoversLast(front, r[j], t);
    CoversConcat(front, back, t);
  }

  /** It does not matter to the condition. */
  lemma LooseWraps(r: seq<Range>, j: nat, period: int)
    requires Loose(r, j, period)
    ensures WrapsEarly(r) <==> WrapsEarly(Without(r, j))
  {
    hide Overlaps, Within, Alone, Without;
    var q := Without(r, j);
    WithoutAt(r, j, 0);
    if WrapsEarly(q) {
      forall x, y | 0 <= x < |r| && 0 <= y < |r| && r[x].end < r[x].start ensures r[x].end < r[y].start {
        WithoutAt(r, j, Back(j, x));
        WithoutAt(r, j, Back(j, if y == j then 0 else y));
        assert r[0].start <= r[j].start;
      }
    }
    if WrapsEarly(r) {
      forall x, y | 0 <= x < |q| && 0 <= y < |q| && q[x].end < q[x].start ensures q[x].end < q[y].start {
        WithoutAt(r, j, x);
        WithoutAt(r, j, y);
      }
    }
  }

  lemma LooseSeam(r: seq<Range>, j: nat, period: int)
    requires Loose(r, j, period)
    ensures Seamless(r, period) <==> Seamless(Without(r, j), period)
  {
    hide Overlaps, Alone, Without, SortedTo, Within;
    var q := Without(r, j);
    WithoutAt(r, j, 0);
    LooseInside(r, j, period);
    if Seamless(q, period) {
      forall x, y | 0 <= x < |r| && 0 <= y < |r| && x != y ensures !(r[x].end == 0 && r[y].start == period) {
        if x != j && y != j {
          WithoutAt(r, j, Back(j, x));
          WithoutAt(r, j, Back(j, y));
        }
      }
    }
    if Seamless(r, period) {
      forall x, y | 0 <= x < |q| && 0 <= y < |q| && x != y ensures !(q[x].end == 0 && q[y].start == period) {
        WithoutAt(r, j, x);
        WithoutAt(r, j, y);
      }
    }
  }

  lemma LooseInside(r: seq<Range>, j: nat, period: int)
    requires Loose(r, j, period)
    ensures 0 < r[j].start < period
  {
    hide Overlaps, SortedTo, Alone;
    LooseApart(r, j, period);
    assert 0 <= r[0].start && r[|r| - 1].start <= period;
  }

  /** A sorted list whose first and last range are not empty, and whose empty
      ranges touch no other. */
  ghost predicate Settled(r: seq<Range>, period: int) {
    && r != [] && Within(r, period) && SortedTo(r, |r|) && !Overlaps(r, period)
    && !IsEmpty(r[0]) && !IsEmpty(r[|r| - 1])
    && forall i :: 0 <= i < |r| && IsEmpty(r[i]) ==> Alone(r, i)
  }

  lemma SettledWithout(r: seq<Range>, j: nat, period: int)
    requires Settled(r, period) && j < |r| && IsEmpty(r[j])
    ensures Loose(r, j, period) && |Without(r, j)| < |r| && Settled(Without(r, j), period)
  {
    hide Without, Within, Overlaps, SortedTo, Alone;
    WithoutAt(r, j, 0);
    WithoutAt(r, j, |r| - 2);
    WithoutKeeps(r, j, period);
    var q := Without(r, j);
    forall x | 0 <= x < |q| && IsEmpty(q[x]) ensures Alone(q, x) {
      WithoutAt(r, j, x);
      AloneWithout(r, j, x);
    }
  }

  lemma WithoutKeeps(r: seq<Range>, j: nat, period: int)
    requires 0 < j < |r| && Within(r, period) && SortedTo(r, |r|) && !Overlaps(r, period)
    ensures Within(Without(r, j), period) && SortedTo(Without(r, j), |r| - 1) && !Overlaps(Without(r, j), period)
  {
    hide Without;
    var q := Without(r, j);
    WithoutAt(r, j, 0);
    forall x | 0 <= x < |q| ensures 0 <= q[x].start <= period && 0 <= q[x].end <= period {
      WithoutAt(r, j, x);
    }
    forall x, y | 0 <= x < |q| - 1 && x <= y < |q| ensures q[x].start <= q[y].start {
      WithoutAt(r, j, x);
      WithoutAt(r, j, y);
    }
    forall x, y | 0 <= x < |q| && 0 <= y < |q| && x != y ensures !Clash(q[x], q[y], period) {
      WithoutAt(r, j, x);
      WithoutAt(r, j, y);
    }
  }

  lemma AloneWithout(r: seq<Range>, j: nat, x: nat)
    requires j < |r| && x < |r| - 1 && Alone(r, Skip(j, x))
    ensures |Without(r, j)| == |r| - 1 && Alone(Without(r, j), x)
  {
    hide Without;
    WithoutAt(r, j, x);
    var q := Without(r, j);
    forall y | 0 <= y < |q| && y != x ensures q[y].start != q[x].start && q[y].end != q[x].start {
      WithoutAt(r, j, y);
    }
  }

  lemma {:induction false} SettledExact(r: seq<Range>, period: int)
    requires Settled(r, period)
    ensures Exact(r, Merged(Flat(r)), period)
    decreases |r|
  {
    hide Flat, MergedFrom, Covers, WrapsEarly, Seamless, ListCovers, Adjusted, AlwaysActive, Without, Overlaps;
    if j :| 0 <= j < |r| && IsEmpty(r[j]) {
      SettledWithout(r, j, period);
      SettledExact(Without(r, j), period);
      LooseMerged(r, j, period);
      LooseWraps(r, j, period);
      LooseSeam(r, j, period);
      forall t ensures Covers(r, t) <==> Covers(Without(r, j), t) {
        LooseCovers(r, j, t);
      }
      SameExact(Without(r, j), r, Merged(Flat(r)), period);
    } else {
      SortedExact(r, period);
    }
  }

  lemma SameExact(a: seq<Range>, b: seq<Range>, m: seq<int>, period: int)
    requires Exact(a, m, period)
    requires (WrapsEarly(a) <==> WrapsEarly(b)) && (Seamless(a, period) <==> Seamless(b, period))
    requires forall t :: Covers(a, t) <==> Covers(b, t)
    ensures Exact(b, m, period)
  {
    hide Covers, WrapsEarly, Seamless, ListCovers, Adjusted, AlwaysActive;
    assert CoversAll(a, period) <==> CoversAll(b, period);
    if m != [] {
      var out := Adjusted(m, period);
      assert Correct(a, out, period) <==> Correct(b, out, period);
    }
  }

  lemma HarmlessSettled(r: seq<Range>, period: int)
    requires r != [] && Within(r, period) && Harmless(r) && !Overlaps(r, period) && SortedTo(r, |r|)
    ensures Settled(r, period)
  {
    hide Overlaps, Alone;
    assert forall i :: 0 <= i < |r| ==> r[0].start <= r[i].start <= r[|r| - 1].start;
  }

  /** On ranges inside the period, each empty one between others and touching none
      of them, and with no overlap reported: the result is right if and only if no
      range runs past the end of the period and on to some start, and no range ends
      at second 0 while another starts at the very end; and there is no result
      exactly when everything is covered. */
  lemma CanonicalExact(rs: seq<Range>, period: int)
    requires rs != [] && Within(rs, period) && Harmless(rs) && !Overlaps(rs, period)
    ensures var good := WrapsEarly(rs) && Seamless(rs, period);
            match Canonical(rs, period)
            case None => good && CoversAll(rs, period)
            case Some(out) => (Correct(rs, out, period) <==> good) && (good ==> !CoversAll(rs, period))
  {
    hide Flat, Covers, MergedFrom, ListCovers, Within, Harmless, Overlaps, WrapsEarly, Seamless, AlwaysActive, Adjusted, SortedTo;
    var r := SortFrom(rs, 0);
    NothingSorted(rs);
    SortMeaning(rs, 0, period);
    HarmlessSettled(r, period);
    SettledExact(r, period);
    SameExact(r, rs, Merged(Flat(r)), period);
  }

  lemma NothingSorted(rs: seq<Range>)
    ensures SortedTo(rs, 0)
  {
  }

  /** Without empty ranges nothing more is asked for. */
  lemma ProperHarmless(rs: seq<Range>, period: int)
    requires Proper(rs, period)
    ensures Within(rs, period) && Harmless(rs)
  {
  }

  /** 22:00 to midnight and midnight to 5:00: the split is missed. */
  lemma MidnightMissed()
    ensures var rs, day := [Range(79200, 0), Range(0, 18000)], Period(false);
            Canonical(rs, day).Some? && !Correct(rs, Canonical(rs, day).value, day)
  {
    var rs := [Range(79200, 0), Range(0, 18000)];
    assert rs[0].end < rs[0].start && !(rs[0].end < rs[1].start);
    ProperHarmless(rs, Period(false));
    CanonicalExact(rs, Period(false));
  }

  /** 22:00 to 0:00 and 24:00 to 5:00: the ranges meet at midnight, and the order
      of the boundaries is lost. */
  lemma TwoMidnightsMissed()
    ensures var rs, day := [Range(79200, 0), Range(86400, 18000)], Period(false);
            && WrapsEarly(rs) && !Overlaps(rs, day)
            && Canonical(rs, day).Some? && !Correct(rs, Canonical(rs, day).value, day)
  {
    var rs, day := [Range(79200, 0), Range(86400, 18000)], Period(false);
    assert rs[0].end == 0 && rs[1].start == day;
    ProperHarmless(rs, day);
    CanonicalExact(rs, day);
  }

  /** An empty range unbalances the boundaries: 0:05 to 0:05 and 0:07 to 0:09. */
  lemma EmptyRangeUnbalances()
    ensures var rs, day := [Range(300, 300), Range(420, 540)], Period(false);
            Canonical(rs, day) == Some([300, 420, 540, day]) && !Correct(rs, [300, 420, 540, day], day)
  {
    hide SortFrom, Flat, MergedFrom, Correct;
    var rs, day, out := [Range(300, 300), Range(420, 540)], Period(false), [300, 420, 540, Period(false)];
    EmptySorted();
    EmptyMerged();
    assert !Clash(rs[0], rs[1], day) && !Clash(rs[1], rs[0], day);
    assert Adjusted([300, 420, 540], day) == [300, 420, 540] + [day] == out;
    EmptyWrong(rs, out, day);
  }

  lemma EmptySorted()
    ensures var rs := [Range(300, 300), Range(420, 540)];
            SortFrom(rs, 0) == rs && Flat(rs) == [300, 300, 420, 540]
  {
    var rs := [Range(300, 300), Range(420, 540)];
    assert Swap(rs, 0, MinStart(rs, 0, 0)) == rs && Swap(rs, 1, MinStart(rs, 1, 1)) == rs;
    assert SortFrom(rs, 1) == rs && SortFrom(rs, 0) == rs;
    assert rs[1..] == [Range(420, 540)];
    FlatOne(Range(420, 540));
  }

  lemma EmptyMerged()
    ensures Merged([300, 300, 420, 540]) == [300, 420, 540]
  {
    var s := [300, 300, 420, 540];
    assert MergedFrom(s, 3) == [540] && MergedFrom(s, 2) == [420, 540] && MergedFrom(s, 1) == [420, 540];
  }

  lemma EmptyWrong(rs: seq<Range>, out: seq<int>, day: int)
    requires rs == [Range(300, 300), Range(420, 540)] && out == [300, 420, 540, day] && day == Period(false)
    ensures !Correct(rs, out, day)
  {
    hide NonDecreasing;
    assert ListCovers(out, 360) && !InRange(rs[0], 360) && !InRange(rs[1], 360);
  }

  /** Two ranges share a second of the period. */
  ghost predicate Shares(rs: seq<Range>, period: int) {
    exists i, j, t :: 0 <= i < |rs| && 0 <= j < |rs| && i != j && 0 <= t < period && InRange(rs[i], t) && InRange(rs[j], t)
  }

  /** A range that runs past the end goes on beyond another one's start. */
  predicate RunsInto(rs: seq<Range>) {
    exists i, j :: 0 <= i < |rs| && 0 <= j < |rs| && i != j && rs[i].end < rs[i].start && rs[j].start < rs[i].end
  }

  /** From the very end of the period to second 0: nothing. */
  predicate Hollow(r: Range, period: int) {
    r.start == period && r.end == 0
  }

  /** The overlap test on those ranges that hold a second at all. */
  predicate SolidOverlap(rs: seq<Range>, period: int) {
    exists i, j :: 0 <= i < |rs| && 0 <= j < |rs| && i != j
      && !Hollow(rs[i], period) && !Hollow(rs[j], period) && Clash(rs[i], rs[j], period)
  }

  /** Two ranges share a second if and only if an overlap of ranges that are not
      hollow is reported, or one range runs past the end of the period and into
      another: the test unrolls each range once and does not see the second kind. */
  lemma OverlapMeaning(rs: seq<Range>, period: int)
    requires Proper(rs, period)
    ensures Shares(rs, period) <==> SolidOverlap(rs, period) || RunsInto(rs)
    ensures (forall i :: 0 <= i < |rs| ==> !Hollow(rs[i], period)) ==> (SolidOverlap(rs, period) <==> Overlaps(rs, period))
  {
    forall i, j | 0 <= i < |rs| && 0 <= j < |rs| && i != j
      ensures !Hollow(rs[i], period) && !Hollow(rs[j], period) && Clash(rs[i], rs[j], period) ==> Shares(rs, period)
      ensures rs[i].end < rs[i].start && rs[j].start < rs[i].end ==> Shares(rs, period)
    {
      ClashShares(rs[i], rs[j], period);
    }
    forall i, j, t | 0 <= i < |rs| && 0 <= j < |rs| && i != j && 0 <= t < period && InRange(rs[i], t) && InRange(rs[j], t)
      ensures SolidOverlap(rs, period) || RunsInto(rs)
    {
      SharedSecond(rs[i], rs[j], period, t);
    }
  }

  lemma ClashShares(a: Range, b: Range, period: int)
    requires Proper([a], period) && Proper([b], period)
    ensures !Hollow(a, period) && !Hollow(b, period) && Clash(a, b, period)
        ==> exists t :: 0 <= t < period && InRange(a, t) && InRange(b, t)
    ensures a.end < a.start && b.start < a.end ==> exists t :: 0 <= t < period && InRange(a, t) && InRange(b, t)
  {
    assert [a][0] == a && [b][0] == b;
    var t := if a.start < b.start then b.start else a.start;
    var t' := if t == period then 0 else t;
    assert !Hollow(a, period) && !Hollow(b, period) && Clash(a, b, period) ==> InRange(a, t') && InRange(b, t');
    assert a.end < a.start && b.start < a.end ==> InRange(a, b.start) && InRange(b, b.start);
  }

  lemma SharedSecond(a: Range, b: Range, period: int, t: int)
    requires Proper([a], period) && Proper([b], period) && 0 <= t < period && InRange(a, t) && InRange(b, t)
    ensures !Hollow(a, period) && !Hollow(b, period)
    ensures Clash(a, b, period) || (a.end < a.start && b.start < a.end) || (b.end < b.start && a.start < b.end)
  {
    assert [a][0] == a && [b][0] == b;
  }

  /** 22:00 to 2:00 and 1:00 to 3:00: the shared hour is not reported. */
  lemma OverlapMissed()
    ensures var rs, day := [Range(79200, 7200), Range(3600, 10800)], Period(false);
            Proper(rs, day) && !Overlaps(rs, day) && Shares(rs, day)
  {
    var rs, day := [Range(79200, 7200), Range(3600, 10800)], Period(false);
    assert rs[0].end < rs[0].start && rs[1].start < rs[0].end;
    OverlapMeaning(rs, day);
  }

  /** 24:00 to 0:00 and 22:00 to 2:00: an overlap is reported, and none is there. */
  lemma OverlapInvented()
    ensures var rs, day := [Range(86400, 0), Range(79200, 7200)], Period(false);
            Proper(rs, day) && Overlaps(rs, day) && !Shares(rs, day)
  {
    var rs, day := [Range(86400, 0), Range(79200, 7200)], Period(false);
    assert Clash(rs[0], rs[1], day);
    OverlapMeaning(rs, day);
  }

  // ---- The code on arrays --------------------------------------------------------------------

  /** The array holds `s`, ended by -1. */
  ghost predicate Holds(a: array<int>, s: seq<int>)
    reads a
  {
    |s| < a.Length && a[..|s|] == s && a[|s|] == -1 && forall x :: 0 <= x < |s| ==> s[x] >= 0
  }

  /** The array holds the ranges pair by pair, ended by -1. */
  ghost predicate HoldsRanges(a: array<int>, rs: seq<Range>)
    reads a
  {
    && a.Length == 2 * |rs| + 1 && a[2 * |rs|] == -1
    && forall i :: 0 <= i < |rs| ==> 0 <= a[2 * i] == rs[i].start && 0 <= a[2 * i + 1] == rs[i].end
  }

  /** Some range before `n`, or `n` itself against a range before `m`, clashes. */
  ghost predicate ClashBefore(rs: seq<Range>, period: int, n: nat, m: nat) {
    exists i, j :: 0 <= i < |rs| && 0 <= j < |rs| && i != j && (i < n || (i == n && j < m)) && Clash(rs[i], rs[j], period)
  }

  method FindOverlap(parsed: array<int>, ghost rs: seq<Range>, numPieces: nat, period: int) returns (found: bool)
    requires HoldsRanges(parsed, rs) && numPieces == |rs|
    ensures found == Overlaps(rs, period)
  {
    found := false;
    for i := 0 to numPieces
      invariant found == ClashBefore(rs, period, i, 0)
    {
      var start1, end1 := parsed[i * 2], parsed[i * 2 + 1];
      assert start1 == rs[i].start && end1 == rs[i].end;
      end1 := if end1 < start1 then end1 + period else end1;
      for j := 0 to numPieces
        invariant found == ClashBefore(rs, period, i, j)
      {
        if j != i {
          var start2, end2 := parsed[j * 2], parsed[j * 2 + 1];
          assert start2 == rs[j].start && end2 == rs[j].end;
          end2 := if end2 < start2 then end2 + period else end2;
          found := found || (start1 < end2 && end1 > start2);
          assert Clash(rs[i], rs[j], period) <==> start1 < end2 && end1 > start2;
        }
      }
    }
  }

  method SortRanges(parsed: array<int>, ghost rs: seq<Range>)
    requires HoldsRanges(parsed, rs)
    modifies parsed
    ensures HoldsRanges(parsed, SortFrom(rs, 0))
  {
    var sortedIndex := 0;
    ghost var i, cur := 0, rs;
    while parsed[sortedIndex] != -1
      invariant sortedIndex == 2 * i && i <= |cur| == |rs|
      invariant HoldsRanges(parsed, cur)
      invariant SortFrom(cur, i) == SortFrom(rs, 0)
      decreases |cur| - i
    {
      assert i < |cur|;
      var nextStartIndex := SmallestStart(parsed, sortedIndex, cur, i);
      ghost var best := MinStart(cur, i, i);
      SwapInArray(parsed, sortedIndex, nextStartIndex, cur, i, best);
      cur := Swap(cur, i, best);
      sortedIndex := sortedIndex + 2;
      i := i + 1;
    }
  }

  /** The inner loop of the sort. */
  method SmallestStart(parsed: array<int>, sortedIndex: nat, ghost cur: seq<Range>, ghost i: nat) returns (nextStartIndex: int)
    requires HoldsRanges(parsed, cur) && i < |cur| && sortedIndex == 2 * i
    ensures nextStartIndex == 2 * MinStart(cur, i, i)
  {
    var nextStart, testIndex := -1, sortedIndex;
    nextStartIndex := -1;
    ghost var j, best := i, i;
    while parsed[testIndex] != -1
      invariant testIndex == 2 * j && i <= j <= |cur| && 0 <= best < |cur|
      invariant j == i ==> nextStart == -1
      invariant j > i ==> nextStart == cur[best].start && nextStartIndex == 2 * best && nextStart >= 0
      invariant MinStart(cur, j, best) == MinStart(cur, i, i)
      decreases |cur| - j
    {
      assert j < |cur|;
      assert parsed[testIndex] == cur[j].start;
      if nextStart < 0 || nextStart > parsed[testIndex] {
        nextStart, nextStartIndex, best := parsed[testIndex], testIndex, j;
      }
      testIndex := testIndex + 2;
      j := j + 1;
    }
  }

  method SwapInArray(parsed: array<int>, a: nat, b: nat, ghost cur: seq<Range>, ghost i: nat, ghost k: nat)
    requires HoldsRanges(parsed, cur) && i < |cur| && k < |cur| && a == 2 * i && b == 2 * k
    modifies parsed
    ensures HoldsRanges(parsed, Swap(cur, i, k))
  {
    ghost var was := parsed[..];
    var tmp1, tmp2 := parsed[b], parsed[b + 1];
    parsed[b] := parsed[a];
    parsed[b + 1] := parsed[a + 1];
    parsed[a] := tmp1;
    parsed[a + 1] := tmp2;
    forall x | 0 <= x < |cur| ensures 0 <= parsed[2 * x] == Swap(cur, i, k)[x].start && 0 <= parsed[2 * x + 1] == Swap(cur, i, k)[x].end {
      assert was[2 * x] == cur[x].start && was[2 * x + 1] == cur[x].end;
    }
  }

  /** The values at the chosen indices. */
  ghost function Picked(s: seq<int>, idx: seq<int>): seq<int>
    requires forall x :: 0 <= x < |idx| ==> 0 <= idx[x] < |s|
  {
    seq(|idx|, x requires 0 <= x < |idx| => s[idx[x]])
  }

  /** `merge_adjacent_time_ranges`: note the boundaries to keep, then move them
      down in place. */
  method MergeAdjacent(ranges: array<int>, ghost s: seq<int>)
    requires Holds(ranges, s)
    modifies ranges
    ensures Holds(ranges, Merged(s))
  {
    assert forall x :: 0 <= x < |s| ==> ranges[x] == s[x];
    var length := 0;
    while ranges[length] != -1
      invariant length <= |s|
      decreases |s| - length
    {
      length := length + 1;
    }
    var indices := new int[length + 1];
    var count := ChooseKept(ranges, s, indices);
    MoveDown(ranges, s, indices, count);
  }

  method ChooseKept(ranges: array<int>, ghost s: seq<int>, indices: array<int>) returns (count: nat)
    requires Holds(ranges, s) && indices.Length == |s| + 1 && indices != ranges
    modifies indices
    ensures count <= |s| && indices[count] == -1
    ensures forall x :: 0 <= x < count ==> x <= indices[x] < |s|
    ensures Merged(s) == Picked(s, indices[..count])
  {
    hide Picked, MergedFrom, Kept;
    PickedNone(s);
    count := 0;
    var next := 0;
    while ranges[next] != -1
      invariant count <= next <= |s|
      invariant forall x :: 0 <= x < count ==> x <= indices[x] < |s|
      invariant Merged(s) == Picked(s, indices[..count]) + MergedFrom(s, next)
      decreases |s| - next
    {
      HeldAround(ranges, s, next);
      MergedStep(s, next);
      ghost var before := indices[..count];
      if next == 0 || ranges[next + 1] == -1 ||
         (ranges[next] != ranges[next - 1] && ranges[next] != ranges[next + 1]) {
        indices[count] := next;
        count := count + 1;
        assert indices[..count] == before + [next];
        PickedMore(s, before, next, MergedFrom(s, next + 1));
      }
      next := next + 1;
    }
    MergedEnd(s);
    ghost var chosen := indices[..count];
    indices[count] := -1;
    assert indices[..count] == chosen;
  }

  /** What the loop sees at `next`. */
  lemma HeldAround(ranges: array<int>, s: seq<int>, next: nat)
    requires Holds(ranges, s) && next <= |s| && ranges[next] != -1
    ensures next < |s| && (next > 0 ==> ranges[next - 1] == s[next - 1])
    ensures Kept(s, next) <==> next == 0 || ranges[next + 1] == -1 || (ranges[next] != ranges[next - 1] && ranges[next] != ranges[next + 1])
  {
    assert forall x :: 0 <= x < |s| ==> ranges[x] == ranges[..|s|][x] == s[x];
  }

  lemma MergedStep(s: seq<int>, i: nat)
    requires i < |s|
    ensures MergedFrom(s, i) == (if Kept(s, i) then [s[i]] else []) + MergedFrom(s, i + 1)
  {
  }

  lemma MergedEnd(s: seq<int>)
    ensures MergedFrom(s, |s|) == []
  {
  }

  lemma PickedNone(s: seq<int>)
    ensures Picked(s, []) == []
  {
  }

  lemma PickedMore(s: seq<int>, idx: seq<int>, i: nat, rest: seq<int>)
    requires i < |s| && forall x :: 0 <= x < |idx| ==> 0 <= idx[x] < |s|
    ensures forall x :: 0 <= x < |idx + [i]| ==> 0 <= (idx + [i])[x] < |s|
    ensures Picked(s, idx) + ([s[i]] + rest) == Picked(s, idx + [i]) + rest
  {
    assert Picked(s, idx + [i]) == Picked(s, idx) + [s[i]];
  }

  method MoveDown(ranges: array<int>, ghost s: seq<int>, indices: array<int>, count: nat)
    requires Holds(ranges, s) && indices.Length == |s| + 1 && indices != ranges
    requires count <= |s| && indices[count] == -1
    requires forall x :: 0 <= x < count ==> x <= indices[x] < |s|
    modifies ranges
    ensures Holds(ranges, Picked(s, indices[..count]))
  {
    ghost var was, idx := ranges[..], indices[..count];
    var next := 0;
    while indices[next] != -1
      invariant next <= count
      invariant forall x :: 0 <= x < next ==> ranges[x] == was[idx[x]]
      invariant forall x :: next <= x < ranges.Length ==> ranges[x] == was[x]
      decreases count - next
    {
      ranges[next] := ranges[indices[next]];
      next := next + 1;
    }
    assert forall x :: 0 <= x < |s| ==> was[x] == s[x];
    assert ranges[..count] == Picked(s, idx);
    Terminate(ranges, count, Picked(s, idx));
  }

  /** The tail of `parse_time_ranges`: copy the boundaries, split at the end of
      the period; the allocation of `length + 3` always suffices. */
  method Adjust(parsed: array<int>, ghost m: seq<int>, length: nat, period: int) returns (adjusted: array<int>)
    requires Holds(parsed, m) && length == |m| > 0 && period >= 0
    modifies parsed
    ensures fresh(adjusted) && adjusted.Length == |m| + 3 && Holds(adjusted, Adjusted(m, period))
  {
    hide Adjusted;
    HeldEnds(parsed, m);
    AdjustedShape(m, period);
    adjusted := new int[3 + length];
    ghost var head, front := [], m;
    var arIndex := 0;
    if parsed[length - 1] < parsed[0] {
      adjusted[0] := 0;
      adjusted[1] := parsed[length - 1];
      arIndex := arIndex + 2;
      parsed[length - 1] := -1;
      head, front := [0, m[|m| - 1]], m[..|m| - 1];
      assert parsed[..|front|] == front;
      assert adjusted[..arIndex] == head;
    }
    arIndex := CopyRest(parsed, front, adjusted, arIndex);
    ghost var copied := adjusted[..arIndex];
    if arIndex % 2 == 1 {
      adjusted[arIndex] := period;
      arIndex := arIndex + 1;
      assert adjusted[..arIndex] == copied + [period];
    }
    Terminate(adjusted, arIndex, Adjusted(m, period));
  }

  lemma HeldEnds(a: array<int>, s: seq<int>)
    requires Holds(a, s) && s != []
    ensures a[0] == s[0] && a[|s| - 1] == s[|s| - 1]
  {
    assert a[..|s|][0] == a[0] && a[..|s|][|s| - 1] == a[|s| - 1];
  }

  /** The boundaries in the order in which they are written. */
  lemma AdjustedShape(m: seq<int>, period: int)
    requires m != [] && period >= 0 && forall x :: 0 <= x < |m| ==> m[x] >= 0
    ensures var head := if m[|m| - 1] < m[0] then [0, m[|m| - 1]] else [];
            var front := if m[|m| - 1] < m[0] then m[..|m| - 1] else m;
            Adjusted(m, period) == head + front + if |head + front| % 2 == 1 then [period] else []
    ensures forall x :: 0 <= x < |Adjusted(m, period)| ==> Adjusted(m, period)[x] >= 0
  {
  }

  method Terminate(a: array<int>, n: nat, ghost s: seq<int>)
    requires n < a.Length && a[..n] == s && forall x :: 0 <= x < |s| ==> s[x] >= 0
    modifies a
    ensures Holds(a, s)
  {
    a[n] := -1;
    assert a[..n] == s;
  }

  method CopyRest(parsed: array<int>, ghost front: seq<int>, adjusted: array<int>, at: nat) returns (next: nat)
    requires Holds(parsed, front) && parsed != adjusted && at + |front| <= adjusted.Length
    modifies adjusted
    ensures next == at + |front| && adjusted[..next] == old(adjusted[..at]) + front
  {
    assert forall x :: 0 <= x < |front| ==> parsed[x] == front[x];
    ghost var head := adjusted[..at];
    var oldIndex := 0;
    next := at;
    while parsed[oldIndex] != -1
      invariant oldIndex <= |front| && next == at + oldIndex
      invariant adjusted[..next] == head + front[..oldIndex]
      decreases |front| - oldIndex
    {
      adjusted[next] := parsed[oldIndex];
      next := next + 1;
      oldIndex := oldIndex + 1;
    }
  }

  /** `parse_time_ranges`, from the parsed pairs on; null where the source
      returns NULL. */
  method ParseTimeRanges(parsed: array<int>, ghost rs: seq<Range>, numPieces: nat, weekly: bool) returns (r: array?<int>)
    requires HoldsRanges(parsed, rs) && numPieces == |rs|
    modifies parsed
    ensures var period := if weekly then 7 * 86400 else 86400;
      && (r == null <==> Canonical(rs, period) == None)
      && (r != null ==> fresh(r) && Holds(r, Canonical(rs, period).value))
  {
    var overlap := FindOverlap(parsed, rs, numPieces, Period(weekly));
    if overlap {
      return null;
    }
    SortRanges(parsed, rs);
    ghost var s := Flat(SortFrom(rs, 0));
    HoldsFlat(parsed, SortFrom(rs, 0));
    MergeAdjacent(parsed, s);
    ghost var m := Merged(s);
    assert forall x :: 0 <= x < |m| ==> parsed[x] == m[x];
    if parsed[0] == 0 && parsed[1] == Period(weekly) {
      return null;
    }
    var length := 0;
    while parsed[length] != -1
      invariant length <= |m|
      decreases |m| - length
    {
      length := length + 1;
    }
    if length == 0 {
      return null;
    }
    r := Adjust(parsed, m, length, Period(weekly));
  }

  lemma HoldsFlat(a: array<int>, rs: seq<Range>)
    requires HoldsRanges(a, rs)
    ensures Holds(a, Flat(rs))
  {
    var s := Flat(rs);
    forall x | 0 <= x < |s| ensures a[x] == s[x] >= 0 {
      FlatAt(rs, x / 2);
      assert x == 2 * (x / 2) || x == 2 * (x / 2) + 1;
    }
  }
}
