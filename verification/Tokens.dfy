/** The tokenizer `split_on_separators`, which the quota tools use to read their
    backup files. */
module Tokens {

  // ---- The pieces of a line ------------------------------------------------------------------

  /** What follows the leading separators. */
  function Skip(s: string, seps: string): (r: string)
    ensures |r| <= |s| && (r != [] ==> r[0] !in seps)
  {
    if s == [] || s[0] !in seps then s else Skip(s[1..], seps)
  }

  /** How many characters at the start are not separators. */
  function RunLength(s: string, seps: string): (k: nat)
    ensures k <= |s|
    ensures k < |s| ==> s[k] in seps
    ensures s != [] && s[0] !in seps ==> k > 0
  {
    if s == [] || s[0] in seps then 0 else 1 + RunLength(s[1..], seps)
  }

  function First(s: string, seps: string): string {
    s[..RunLength(s, seps)]
  }

  function Rest(s: string, seps: string): (r: string)
    ensures s == First(s, seps) + r
    ensures r != [] ==> r[0] in seps
    ensures s != [] && s[0] !in seps ==> |r| < |s|
  {
    s[RunLength(s, seps)..]
  }

  /** The maximal separator-free runs, in order. */
  function Pieces(s: string, seps: string): seq<string>
    decreases |s|
  {
    var t := Skip(s, seps);
    if t == [] then [] else [First(t, seps)] + Pieces(Rest(t, seps), seps)
  }

  ghost predicate IsGap(g: string, seps: string) {
    forall i :: 0 <= i < |g| ==> g[i] in seps
  }

  ghost predicate IsPiece(p: string, seps: string) {
    p != [] && forall i :: 0 <= i < |p| ==> p[i] !in seps
  }

  lemma {:induction false} SkipGap(g: string, s: string, seps: string)
    requires IsGap(g, seps)
    ensures Skip(g + s, seps) == Skip(s, seps)
  {
    if g == [] {
      assert g + s == s;
    } else {
      assert (g + s)[1..] == g[1..] + s;
      SkipGap(g[1..], s, seps);
    }
  }

  /** What is skipped is a gap. */
  lemma {:induction false} SkipIsGap(s: string, seps: string) returns (gap: string)
    ensures s == gap + Skip(s, seps) && IsGap(gap, seps)
  {
    if s == [] || s[0] !in seps {
      gap := [];
    } else {
      var g := SkipIsGap(s[1..], seps);
      gap := [s[0]] + g;
    }
  }

  lemma {:induction false} RunOf(p: string, s: string, seps: string)
    requires (forall i :: 0 <= i < |p| ==> p[i] !in seps) && (s == [] || s[0] in seps)
    ensures RunLength(p + s, seps) == |p|
  {
    if p == [] {
      assert p + s == s;
    } else {
      assert (p + s)[1..] == p[1..] + s;
      RunOf(p[1..], s, seps);
    }
  }

  lemma {:induction false} RunIsPiece(s: string, seps: string)
    ensures forall i :: 0 <= i < RunLength(s, seps) ==> s[i] !in seps
  {
    if s != [] && s[0] !in seps {
      RunIsPiece(s[1..], seps);
      assert forall i :: 1 <= i < |s| ==> s[i] == s[1..][i - 1];
    }
  }

  /** A piece after a gap and before a separator or the end is found whole. */
  lemma PiecesNext(gap: string, piece: string, rest: string, seps: string)
    requires IsGap(gap, seps) && IsPiece(piece, seps) && (rest == [] || rest[0] in seps)
    ensures Pieces(gap + (piece + rest), seps) == [piece] + Pieces(rest, seps)
  {
    hide Pieces, RunLength;
    var s := piece + rest;
    SkipGap(gap, s, seps);
    assert Skip(s, seps) == s;
    RunOf(piece, rest, seps);
    assert First(s, seps) == piece && Rest(s, seps) == rest;
    PiecesUnfold(gap + s, seps);
  }

  lemma PiecesUnfold(s: string, seps: string)
    requires Skip(s, seps) != []
    ensures var t := Skip(s, seps); Pieces(s, seps) == [First(t, seps)] + Pieces(Rest(t, seps), seps)
  {
  }

  /** The string `s` is a gap, a piece and `rest`, and the piece cannot be made longer. */
  ghost predicate Leads(gap: string, piece: string, rest: string, s: string, seps: string) {
    && s == gap + (piece + rest) && IsGap(gap, seps) && IsPiece(piece, seps)
    && (rest == [] || rest[0] in seps)
  }

  /** `pieces` are, in order, all the maximal separator-free runs of `s`. */
  ghost predicate IsSplit(s: string, seps: string, pieces: seq<string>)
    decreases |pieces|
  {
    if pieces == [] then IsGap(s, seps)
    else exists gap, rest :: Leads(gap, pieces[0], rest, s, seps) && IsSplit(rest, seps, pieces[1..])
  }

  /** The pieces are the maximal runs. */
  lemma {:induction false} PiecesSplit(s: string, seps: string)
    ensures IsSplit(s, seps, Pieces(s, seps))
    decreases |s|
  {
    hide RunLength;
    var gap := SkipIsGap(s, seps);
    var t := Skip(s, seps);
    if t == [] {
      assert gap == s;
    } else {
      var rest := Rest(t, seps);
      PiecesUnfold(s, seps);
      PiecesSplit(rest, seps);
      RunIsPiece(t, seps);
      var pieces := Pieces(s, seps);
      assert pieces[0] == First(t, seps) && pieces[1..] == Pieces(rest, seps);
      assert Leads(gap, pieces[0], rest, s, seps);
    }
  }

  /** Nothing else is. */
  lemma {:induction false} SplitUnique(s: string, seps: string, pieces: seq<string>)
    requires IsSplit(s, seps, pieces)
    ensures pieces == Pieces(s, seps)
    decreases |pieces|
  {
    hide Pieces, IsGap, IsPiece, Skip;
    if pieces == [] {
      GapOnly(s, seps);
    } else {
      var gap, rest :| Leads(gap, pieces[0], rest, s, seps) && IsSplit(rest, seps, pieces[1..]);
      SplitUnique(rest, seps, pieces[1..]);
      PiecesNext(gap, pieces[0], rest, seps);
      assert pieces == [pieces[0]] + pieces[1..];
    }
  }

  lemma GapOnly(s: string, seps: string)
    requires IsGap(s, seps)
    ensures Pieces(s, seps) == []
  {
    assert s + [] == s;
    SkipGap(s, [], seps);
  }

  // ---- A limit on the pieces -------------------------------------------------------------------

  function Count(s: string, seps: string): nat {
    if s == [] then 0 else (if s[0] in seps then 1 else 0) + Count(s[1..], seps)
  }

  lemma {:induction false} CountSkip(s: string, seps: string)
    ensures Count(Skip(s, seps), seps) <= Count(s, seps)
    ensures s != [] && s[0] in seps ==> Count(Skip(s, seps), seps) < Count(s, seps)
  {
    if s != [] && s[0] in seps {
      CountSkip(s[1..], seps);
    }
  }

  lemma {:induction false} CountRest(s: string, seps: string)
    ensures Count(Rest(s, seps), seps) == Count(s, seps)
  {
    if s == [] || s[0] in seps {
      assert Rest(s, seps) == s;
    } else {
      CountRest(s[1..], seps);
      assert Rest(s, seps) == Rest(s[1..], seps);
    }
  }

  /** The pieces when at most `left` are wanted; `whole` puts all the rest of
      the line into the last of them. */
  function Limited(s: string, seps: string, left: nat, whole: bool): seq<string>
    decreases left
  {
    var t := Skip(s, seps);
    if t == [] || left == 0 then []
    else if left == 1 && whole then [t]
    else [First(t, seps)] + Limited(Rest(t, seps), seps, left - 1, whole)
  }

  /** Unless the last piece is to be whole, the limit keeps the first pieces. */
  lemma {:induction false} LimitedPieces(s: string, seps: string, left: nat)
    ensures Limited(s, seps, left, false)
         == if left <= |Pieces(s, seps)| then Pieces(s, seps)[..left] else Pieces(s, seps)
    decreases left
  {
    hide Skip, First, Rest;
    var t := Skip(s, seps);
    if t != [] && left > 0 {
      LimitedPieces(Rest(t, seps), seps, left - 1);
    }
  }

  /** Otherwise the last piece that is wanted goes on to the end of the line. */
  lemma {:induction false} LimitedWhole(s: string, seps: string, left: nat) returns (before: string)
    ensures var ps, r := Pieces(s, seps), Limited(s, seps, left, true);
      if left == 0 then r == []
      else if |ps| < left then r == ps
      else
        && |r| == left && r[..left - 1] == ps[..left - 1]
        && s == before + r[left - 1] && r[left - 1] != [] && r[left - 1][0] !in seps
        && Pieces(r[left - 1], seps) == ps[left - 1..]
    decreases left
  {
    hide First, Rest;
    var gap := SkipIsGap(s, seps);
    var t := Skip(s, seps);
    before := gap;
    if t != [] && left > 1 {
      var rest := Rest(t, seps);
      var b := LimitedWhole(rest, seps, left - 1);
      before := gap + (First(t, seps) + b);
      PiecesUnfold(s, seps);
      var ps, r := Pieces(s, seps), Limited(s, seps, left, true);
      assert ps[1..] == Pieces(rest, seps) && r[1..] == Limited(rest, seps, left - 1, true);
      if |ps| >= left {
        assert r[left - 1] == r[1..][left - 2] && ps[left - 1..] == ps[1..][left - 2..];
        assert r[..left - 1] == [r[0]] + r[1..][..left - 2] && ps[..left - 1] == [ps[0]] + ps[1..][..left - 2];
        Joined(gap, First(t, seps), b, r[left - 1]);
      }
    } else if t != [] && left == 1 {
      SkipAgain(t, seps);
      PiecesUnfold(s, seps);
      PiecesUnfold(t, seps);
      assert Pieces(s, seps)[0..] == Pieces(s, seps);
    }
  }

  lemma SkipAgain(t: string, seps: string)
    requires t != [] && t[0] !in seps
    ensures Skip(t, seps) == t
  {
  }

  lemma Joined(a: string, b: string, c: string, d: string)
    ensures a + (b + (c + d)) == a + (b + c) + d
  {
  }

  /** One more than the number of separators is room for every piece, and then
      the last piece is the same whole or not. */
  lemma {:induction false} CountEnough(s: string, seps: string, left: nat, whole: bool)
    requires left > Count(Skip(s, seps), seps)
    ensures Limited(s, seps, left, whole) == Pieces(s, seps)
    decreases left
  {
    hide Skip, First, Rest, Count;
    var t := Skip(s, seps);
    if t != [] {
      var rest := Rest(t, seps);
      CountRest(t, seps);
      CountSkip(rest, seps);
      if rest == [] {
        assert t == First(t, seps);
      } else {
        CountEnough(rest, seps, left - 1, whole);
      }
    }
  }

  // ---- The splitter ----------------------------------------------------------------------------

  method SkipSeparators(line: string, seps: string, from: nat) returns (start: nat)
    requires from <= |line|
    ensures from <= start <= |line| && line[start..] == Skip(line[from..], seps)
  {
    start := from;
    while start < |line| && line[start] in seps
      invariant from <= start <= |line|
      invariant Skip(line[start..], seps) == Skip(line[from..], seps)
    {
      assert line[start..][1..] == line[start + 1..];
      start := start + 1;
    }
  }

  method FindSeparator(line: string, seps: string, from: nat) returns (end: nat)
    requires from <= |line|
    ensures end == from + RunLength(line[from..], seps)
  {
    end := from;
    while end < |line| && line[end] !in seps
      invariant from <= end <= |line|
      invariant from + RunLength(line[from..], seps) == end + RunLength(line[end..], seps)
    {
      assert line[end..][1..] == line[end + 1..];
      end := end + 1;
    }
  }

  method CountSeparators(line: string, seps: string) returns (count: nat)
    ensures count == Count(line, seps)
  {
    count := 0;
    assert line[0..] == line;
    for i := 0 to |line|
      invariant count + Count(line[i..], seps) == Count(line, seps)
    {
      assert line[i..][1..] == line[i + 1..];
      if line[i] in seps {
        count := count + 1;
      }
    }
  }

  /** `split_on_separators`; a negative limit stands for the bound found by
      counting the separators. */
  method SplitOnSeparators(line: string, seps: string, maxPieces: int, whole: bool) returns (pieces: seq<string>)
    requires seps != []
    ensures maxPieces < 0 ==> pieces == Pieces(line, seps)
    ensures maxPieces >= 0 ==> pieces == Limited(line, seps, maxPieces, whole) && |pieces| <= maxPieces
  {
    var limit := maxPieces;
    if maxPieces < 0 {
      var separators := CountSeparators(line, seps);
      limit := separators + 1;
      CountSkip(line, seps);
      CountEnough(line, seps, limit, whole);
    }
    pieces := SplitUpTo(line, seps, limit, whole);
  }

  method SplitUpTo(line: string, seps: string, limit: nat, whole: bool) returns (pieces: seq<string>)
    ensures pieces == Limited(line, seps, limit, whole) && |pieces| <= limit
  {
    hide Skip, RunLength, Limited;
    pieces := [];
    var start := SkipSeparators(line, seps, 0);
    assert line[0..] == line;
    LimitedSkip(line, seps, limit, whole);
    while start < |line| && |pieces| < limit
      invariant start <= |line| && |pieces| <= limit
      invariant Skip(line[start..], seps) == line[start..]
      invariant Limited(line, seps, limit, whole) == pieces + Limited(line[start..], seps, limit - |pieces|, whole)
      decreases |line| - start
    {
      var end := FindSeparator(line, seps, start);
      LimitedStep(line, start, end, seps, limit - |pieces|, whole);
      if |pieces| + 1 < limit || !whole {
        pieces := pieces + [line[start..end]];
      } else {
        pieces := pieces + [line[start..]];
      }
      start := SkipSeparators(line, seps, end);
    }
    LimitedDone(line[start..], seps, limit - |pieces|, whole);
  }

  lemma LimitedStep(line: string, start: nat, end: nat, seps: string, left: nat, whole: bool)
    requires start < |line| && Skip(line[start..], seps) == line[start..] && left > 0
    requires end == start + RunLength(line[start..], seps)
    ensures start < end <= |line|
    ensures Skip(Skip(line[end..], seps), seps) == Skip(line[end..], seps)
    ensures Limited(line[start..], seps, left, whole)
         == [if left > 1 || !whole then line[start..end] else line[start..]]
          + Limited(Skip(line[end..], seps), seps, left - 1, whole)
  {
    var s := line[start..];
    assert First(s, seps) == line[start..end] && Rest(s, seps) == line[end..];
    LimitedSkip(line[end..], seps, left - 1, whole);
  }

  lemma LimitedDone(s: string, seps: string, left: nat, whole: bool)
    requires s == [] || left == 0
    ensures Limited(s, seps, left, whole) == []
  {
  }

  /** Leading separators do not matter. */
  lemma LimitedSkip(s: string, seps: string, left: nat, whole: bool)
    ensures Skip(Skip(s, seps), seps) == Skip(s, seps)
    ensures Limited(Skip(s, seps), seps, left, whole) == Limited(s, seps, left, whole)
  {
  }
}
