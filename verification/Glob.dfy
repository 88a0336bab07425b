/** The route matcher of the web server: `match_single` walks a pattern with
    `?`, `*` and `**` over a request path and remembers only its last star. */
module Glob {

  /** A C string: the terminator is not part of the value. */
  type Text = s: string | '\0' !in s

  /** What reading the string at index `i` yields; the terminator past its end. */
  function At(s: Text, i: nat): char {
    if i < |s| then s[i] else '\0'
  }

  // ---- The reference relation ------------------------------------------------

  /** The index behind the `*` or `**` that starts at `i`. */
  function StarEnd(pat: string, i: nat): (k: nat)
    requires i < |pat| && pat[i] == '*'
    ensures i < k <= |pat| && k <= i + 2
    ensures k == i + 2 <==> i + 1 < |pat| && pat[i + 1] == '*'
  {
    if i + 1 < |pat| && pat[i + 1] == '*' then i + 2 else i + 1
  }

  ghost predicate NoSlash(str: Text, from: nat, to: nat)
    requires to <= |str|
  {
    forall x :: from <= x < to ==> str[x] != '/'
  }

  /** A star that starts at `i` may swallow `str[j..e]`. */
  ghost predicate Swallows(pat: string, i: nat, str: Text, j: nat, e: nat)
    requires i < |pat| && pat[i] == '*'
  {
    j <= e <= |str| && (StarEnd(pat, i) == i + 2 || NoSlash(str, j, e))
  }

  /** The pattern from `i` on matches the whole string from `j` on. A star at
      the very end of the pattern matches any remainder. */
  ghost predicate Matches(pat: string, i: nat, str: Text, j: nat)
    requires i <= |pat| && j <= |str|
    decreases |pat| - i
  {
    if i == |pat| then j == |str|
    else if pat[i] == '*' then
      StarEnd(pat, i) == |pat| ||
      exists e: nat :: Swallows(pat, i, str, j, e) && Matches(pat, StarEnd(pat, i), str, e)
    else
      j < |str| && (pat[i] == '?' || pat[i] == str[j]) && Matches(pat, i + 1, str, j + 1)
  }

  // ---- The matcher -----------------------------------------------------------

  /** The saved star: the pattern index behind it, the string index its match
      currently ends at, and whether it is a `**`. */
  datatype Backtrack = NoStar | Star(pat: nat, str: nat, double: bool)

  predicate ValidState(pat: string, str: Text, p: nat, s: nat, b: Backtrack) {
    p <= |pat| && s <= |str| && (b.Star? ==> b.pat <= p && b.str <= |str|)
  }

  /** The matcher's verdict from a given state on. */
  function Run(pat: string, str: Text, p: nat, s: nat, b: Backtrack): bool
    requires ValidState(pat, str, p, s, b)
    decreases if b.NoStar? then |pat| + 1 else |pat| - b.pat, if b.NoStar? then 0 else |str| - b.str, |pat| - p
  {
    if p < |pat| && pat[p] == '*' then
      var k := StarEnd(pat, p);
      k == |pat| || Run(pat, str, k, s, Star(k, s, k == p + 2))
    else if p < |pat| && pat[p] == '?' && At(str, s) != '\0' then
      Run(pat, str, p + 1, s + 1, b)
    else if p < |pat| && pat[p] != '?' && pat[p] == At(str, s) then
      At(str, s) != '\0' && Run(pat, str, p + 1, s + 1, b)
    else if p == |pat| && At(str, s) == '\0' then
      true
    else
      Retry(pat, str, b)
  }

  /** The verdict after a mismatch: let the saved star swallow one more character. */
  function Retry(pat: string, str: Text, b: Backtrack): bool
    requires b.Star? ==> b.pat <= |pat| && b.str <= |str|
    decreases if b.NoStar? then |pat| + 1 else |pat| - b.pat, if b.NoStar? then 0 else |str| - b.str, 0, 0
  {
    b.Star? && At(str, b.str) != '\0' && (b.double || At(str, b.str) != '/') &&
    Run(pat, str, b.pat, b.str + 1, b.(str := b.str + 1))
  }

  predicate Accepts(pat: string, str: Text) {
    Run(pat, str, 0, 0, NoStar)
  }

  /** `match_single`: the loop decides exactly what `Accepts` says. */
  method MatchSingle(pat: string, str: Text) returns (r: bool)
    ensures r == Accepts(pat, str)
  {
    var p, s := 0, 0;
    var hasStar, lastStarPat, lastStarStr, doubleStar := false, 0, 0, false;
    while true
      invariant p <= |pat| && s <= |str|
      invariant hasStar ==> lastStarPat <= p && lastStarStr <= |str|
      invariant Accepts(pat, str) ==
                Run(pat, str, p, s, if hasStar then Star(lastStarPat, lastStarStr, doubleStar) else NoStar)
      decreases if !hasStar then |pat| + 1 else |pat| - lastStarPat, if !hasStar then 0 else |str| - lastStarStr, |pat| - p
    {
      if p < |pat| && pat[p] == '*' {
        p := p + 1;
        doubleStar := false;
        if p < |pat| && pat[p] == '*' {
          p := p + 1;
          doubleStar := true;
        }
        hasStar, lastStarPat, lastStarStr := true, p, s;
        if p >= |pat| {
          return true;
        }
        continue;
      }
      if p < |pat| && pat[p] == '?' {
        if At(str, s) != '\0' {
          p, s := p + 1, s + 1;
          continue;
        }
      } else {
        if p < |pat| && pat[p] == At(str, s) {
          if At(str, s) == '\0' {
            return false;
          }
          p, s := p + 1, s + 1;
          continue;
        }
        if p >= |pat| && At(str, s) == '\0' {
          return true;
        }
      }
      if !hasStar {
        return false;
      }
      if At(str, lastStarStr) == '\0' {
        return false;
      }
      if !doubleStar && At(str, lastStarStr) == '/' {
        return false;
      }
      lastStarStr := lastStarStr + 1;
      p, s := lastStarPat, lastStarStr;
    }
  }

  // ---- Soundness, for every pattern ------------------------------------------

  /** Every acceptance is justified: from any state of the matcher, accepting
      means that the rest matches here or further along the saved star. */
  lemma {:induction false} RunSound(pat: string, str: Text, p: nat, s: nat, b: Backtrack)
    requires ValidState(pat, str, p, s, b)
    requires Run(pat, str, p, s, b)
    ensures Matches(pat, p, str, s) || Later(pat, str, b)
    decreases if b.NoStar? then |pat| + 1 else |pat| - b.pat, if b.NoStar? then 0 else |str| - b.str, |pat| - p
  {
    if p < |pat| && pat[p] == '*' {
      var k := StarEnd(pat, p);
      if k < |pat| {
        var b' := Star(k, s, k == p + 2);
        RunSound(pat, str, k, s, b');
        if Matches(pat, k, str, s) {
          assert Swallows(pat, p, str, s, s);
        } else {
          var e: nat :| LaterAt(pat, str, b', e);
          assert Swallows(pat, p, str, s, e);
        }
      }
    } else if p < |pat| && (pat[p] == '?' || pat[p] == At(str, s)) && At(str, s) != '\0' {
      RunSound(pat, str, p + 1, s + 1, b);
    } else if p == |pat| && At(str, s) == '\0' {
    } else {
      var b' := b.(str := b.str + 1);
      RunSound(pat, str, b.pat, b.str + 1, b');
      if Matches(pat, b.pat, str, b.str + 1) {
        assert LaterAt(pat, str, b, b.str + 1);
      } else {
        var e: nat :| LaterAt(pat, str, b', e);
        assert LaterAt(pat, str, b, e);
      }
    }
  }

  /** The rest behind the saved star matches from `e`, which the star reaches
      by swallowing at least one more character. */
  ghost predicate LaterAt(pat: string, str: Text, b: Backtrack, e: nat)
    requires b.Star? ==> b.pat <= |pat|
  {
    b.Star? && b.str < e <= |str| && (b.double || NoSlash(str, b.str, e)) && Matches(pat, b.pat, str, e)
  }

  ghost predicate Later(pat: string, str: Text, b: Backtrack)
    requires b.Star? ==> b.pat <= |pat|
  {
    exists e: nat :: LaterAt(pat, str, b, e)
  }

  lemma AcceptsSound(pat: string, str: Text)
    requires Accepts(pat, str)
    ensures Matches(pat, 0, str, 0)
  {
    RunSound(pat, str, 0, 0, NoStar);
  }

  // ---- Completeness ----------------------------------------------------------

  /** What a star finds before it: no earlier star; a `*` with only literals
      since; or a `**`, or a `*` followed by some `?`. */
  datatype Prior = NoneYet | Confined | Loose

  /** The segment at `k` is `?...?` or `/?...?` and another star follows it:
      starting the search for it earlier can never hurt. */
  predicate Skippable(pat: string, k: nat) {
    exists m :: k < m < |pat| && SkippableTo(pat, k, m)
  }

  predicate SkippableTo(pat: string, k: nat, m: nat)
    requires k < m < |pat|
  {
    pat[m] == '*' && (pat[k] == '?' || pat[k] == '/') && forall x :: k < x < m ==> pat[x] == '?'
  }

  /** The prior context behind a character that is no star: a `?` lets a `*` slip,
      and a `/` that only literals part from a `*` can only be the first `/` that
      the `*` meets, which pins it down. */
  function Past(c: char, prior: Prior): Prior {
    if prior != Confined then prior else if c == '?' then Loose else if c == '/' then NoneYet else Confined
  }

  /** The patterns on which one backtrack point is enough. */
  predicate Settled(pat: string, i: nat, prior: Prior)
    requires i <= |pat|
    decreases |pat| - i
  {
    if i == |pat| then true
    else if pat[i] == '*' then
      var k := StarEnd(pat, i);
      k == |pat| ||
      if k == i + 2 then Settled(pat, k, Loose)
      else if prior != Loose then Settled(pat, k, Confined)
      else Skippable(pat, k) && Settled(pat, k, Loose)
    else
      Settled(pat, i + 1, Past(pat[i], prior))
  }

  /** The star-free stretch `pat[i..m]` matches `str` at `j`. */
  ghost predicate Fits(pat: string, i: nat, m: nat, str: Text, j: nat)
  {
    i <= m <= |pat| && j + (m - i) <= |str| &&
    forall x :: i <= x < m ==> pat[x] != '*' && (pat[x] == '?' || pat[x] == str[j + (x - i)])
  }

  lemma {:induction false} MatchesSegment(pat: string, i: nat, m: nat, str: Text, j: nat)
    requires i <= m <= |pat| && j <= |str|
    requires forall x :: i <= x < m ==> pat[x] != '*'
    ensures Matches(pat, i, str, j) <==> Fits(pat, i, m, str, j) && Matches(pat, m, str, j + (m - i))
    decreases m - i
  {
    if i < m {
      if j < |str| {
        MatchesSegment(pat, i + 1, m, str, j + 1);
        if Fits(pat, i + 1, m, str, j + 1) && (pat[i] == '?' || pat[i] == str[j]) {
          assert Fits(pat, i, m, str, j);
        }
        if Fits(pat, i, m, str, j) {
          forall x | i + 1 <= x < m ensures pat[x] == '?' || pat[x] == str[j + 1 + (x - i - 1)] {
            assert j + 1 + (x - i - 1) == j + (x - i);
          }
        }
      }
    }
  }

  /** The prior context after walking the star-free stretch `pat[i..m]`. */
  function After(pat: string, i: nat, m: nat, prior: Prior): (r: Prior)
    requires i <= m <= |pat|
    ensures prior != Confined ==> r == prior
    ensures prior == Confined && r == Confined ==> forall x :: i <= x < m ==> pat[x] != '?'
    decreases m - i
  {
    if i == m then prior else After(pat, i + 1, m, Past(pat[i], prior))
  }

  /** The first `/` behind a confined star, with nothing but literals before it. */
  ghost predicate Pins(pat: string, i: nat, x: nat) {
    i <= x < |pat| && pat[x] == '/' && forall y :: i <= y < x ==> pat[y] != '?'
  }

  lemma {:induction false} Pinned(pat: string, i: nat, m: nat) returns (x: nat)
    requires i <= m <= |pat| && After(pat, i, m, Confined) == NoneYet
    ensures x < m && Pins(pat, i, x)
    decreases m - i
  {
    x := i;
    if pat[i] != '/' {
      x := Pinned(pat, i + 1, m);
    }
  }

  lemma {:induction false} SettledAlong(pat: string, i: nat, m: nat, prior: Prior)
    requires i <= m <= |pat|
    requires forall x :: i <= x < m ==> pat[x] != '*'
    ensures Settled(pat, i, prior) == Settled(pat, m, After(pat, i, m, prior))
    decreases m - i
  {
    if i < m {
      SettledAlong(pat, i + 1, m, Past(pat[i], prior));
    }
  }

  /** A star with a loose prior is settled only if an earlier start is never worse. */
  lemma {:induction false} EarlierIsBetter(pat: string, i: nat, str: Text, j: nat, j': nat)
    requires i < |pat| && pat[i] == '*' && j <= j' <= |str|
    requires Settled(pat, i, Loose) && Matches(pat, i, str, j')
    ensures Matches(pat, i, str, j)
    decreases |pat| - i
  {
    var k := StarEnd(pat, i);
    if k < |pat| {
      var e': nat :| Swallows(pat, i, str, j', e') && Matches(pat, k, str, e');
      if k == i + 2 {
        assert Swallows(pat, i, str, j, e');
      } else {
        var m :| k < m < |pat| && SkippableTo(pat, k, m);
        MatchesSegment(pat, k, m, str, e');
        var e := if pat[k] == '?' then j else FirstSlash(str, j, e');
        SettledAlong(pat, k, m, Loose);
        assert After(pat, k, m, Loose) == Loose;
        EarlierIsBetter(pat, m, str, e + (m - k), e' + (m - k));
        forall x | k <= x < m ensures pat[x] != '*' && (pat[x] == '?' || pat[x] == str[e + (x - k)]) {
          if x == k && pat[k] == '/' {
            assert str[e' + (k - k)] == '/';
          }
        }
        assert Fits(pat, k, m, str, e);
        MatchesSegment(pat, k, m, str, e);
        assert Swallows(pat, i, str, j, e);
      }
    }
  }

  ghost function FirstSlash(str: Text, j: nat, e: nat): (r: nat)
    requires j <= e < |str| && str[e] == '/'
    ensures j <= r <= e && str[r] == '/' && NoSlash(str, j, r)
    decreases e - j
  {
    if str[j] == '/' then j else FirstSlash(str, j + 1, e)
  }

  /** If the same literal stretch fits at `j` and, across a slash-free gap, at
      `e`, then everything up to the end of the second copy is slash-free. */
  lemma {:induction false} OverlapNoSlash(pat: string, i: nat, m: nat, str: Text, j: nat, e: nat, x: nat)
    requires Fits(pat, i, m, str, j) && Fits(pat, i, m, str, e) && j < e
    requires forall y :: i <= y < m ==> pat[y] != '?'
    requires NoSlash(str, j, e)
    requires j <= x < e + (m - i)
    ensures str[x] != '/'
    decreases x
  {
    if e <= x {
      var t := x - e;
      assert pat[i + t] == str[e + (i + t - i)] == str[j + (i + t - i)];
      OverlapNoSlash(pat, i, m, str, j, e, j + t);
    }
  }

  /** A stretch that pins its star down fits in one place only. */
  lemma OnlyOnePlace(pat: string, i: nat, m: nat, str: Text, j: nat, e: nat)
    requires Fits(pat, i, m, str, j) && Fits(pat, i, m, str, e) && j <= e
    requires NoSlash(str, j, e) && After(pat, i, m, Confined) == NoneYet
    ensures j == e
  {
    var x := Pinned(pat, i, m);
    if j < e {
      assert Fits(pat, i, x + 1, str, j) && Fits(pat, i, x + 1, str, e);
      assert str[j + (x - i)] == '/';
      OverlapNoSlash(pat, i, x + 1, str, j, e, j + (x - i));
    }
  }

  /** The state of a run on a settled pattern, or on a path without slashes. */
  ghost predicate OnTrack(pat: string, str: Text, p: nat, s: nat, b: Backtrack, prior: Prior)
  {
    ValidState(pat, str, p, s, b) &&
    match b
    case NoStar => Settled(pat, p, NoneYet) || NoSlash(str, 0, |str|)
    case Star(sp, ss, double) =>
      && s == ss + (p - sp)
      && Fits(pat, sp, p, str, ss)
      && prior != NoneYet && (double ==> prior == Loose)
      && (Settled(pat, sp, prior) || NoSlash(str, 0, |str|))
  }

  /** The exchange argument: whatever a later choice of the old star could
      match, the new star can match from where it stands. */
  lemma StarTakesOver(pat: string, str: Text, p: nat, s: nat, b: Backtrack, prior: Prior)
    requires OnTrack(pat, str, p, s, b, prior)
    requires p < |pat| && pat[p] == '*'
    requires Later(pat, str, b)
    ensures Matches(pat, p, str, s)
  {
    var e: nat :| LaterAt(pat, str, b, e);
    var len := p - b.pat;
    MatchesSegment(pat, b.pat, p, str, e);
    SettledAlong(pat, b.pat, p, prior);
    var k := StarEnd(pat, p);
    if k < |pat| {
      var e2: nat :| Swallows(pat, p, str, e + len, e2) && Matches(pat, k, str, e2);
      if k == p + 2 || NoSlash(str, 0, |str|) {
        assert Swallows(pat, p, str, s, e2);
      } else if After(pat, b.pat, p, prior) == Loose {
        EarlierIsBetter(pat, p, str, s, e + len);
      } else if After(pat, b.pat, p, prior) == NoneYet {
        OnlyOnePlace(pat, b.pat, p, str, b.str, e);
        assert false;
      } else {
        forall x | s <= x < e2 ensures str[x] != '/' {
          if x < e + len {
            OverlapNoSlash(pat, b.pat, p, str, b.str, e, x);
          }
        }
        assert Swallows(pat, p, str, s, e2);
      }
    }
  }

  lemma {:induction false} RunComplete(pat: string, str: Text, p: nat, s: nat, b: Backtrack, prior: Prior)
    requires OnTrack(pat, str, p, s, b, prior)
    requires Matches(pat, p, str, s) || Later(pat, str, b)
    ensures Run(pat, str, p, s, b)
    decreases if b.NoStar? then |pat| + 1 else |pat| - b.pat, if b.NoStar? then 0 else |str| - b.str, |pat| - p
  {
    if p < |pat| && pat[p] == '*' {
      var k := StarEnd(pat, p);
      if k < |pat| {
        CompleteAtStar(pat, str, p, s, b, prior);
        var before := if b.NoStar? then NoneYet else After(pat, b.pat, p, prior);
        if b.Star? {
          SettledAlong(pat, b.pat, p, prior);
        }
        RunComplete(pat, str, k, s, Star(k, s, k == p + 2), if k == p + 2 || before == Loose then Loose else Confined);
      }
    } else if p < |pat| && s < |str| && (pat[p] == '?' || pat[p] == str[s]) {
      RunComplete(pat, str, p + 1, s + 1, b, prior);
    } else if p == |pat| && s == |str| {
    } else {
      var e: nat :| LaterAt(pat, str, b, e);
      MatchesSegment(pat, b.pat, p, str, e);
      var b' := b.(str := b.str + 1);
      if e > b.str + 1 {
        assert LaterAt(pat, str, b', e);
      }
      RunComplete(pat, str, b.pat, b.str + 1, b', prior);
    }
  }

  lemma CompleteAtStar(pat: string, str: Text, p: nat, s: nat, b: Backtrack, prior: Prior)
    requires OnTrack(pat, str, p, s, b, prior)
    requires p < |pat| && pat[p] == '*' && StarEnd(pat, p) < |pat|
    requires Matches(pat, p, str, s) || Later(pat, str, b)
    ensures var k := StarEnd(pat, p);
            Matches(pat, k, str, s) || Later(pat, str, Star(k, s, k == p + 2))
  {
    var k := StarEnd(pat, p);
    if !Matches(pat, p, str, s) {
      StarTakesOver(pat, str, p, s, b, prior);
    }
    var e: nat :| Swallows(pat, p, str, s, e) && Matches(pat, k, str, e);
    if e > s {
      assert LaterAt(pat, str, Star(k, s, k == p + 2), e);
    }
  }

  /** On a settled pattern, and for any pattern on a path without slashes, the
      matcher decides the reference relation. */
  lemma AcceptsExact(pat: string, str: Text)
    requires Settled(pat, 0, NoneYet) || '/' !in str
    ensures Accepts(pat, str) <==> Matches(pat, 0, str, 0)
  {
    if Matches(pat, 0, str, 0) {
      RunComplete(pat, str, 0, 0, NoStar, NoneYet);
    }
    if Accepts(pat, str) {
      AcceptsSound(pat, str);
    }
  }

  // ---- One backtrack point is not enough on any other `?`-free pattern ---------

  predicate Plain(pat: string) {
    '?' !in pat && '\0' !in pat
  }

  /** `i` is a `*` from which `m` segments `/`, each followed by another `*`,
      lead to a `*` whose segment may be missed by starting too early. */
  ghost predicate Stuck(pat: string, i: nat, m: nat)
    decreases m
  {
    && i + 1 < |pat| && pat[i] == '*' && pat[i + 1] != '*'
    && if m == 0 then !Skippable(pat, i + 1)
       else i + 2 < |pat| && pat[i + 1] == '/' && Stuck(pat, i + 2, m - 1)
  }

  /** The first star at or behind `i` is `i0`, and it is stuck. */
  ghost predicate PendingAt(pat: string, i: nat, i0: nat, m: nat) {
    i <= i0 && Stuck(pat, i0, m) && forall x :: i <= x < i0 ==> pat[x] != '*'
  }

  ghost predicate Pending(pat: string, i: nat) {
    exists i0: nat, m: nat :: PendingAt(pat, i, i0, m)
  }

  ghost function PendingStar(pat: string, i: nat): (r: (nat, nat))
    requires Pending(pat, i)
    ensures PendingAt(pat, i, r.0, r.1)
  {
    var i0: nat, m: nat :| PendingAt(pat, i, i0, m);
    (i0, m)
  }

  lemma PendingBack(pat: string, i: nat)
    requires i < |pat| && pat[i] != '*' && Pending(pat, i + 1)
    ensures Pending(pat, i)
  {
    var (i0, m) := PendingStar(pat, i + 1);
    assert PendingAt(pat, i, i0, m);
  }

  /** The characters of the pattern other than its stars. */
  ghost function Literals(pat: string, i: nat): (r: string)
    requires i <= |pat|
    ensures '\0' !in pat ==> '\0' !in r
    decreases |pat| - i
  {
    if i == |pat| then "" else (if pat[i] == '*' then "" else [pat[i]]) + Literals(pat, i + 1)
  }

  /** `?/?/...?/?`: no literal of a pattern can be `?`, and a `*` cannot pass a `/`. */
  ghost function Decoy(m: nat): (r: string)
    ensures '\0' !in r
  {
    seq(2 * m + 3, t => if t % 2 == 0 then '?' else '/')
  }

  /** What to append to a string that brought the matcher to pattern index `i`
      so that the whole matches and yet the matcher rejects it. */
  ghost function Misleading(pat: string, i: nat, prior: Prior): (r: string)
    requires i <= |pat| && Plain(pat) && !Settled(pat, i, prior)
    requires prior == Loose ==> !Pending(pat, i)
    ensures '\0' !in r
    decreases |pat| - i
  {
    if pat[i] != '*' then
      assert Pending(pat, i + 1) ==> Pending(pat, i) by { if Pending(pat, i + 1) { PendingBack(pat, i); } }
      [pat[i]] + Misleading(pat, i + 1, Past(pat[i], prior))
    else if StarEnd(pat, i) == i + 2 then
      if Pending(pat, i + 2) then
        var (i0, m) := PendingStar(pat, i + 2);
        pat[i + 2..i0] + Decoy(m) + Literals(pat, i + 2)
      else Misleading(pat, i + 2, Loose)
    else if prior != Loose then
      Misleading(pat, i + 1, Confined)
    else
      SkippedStar(pat, i);
      Misleading(pat, i + 1, Loose)
  }

  lemma SkippedStar(pat: string, i: nat)
    requires i + 1 < |pat| && Plain(pat) && pat[i] == '*' && pat[i + 1] != '*'
    ensures Pending(pat, i) || (Skippable(pat, i + 1) && !Pending(pat, i + 1))
  {
    if !Skippable(pat, i + 1) {
      assert PendingAt(pat, i, i, 0);
    } else if Pending(pat, i + 1) {
      var n :| i + 1 < n < |pat| && SkippableTo(pat, i + 1, n);
      assert pat[i + 1] in pat && pat[i + 2] in pat;
      assert n == i + 2;
      var (i0, m) := PendingStar(pat, i + 1);
      assert Stuck(pat, i, m + 1);
      assert PendingAt(pat, i, i, m + 1);
    }
  }

  lemma SlashStar(pat: string, k: nat)
    requires k + 1 < |pat| && pat[k] == '/'
    ensures pat[k + 1] == '*' ==> Skippable(pat, k)
  {
    if pat[k + 1] == '*' {
      assert SkippableTo(pat, k, k + 1);
    }
  }

  lemma {:induction false} LiteralsMatch(pat: string, i: nat, str: Text, j: nat)
    requires i <= |pat| && j <= |str| && Plain(pat) && str[j..] == Literals(pat, i)
    ensures Matches(pat, i, str, j)
    decreases |pat| - i
  {
    hide Matches;
    if i == |pat| {
      MatchesEnd(pat, str, j);
    } else if pat[i] == '*' {
      LiteralsMatch(pat, StarEnd(pat, i), str, j);
      MatchesStar(pat, i, str, j);
    } else {
      assert str[j] == str[j..][0];
      assert str[j + 1..] == str[j..][1..];
      LiteralsMatch(pat, i + 1, str, j + 1);
      MatchesLiteral(pat, i, str, j);
    }
  }

  lemma MatchesEnd(pat: string, str: Text, j: nat)
    requires j <= |str| && str[j..] == ""
    ensures Matches(pat, |pat|, str, j)
  {
  }

  lemma MatchesLiteral(pat: string, i: nat, str: Text, j: nat)
    requires i < |pat| && pat[i] != '*' && j < |str| && str[j] == pat[i] && Matches(pat, i + 1, str, j + 1)
    ensures Matches(pat, i, str, j)
  {
  }

  lemma MatchesStar(pat: string, i: nat, str: Text, j: nat)
    requires i < |pat| && pat[i] == '*' && j <= |str| && Matches(pat, StarEnd(pat, i), str, j)
    ensures Matches(pat, i, str, j)
  {
    assert Swallows(pat, i, str, j, j);
  }

  lemma {:induction false} RunLiterals(pat: string, i: nat, m: nat, str: Text, j: nat, b: Backtrack)
    requires Plain(pat) && ValidState(pat, str, i, j, b) && Fits(pat, i, m, str, j)
    ensures Run(pat, str, i, j, b) == Run(pat, str, m, j + (m - i), b)
    decreases m - i
  {
    if i < m {
      assert pat[i] == str[j + (i - i)];
      forall x | i + 1 <= x < m ensures pat[x] == str[j + 1 + (x - i - 1)] {
        assert j + 1 + (x - i - 1) == j + (x - i);
      }
      RunLiterals(pat, i + 1, m, str, j + 1, b);
    }
  }

  lemma {:induction false} RunStuck(pat: string, i: nat, m: nat, str: Text, s: nat, b: Backtrack)
    requires Plain(pat) && Stuck(pat, i, m) && ValidState(pat, str, i, s, b)
    requires Decoy(m) <= str[s..]
    ensures !Run(pat, str, i, s, b)
    decreases m
  {
    var k, d := i + 1, Decoy(m);
    assert d[0] == '?' && d[1] == '/' && d[2] == '?';
    assert str[s] == d[0] && str[s + 1] == d[1] && str[s + 2] == d[2];
    assert pat[k] in pat;
    var b2 := Star(k, s + 1, false);
    assert Run(pat, str, i, s, b) == Run(pat, str, k, s, Star(k, s, false));
    assert Run(pat, str, k, s, Star(k, s, false)) == Retry(pat, str, Star(k, s, false));
    assert Retry(pat, str, Star(k, s, false)) == Run(pat, str, k, s + 1, b2);
    assert !Retry(pat, str, b2);
    if pat[k] == '/' {
      if m > 0 {
        assert Decoy(m)[2..] == Decoy(m - 1) && str[s + 2..] == str[s..][2..];
        RunStuck(pat, k + 1, m - 1, str, s + 2, b2);
      } else {
        if k + 1 < |pat| {
          assert pat[k + 1] in pat;
          SlashStar(pat, k);
        }
        assert Run(pat, str, k + 1, s + 2, b2) == Retry(pat, str, b2);
      }
    }
  }

  lemma {:induction false} Misled(pat: string, i: nat, prior: Prior, a: Text, b: Backtrack)
    requires i <= |pat| && Plain(pat) && !Settled(pat, i, prior)
    requires prior == Loose ==> !Pending(pat, i)
    requires b.Star? ==> b.pat <= i && b.str <= |a|
    ensures var str: Text := a + Misleading(pat, i, prior);
            Matches(pat, i, str, |a|) && !Run(pat, str, i, |a|, b)
    decreases |pat| - i
  {
    hide Matches, Run, Pending, Skippable;
    var str: Text := a + Misleading(pat, i, prior);
    if pat[i] != '*' {
      assert pat[i] in pat;
      if Pending(pat, i + 1) {
        PendingBack(pat, i);
      }
      assert str == (a + [pat[i]]) + Misleading(pat, i + 1, Past(pat[i], prior));
      Misled(pat, i + 1, Past(pat[i], prior), a + [pat[i]], b);
      MisledLiteral(pat, i, str, |a|, b);
    } else if StarEnd(pat, i) == i + 2 {
      if Pending(pat, i + 2) {
        var (i0, m) := PendingStar(pat, i + 2);
        MisledHere(pat, i, i0, m, a, pat[i + 2..i0], Decoy(m), Literals(pat, i + 2), b, str);
      } else {
        Misled(pat, i + 2, Loose, a, Star(i + 2, |a|, true));
        MisledStar(pat, i, str, |a|, b);
      }
    } else {
      if prior == Loose {
        SkippedStar(pat, i);
      }
      Misled(pat, i + 1, if prior == Loose then Loose else Confined, a, Star(i + 1, |a|, false));
      MisledStar(pat, i, str, |a|, b);
    }
  }

  lemma MisledLiteral(pat: string, i: nat, str: Text, j: nat, b: Backtrack)
    requires i < |pat| && pat[i] != '*' && pat[i] != '?' && j < |str| && str[j] == pat[i]
    requires b.Star? ==> b.pat <= i && b.str <= |str|
    requires Matches(pat, i + 1, str, j + 1) && !Run(pat, str, i + 1, j + 1, b)
    ensures Matches(pat, i, str, j) && !Run(pat, str, i, j, b)
  {
  }

  lemma MisledStar(pat: string, i: nat, str: Text, j: nat, b: Backtrack)
    requires i < |pat| && pat[i] == '*' && StarEnd(pat, i) < |pat| && j <= |str|
    requires b.Star? ==> b.pat <= i && b.str <= |str|
    requires var k := StarEnd(pat, i); Matches(pat, k, str, j) && !Run(pat, str, k, j, Star(k, j, k == i + 2))
    ensures Matches(pat, i, str, j) && !Run(pat, str, i, j, b)
  {
    assert Swallows(pat, i, str, j, j);
  }

  lemma MisledHere(pat: string, i: nat, i0: nat, m: nat, a: Text, x: string, y: string, z: string, b: Backtrack,
                   str: Text)
    requires i + 2 < |pat| && Plain(pat) && pat[i] == '*' && pat[i + 1] == '*' && PendingAt(pat, i + 2, i0, m)
    requires b.Star? ==> b.pat <= i && b.str <= |a|
    requires x == pat[i + 2..i0] && y == Decoy(m) && z == Literals(pat, i + 2) && str == a + (x + y + z)
    ensures Matches(pat, i, str, |a|) && !Run(pat, str, i, |a|, b)
  {
    Pieces(a, x, y, z);
    DecoyMatches(pat, i, str, |a|, |a| + |x| + |y|);
    DecoyRejected(pat, i, i0, m, str, |a|, b);
  }

  lemma DecoyMatches(pat: string, i: nat, str: Text, j: nat, e: nat)
    requires i + 2 < |pat| && Plain(pat) && pat[i] == '*' && pat[i + 1] == '*'
    requires j <= e <= |str| && str[e..] == Literals(pat, i + 2)
    ensures Matches(pat, i, str, j)
  {
    LiteralsMatch(pat, i + 2, str, e);
    assert Swallows(pat, i, str, j, e);
  }

  lemma Pieces(a: string, x: string, y: string, z: string)
    ensures var str := a + (x + y + z);
            && str[|a|..|a| + |x|] == x
            && str[|a| + |x|..][..|y|] == y
            && str[|a| + |x| + |y|..] == z
  {
  }

  lemma DecoyRejected(pat: string, i: nat, i0: nat, m: nat, str: Text, j: nat, b: Backtrack)
    requires i + 2 < |pat| && Plain(pat) && pat[i] == '*' && pat[i + 1] == '*' && PendingAt(pat, i + 2, i0, m)
    requires ValidState(pat, str, i, j, b)
    requires j + (i0 - (i + 2)) + |Decoy(m)| <= |str|
    requires str[j..j + (i0 - (i + 2))] == pat[i + 2..i0]
    requires str[j + (i0 - (i + 2))..][..|Decoy(m)|] == Decoy(m)
    ensures !Run(pat, str, i, j, b)
  {
    var b1 := Star(i + 2, j, true);
    forall x | i + 2 <= x < i0 ensures pat[x] == str[j + (x - (i + 2))] {
      assert pat[x] == pat[i + 2..i0][x - (i + 2)] == str[j..j + (i0 - (i + 2))][x - (i + 2)];
    }
    RunLiterals(pat, i + 2, i0, str, j, b1);
    RunStuck(pat, i0, m, str, j + (i0 - (i + 2)), b1);
  }

  /** The exact limit of the single backtrack point: on a `?`-free pattern the
      matcher agrees with the reference relation on every path if and only if
      the pattern is settled. */
  lemma SettledIsExact(pat: Text)
    requires '?' !in pat
    ensures Settled(pat, 0, NoneYet) <==> forall str: Text :: Accepts(pat, str) <==> Matches(pat, 0, str, 0)
  {
    if Settled(pat, 0, NoneYet) {
      forall str: Text ensures Accepts(pat, str) <==> Matches(pat, 0, str, 0) {
        AcceptsExact(pat, str);
      }
    } else {
      Misled(pat, 0, NoneYet, "", NoStar);
      var str: Text := "" + Misleading(pat, 0, NoneYet);
      assert Matches(pat, 0, str, 0) && !Accepts(pat, str);
    }
  }

  /** A star behind a `**` takes the only backtrack point: `**` cannot move on. */
  lemma StarMisleads()
    ensures Matches("**a*b", 0, "a/ab", 0) && !Accepts("**a*b", "a/ab")
  {
    assert Matches("**a*b", 4, "a/ab", 3);
    assert Swallows("**a*b", 3, "a/ab", 3, 3);
    assert Matches("**a*b", 3, "a/ab", 3);
    assert Swallows("**a*b", 0, "a/ab", 0, 2);
    assert Matches("**a*b", 2, "a/ab", 2);
    assert !Retry("**a*b", "a/ab", Star(4, 1, false));
    assert !Run("**a*b", "a/ab", 4, 1, Star(4, 1, false));
    assert !Run("**a*b", "a/ab", 3, 1, Star(2, 0, true));
    assert !Run("**a*b", "a/ab", 2, 0, Star(2, 0, true));
  }

  /** Outside the `?`-free patterns a `*` followed by a `?` can mislead, too. */
  lemma QuestionMisleads()
    ensures Matches("*?*b", 0, "x/b", 0) && !Accepts("*?*b", "x/b")
  {
    assert Swallows("*?*b", 0, "x/b", 0, 1);
    assert Matches("*?*b", 3, "x/b", 2);
    assert Swallows("*?*b", 2, "x/b", 2, 2);
    assert Matches("*?*b", 2, "x/b", 2);
    assert Matches("*?*b", 1, "x/b", 1);
    var b := Star(3, 1, false);
    assert !Retry("*?*b", "x/b", b);
    assert !Run("*?*b", "x/b", 3, 1, b);
    assert !Run("*?*b", "x/b", 2, 1, Star(1, 0, false));
    assert !Run("*?*b", "x/b", 1, 0, Star(1, 0, false));
  }

  // ---- Two classes of settled patterns -----------------------------------------

  /** Every star except one at the very end is a `**`. */
  predicate OnlyDouble(pat: string, i: nat)
    requires i <= |pat|
    decreases |pat| - i
  {
    i == |pat| ||
    if pat[i] == '*' then
      var k := StarEnd(pat, i);
      k == |pat| || (k == i + 2 && OnlyDouble(pat, k))
    else OnlyDouble(pat, i + 1)
  }

  lemma {:induction false} OnlyDoubleSettled(pat: string, i: nat, prior: Prior)
    requires i <= |pat| && OnlyDouble(pat, i)
    ensures Settled(pat, i, prior)
    decreases |pat| - i
  {
    if i < |pat| {
      if pat[i] == '*' {
        if StarEnd(pat, i) < |pat| {
          OnlyDoubleSettled(pat, i + 2, Loose);
        }
      } else {
        OnlyDoubleSettled(pat, i + 1, Past(pat[i], prior));
      }
    }
  }

  /** No `?` follows a `*` in the same component of the path; `open` tells that a
      `*` has been seen in this one. */
  predicate Tidy(pat: string, i: nat, open: bool)
    requires i <= |pat|
    decreases |pat| - i
  {
    i == |pat| || (!(open && pat[i] == '?') && Tidy(pat, i + 1, pat[i] == '*' || (open && pat[i] != '/')))
  }

  lemma {:induction false} NoQuestionTidy(pat: string, i: nat, open: bool)
    requires i <= |pat| && '?' !in pat
    ensures Tidy(pat, i, open)
    decreases |pat| - i
  {
    if i < |pat| {
      assert pat[i] in pat;
      NoQuestionTidy(pat, i + 1, pat[i] == '*' || (open && pat[i] != '/'));
    }
  }

  lemma {:induction false} OnlySingleSettled(pat: string, i: nat, prior: Prior)
    requires i <= |pat| && prior != Loose && Tidy(pat, i, prior == Confined)
    requires forall x :: i <= x < |pat| - 2 ==> !(pat[x] == '*' && pat[x + 1] == '*')
    ensures Settled(pat, i, prior)
    decreases |pat| - i
  {
    if i < |pat| {
      if pat[i] == '*' {
        if StarEnd(pat, i) < |pat| {
          OnlySingleSettled(pat, i + 1, Confined);
        }
      } else {
        OnlySingleSettled(pat, i + 1, Past(pat[i], prior));
      }
    }
  }

  // ---- Alternatives ------------------------------------------------------------

  /** `strchr`: the first `|` at or behind `from`, or the end. */
  function NextBar(pat: string, from: nat): (r: nat)
    requires from <= |pat|
    ensures from <= r <= |pat| && forall x :: from <= x < r ==> pat[x] != '|'
    ensures r < |pat| ==> pat[r] == '|'
    decreases |pat| - from
  {
    if from == |pat| || pat[from] == '|' then from else NextBar(pat, from + 1)
  }

  function Join(parts: seq<string>): string
    requires |parts| > 0
  {
    if |parts| == 1 then parts[0] else parts[0] + "|" + Join(parts[1..])
  }

  /** The `|`-separated alternatives: the only list of bar-free strings that
      joins back to the pattern. */
  ghost predicate IsSplit(pat: string, parts: seq<string>) {
    |parts| > 0 && Join(parts) == pat && forall k :: 0 <= k < |parts| ==> '|' !in parts[k]
  }

  lemma {:induction false} SplitUnique(pat: string, a: seq<string>, b: seq<string>)
    requires IsSplit(pat, a) && IsSplit(pat, b)
    ensures a == b
  {
    FirstPart(pat, a);
    FirstPart(pat, b);
    if |a| > 1 {
      var rest := pat[|a[0]| + 1..];
      assert IsSplit(rest, a[1..]) && IsSplit(rest, b[1..]);
      SplitUnique(rest, a[1..], b[1..]);
      assert a == [a[0]] + a[1..] && b == [b[0]] + b[1..];
    } else {
      assert a == [a[0]] && b == [b[0]];
    }
  }

  lemma FirstPart(pat: string, a: seq<string>)
    requires IsSplit(pat, a)
    ensures var bar := NextBar(pat, 0);
            a[0] == pat[..bar] && (|a| == 1 <==> bar == |pat|) && (|a| > 1 ==> Join(a[1..]) == pat[bar + 1..])
  {
    var bar := NextBar(pat, 0);
    assert pat[..bar] == pat[0..bar];
    if |a| == 1 {
      assert bar == |pat|;
    } else {
      assert pat[|a[0]|] == '|';
      assert pat[..|a[0]|] == a[0];
      assert |a[0]| >= bar;
    }
  }

  function Split(pat: string, start: nat): (parts: seq<string>)
    requires start <= |pat|
    ensures |parts| > 0
    decreases |pat| - start
  {
    var bar := NextBar(pat, start);
    if bar == |pat| then [pat[start..]] else [pat[start..bar]] + Split(pat, bar + 1)
  }

  lemma {:induction false} SplitJoin(pat: string, start: nat)
    requires start <= |pat|
    ensures Join(Split(pat, start)) == pat[start..]
    decreases |pat| - start
  {
    var bar := NextBar(pat, start);
    if bar < |pat| {
      SplitJoin(pat, bar + 1);
    }
  }

  lemma {:induction false} SplitBars(pat: string, start: nat, k: nat)
    requires start <= |pat| && k < |Split(pat, start)|
    ensures '|' !in Split(pat, start)[k]
    decreases k
  {
    if k > 0 {
      SplitBars(pat, NextBar(pat, start) + 1, k - 1);
    }
  }

  lemma SplitIsSplit(pat: string)
    ensures IsSplit(pat, Split(pat, 0))
  {
    SplitJoin(pat, 0);
    forall k | 0 <= k < |Split(pat, 0)| ensures '|' !in Split(pat, 0)[k] {
      SplitBars(pat, 0, k);
    }
  }

  ghost predicate SomeAccepts(parts: seq<string>, str: Text) {
    exists k :: 0 <= k < |parts| && Accepts(parts[k], str)
  }

  lemma SomeAcceptsCons(first: string, rest: seq<string>, str: Text)
    ensures SomeAccepts([first] + rest, str) <==> Accepts(first, str) || SomeAccepts(rest, str)
  {
    var parts := [first] + rest;
    if Accepts(first, str) {
      assert Accepts(parts[0], str);
    }
    if SomeAccepts(rest, str) {
      var k :| 0 <= k < |rest| && Accepts(rest[k], str);
      assert Accepts(parts[k + 1], str);
    }
    if SomeAccepts(parts, str) {
      var k :| 0 <= k < |parts| && Accepts(parts[k], str);
      assert k > 0 ==> Accepts(rest[k - 1], str);
    }
  }

  /** `match` from the alternative at `start` on. */
  predicate AcceptsFrom(pat: string, start: nat, str: Text)
    requires start <= |pat|
    decreases |pat| - start
  {
    var bar := NextBar(pat, start);
    Accepts(pat[start..bar], str) || (bar < |pat| && AcceptsFrom(pat, bar + 1, str))
  }

  lemma {:induction false} AcceptsFromSplit(pat: string, start: nat, str: Text)
    requires start <= |pat|
    ensures AcceptsFrom(pat, start, str) <==> SomeAccepts(Split(pat, start), str)
    decreases |pat| - start
  {
    var bar := NextBar(pat, start);
    if bar < |pat| {
      AcceptsFromSplit(pat, bar + 1, str);
      SomeAcceptsCons(pat[start..bar], Split(pat, bar + 1), str);
    } else {
      assert pat[start..bar] == pat[start..];
      assert Split(pat, start) == [pat[start..]] + [];
      SomeAcceptsCons(pat[start..], [], str);
    }
  }

  /** `match`: accepts iff some alternative is accepted. */
  method Match(pattern: Text, str: Text) returns (r: bool)
    ensures r <==> SomeAccepts(Split(pattern, 0), str)
  {
    AcceptsFromSplit(pattern, 0, str);
    var start := 0;
    while true
      invariant start <= |pattern|
      invariant AcceptsFrom(pattern, 0, str) == AcceptsFrom(pattern, start, str)
      decreases |pattern| - start
    {
      var bar := NextBar(pattern, start);
      var ok := MatchSingle(pattern[start..bar], str);
      if ok {
        return true;
      }
      if bar == |pattern| {
        return false;
      }
      start := bar + 1;
    }
  }

  /** `match` decides whether some alternative matches, when every alternative is settled. */
  lemma AlternativesExact(pattern: Text, str: Text)
    requires forall k :: 0 <= k < |Split(pattern, 0)| ==> Settled(Split(pattern, 0)[k], 0, NoneYet)
    ensures SomeAccepts(Split(pattern, 0), str)
       <==> exists k :: 0 <= k < |Split(pattern, 0)| && Matches(Split(pattern, 0)[k], 0, str, 0)
  {
    hide Split, Settled, Accepts, Matches;
    forall k | 0 <= k < |Split(pattern, 0)|
      ensures Accepts(Split(pattern, 0)[k], str) <==> Matches(Split(pattern, 0)[k], 0, str, 0)
    {
      AcceptsExact(Split(pattern, 0)[k], str);
    }
  }

  /** The routes with wildcards in `mime_handlers`. */
  const WILDCARD_ROUTES: seq<string> := [
    "api/v1/**", "cfe/*.bin", "nvram/*.txt", "ipt/*.txt", "ip6t/*.txt", "cfg/*.cfg", "stats/*.gz", "logs/*.txt",
    "webmon_**", "**.asp", "**.css", "**.htm", "**.html", "**.gif", "**.jpg", "**.png", "**.js", "**.jsx", "**.svg",
    "**.txt", "**.bin", "**.bino", "**/cgi-bin/**", "**.sh", "**.tar", "**.gz"]

  /** The web server routes every request exactly as its route table reads. */
  lemma RoutesExact(k: nat, str: Text)
    requires k < |WILDCARD_ROUTES|
    ensures Accepts(WILDCARD_ROUTES[k], str) <==> Matches(WILDCARD_ROUTES[k], 0, str, 0)
  {
    hide Accepts, Matches, Settled;
    if k < 9 {
      FirstRoutesSettled(k);
    } else {
      LastRoutesSettled(k);
    }
    AcceptsExact(WILDCARD_ROUTES[k], str);
  }

  lemma FirstRoutesSettled(k: nat)
    requires k < 9
    ensures Settled(WILDCARD_ROUTES[k], 0, NoneYet)
  {
    hide Skippable;
  }

  lemma LastRoutesSettled(k: nat)
    requires 9 <= k < |WILDCARD_ROUTES|
    ensures Settled(WILDCARD_ROUTES[k], 0, NoneYet)
  {
    hide Settled;
    assert OnlyDouble(WILDCARD_ROUTES[k], 0);
    OnlyDoubleSettled(WILDCARD_ROUTES[k], 0, NoneYet);
  }
}
