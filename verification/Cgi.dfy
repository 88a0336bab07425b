/** Query strings: `str_replace`, `unescape` and `webcgi_init`, which work in
    place on the buffer that holds the query. */
module Cgi {
  import opened Bytes
  import opened Wrappers

  const AMPERSAND: byte := 38
  const PERCENT: byte := 37
  const PLUS: byte := 43
  const SEMICOLON: byte := 59
  const EQUALS: byte := 61
  const SPACE: byte := 32
  const PERCENT_U: CString := [37, 117]
  const TILDE_U: CString := [126, 117]

  // ---- Strings in a buffer -------------------------------------------------------------------

  /** `strnlen` of a buffer that ends with `s`. */
  function Length(s: seq<byte>): (n: nat)
    ensures n <= |s| && 0 !in s[..n]
    ensures n < |s| ==> s[n] == 0
  {
    if s == [] || s[0] == 0 then 0
    else
      var n := Length(s[1..]);
      assert s[..n + 1] == [s[0]] + s[1..][..n];
      n + 1
  }

  lemma {:induction false} LengthIs(s: seq<byte>, n: nat)
    requires n <= |s| && 0 !in s[..n] && (n < |s| ==> s[n] == 0)
    ensures Length(s) == n
    decreases n
  {
  }

  /** The buffer holds the bytes `s` at `base` and a terminator after them. */
  ghost predicate Holds(b: seq<byte>, base: nat, s: seq<byte>) {
    base + |s| < |b| && (forall j :: base <= j < base + |s| ==> b[j] == s[j - base]) && b[base + |s|] == 0
  }

  /** The buffers differ at most from `lo` up to `hi`. */
  ghost predicate SameOutside(b: seq<byte>, c: seq<byte>, lo: nat, hi: nat) {
    |b| == |c| && forall i :: 0 <= i < |b| && !(lo <= i < hi) ==> b[i] == c[i]
  }

  /** `c` is `b` with `n` bytes moved. */
  ghost predicate Moved(b: seq<byte>, c: seq<byte>, to: nat, from: nat, n: nat) {
    && to + n <= |b| == |c| && from + n <= |b|
    && (forall j :: to <= j < to + n ==> c[j] == b[j - to + from])
    && SameOutside(b, c, to, to + n)
  }

  /** `c` is `b` with `s` written into it. */
  ghost predicate Copied(b: seq<byte>, c: seq<byte>, to: nat, s: seq<byte>) {
    && to + |s| <= |b| == |c|
    && (forall j :: to <= j < to + |s| ==> c[j] == s[j - to])
    && SameOutside(b, c, to, to + |s|)
  }

  lemma MovedAt(b: seq<byte>, c: seq<byte>, to: nat, from: nat, n: nat, j: nat)
    requires Moved(b, c, to, from, n) && j < |b|
    ensures from + n <= |b| == |c| && c[j] == if to <= j < to + n then b[j - to + from] else b[j]
  {
  }

  lemma CopiedAt(b: seq<byte>, c: seq<byte>, to: nat, s: seq<byte>, j: nat)
    requires Copied(b, c, to, s) && j < |b|
    ensures |b| == |c| && c[j] == if to <= j < to + |s| then s[j - to] else b[j]
  {
  }

  method MemMove(buf: array<byte>, to: nat, from: nat, n: nat)
    requires to + n <= buf.Length && from + n <= buf.Length
    modifies buf
    ensures Moved(old(buf[..]), buf[..], to, from, n)
  {
    forall i | 0 <= i < n {
      buf[to + i] := buf[from + i];
    }
  }

  method MemCpy(buf: array<byte>, to: nat, s: seq<byte>)
    requires to + |s| <= buf.Length
    modifies buf
    ensures Copied(old(buf[..]), buf[..], to, s)
  {
    forall i | 0 <= i < |s| {
      buf[to + i] := s[i];
    }
  }

  // ---- Replacing ---------------------------------------------------------------------------------

  predicate StartsWith(s: seq<byte>, src: seq<byte>) {
    |src| <= |s| && s[..|src|] == src
  }

  /** Every occurrence replaced, found from the left and never overlapping. */
  function Replaced(s: seq<byte>, src: seq<byte>, des: seq<byte>): seq<byte>
    requires src != []
    decreases |s|
  {
    if s == [] then []
    else if StartsWith(s, src) then des + Replaced(s[|src|..], src, des)
    else [s[0]] + Replaced(s[1..], src, des)
  }

  /** `strstr`. */
  function Find(s: seq<byte>, src: seq<byte>): (r: Option<nat>)
    ensures r.Some? ==> r.value + |src| <= |s|
  {
    if StartsWith(s, src) then Some(0)
    else if s == [] then None
    else
      var r := Find(s[1..], src);
      if r.None? then None else Some(r.value + 1)
  }

  predicate OccursAt(s: seq<byte>, src: seq<byte>, k: nat) {
    k + |src| <= |s| && s[k..k + |src|] == src
  }

  lemma OccursBehind(s: seq<byte>, src: seq<byte>, k: nat)
    requires s != []
    ensures OccursAt(s, src, k + 1) <==> OccursAt(s[1..], src, k)
    ensures OccursAt(s, src, 0) <==> StartsWith(s, src)
  {
    if k + 1 + |src| <= |s| {
      assert s[1..][k..k + |src|] == s[k + 1..k + 1 + |src|];
    }
  }

  /** The first place at which `src` stands, if there is any. */
  lemma {:induction false} FindExact(s: seq<byte>, src: seq<byte>, k: nat)
    requires src != []
    ensures Find(s, src).Some? ==> OccursAt(s, src, Find(s, src).value)
    ensures OccursAt(s, src, k) ==> Find(s, src).Some? && Find(s, src).value <= k
  {
    hide OccursAt, StartsWith;
    if s == [] {
      NowhereIn(src, k);
    } else {
      var before := if k > 0 then k - 1 else 0;
      FindExact(s[1..], src, before);
      OccursBehind(s, src, before);
      if Find(s[1..], src).Some? {
        OccursBehind(s, src, Find(s[1..], src).value);
      }
    }
  }

  lemma NowhereIn(src: seq<byte>, k: nat)
    requires src != []
    ensures !OccursAt([], src, k) && !StartsWith([], src)
  {
  }

  lemma {:induction false} ReplacedAtFirst(s: seq<byte>, src: seq<byte>, des: seq<byte>)
    requires src != []
    ensures Find(s, src).None? ==> Replaced(s, src, des) == s
    ensures Find(s, src).Some? ==>
      var k := Find(s, src).value;
      Replaced(s, src, des) == s[..k] + des + Replaced(s[k + |src|..], src, des)
    decreases |s|
  {
    hide Replaced, Find;
    OneStep(s, src, des);
    if s != [] && !StartsWith(s, src) {
      ReplacedAtFirst(s[1..], src, des);
      if Find(s[1..], src).Some? {
        var k := Find(s[1..], src).value;
        assert s[1..][k + |src|..] == s[k + 1 + |src|..];
      }
    } else {
      assert s[..0] + des == des;
    }
  }

  lemma OneStep(s: seq<byte>, src: seq<byte>, des: seq<byte>)
    requires src != []
    ensures s == [] ==> Find(s, src).None? && Replaced(s, src, des) == []
    ensures StartsWith(s, src) ==> Find(s, src) == Some(0) && Replaced(s, src, des) == des + Replaced(s[|src|..], src, des)
    ensures s != [] && !StartsWith(s, src) ==>
      && Replaced(s, src, des) == [s[0]] + Replaced(s[1..], src, des)
      && Find(s, src) == (if Find(s[1..], src).None? then None else Some(Find(s[1..], src).value + 1))
  {
  }

  /** A longer replacement never makes the string shorter. */
  lemma {:induction false} ReplacedGrows(s: seq<byte>, src: seq<byte>, des: seq<byte>)
    requires src != []
    ensures |des| >= |src| ==> |Replaced(s, src, des)| >= |s|
    ensures |des| <= |src| ==> |Replaced(s, src, des)| <= |s|
    decreases |s|
  {
    if StartsWith(s, src) {
      ReplacedGrows(s[|src|..], src, des);
    } else if s != [] {
      ReplacedGrows(s[1..], src, des);
    }
  }

  /** Part of the replacing is done: what is left of it is in `rest`. */
  ghost predicate Progress(s: seq<byte>, src: seq<byte>, des: seq<byte>, done: seq<byte>, rest: seq<byte>)
    requires src != []
  {
    Replaced(s, src, des) == done + Replaced(rest, src, des)
  }

  lemma ProgressStart(s: seq<byte>, src: seq<byte>, des: seq<byte>)
    requires src != []
    ensures Progress(s, src, des, [], s)
  {
    hide Replaced;
    assert [] + Replaced(s, src, des) == Replaced(s, src, des);
  }

  lemma ProgressEnd(s: seq<byte>, src: seq<byte>, des: seq<byte>, done: seq<byte>, rest: seq<byte>)
    requires src != [] && Progress(s, src, des, done, rest) && Find(rest, src).None?
    ensures Replaced(s, src, des) == done + rest
  {
    hide Replaced, Find;
    ReplacedAtFirst(rest, src, des);
  }

  lemma ProgressStep(s: seq<byte>, src: seq<byte>, des: seq<byte>, done: seq<byte>, rest: seq<byte>, k: nat)
    requires src != [] && Progress(s, src, des, done, rest) && Find(rest, src) == Some(k)
    ensures Progress(s, src, des, done + rest[..k] + des, rest[k + |src|..])
    ensures |des| >= |src| ==> |Replaced(s, src, des)| >= |done + rest| + |des| - |src|
    ensures |des| <= |src| ==> |Replaced(s, src, des)| <= |done + rest| + |des| - |src|
  {
    hide Replaced, Find;
    var front, back := rest[..k], Replaced(rest[k + |src|..], src, des);
    ReplacedAtFirst(rest, src, des);
    ReplacedGrows(rest[k + |src|..], src, des);
    Regroup(done, front, des, back);
    assert |Replaced(s, src, des)| == |done| + k + |des| + |back|;
  }

  lemma Regroup(a: seq<byte>, b: seq<byte>, c: seq<byte>, d: seq<byte>)
    ensures a + (b + c + d) == (a + b + c) + d
  {
  }

  /** `str_replace` on the `size` bytes at `base`. */
  method StrReplace(buf: array<byte>, base: nat, size: nat, src: CString, des: CString) returns (r: int)
    requires base + size <= buf.Length
    modifies buf
    ensures SameOutside(old(buf[..]), buf[..], base, base + size)
    ensures var n := Length(old(buf[base..base + size]));
      var s := old(buf[base..base + size])[..n];
      if size == 0 || src == [] || n == size then r == -1 && buf[..] == old(buf[..])
      else
        && r == (if |Replaced(s, src, des)| < size then 0 else -1)
        && (r == 0 ==> Holds(buf[..], base, Replaced(s, src, des)))
        && (exists done: CString, rest: CString ::
              |done + rest| < size && Holds(buf[..], base, done + rest) && Progress(s, src, des, done, rest))
  {
    var len := Length(buf[base..base + size]);
    if size == 0 || src == [] || len == size {
      return -1;
    }
    ghost var s: CString := buf[base..base + size][..len];
    r := ReplaceAll(buf, base, size, src, des, s);
  }

  method ReplaceAll(buf: array<byte>, base: nat, size: nat, src: CString, des: CString, ghost s: CString) returns (r: int)
    requires base + size <= buf.Length && src != [] && |s| < size && Holds(buf[..], base, s)
    modifies buf
    ensures SameOutside(old(buf[..]), buf[..], base, base + size)
    ensures r == (if |Replaced(s, src, des)| < size then 0 else -1)
    ensures r == 0 ==> Holds(buf[..], base, Replaced(s, src, des))
    ensures exists done: CString, rest: CString ::
      |done + rest| < size && Holds(buf[..], base, done + rest) && Progress(s, src, des, done, rest)
  {
    hide Replaced, Find, Holds, SameOutside, Progress;
    ghost var done: CString, rest: CString := [], s;
    var off: nat := 0;
    var len := StrLen(buf, base, s);
    assert buf[..] == old(buf[..]) && done + rest == s;
    SameItself(buf[..], base, base + size);
    ProgressStart(s, src, des);
    while true
      invariant off == |done| && len == |done + rest| < size
      invariant Holds(buf[..], base, done + rest) && Progress(s, src, des, done, rest)
      invariant SameOutside(old(buf[..]), buf[..], base, base + size)
      decreases |rest|
    {
      HoldsEnd(buf[..], base, done, rest);
      var at := Find(buf[base + off..base + len], src);
      if at.None? {
        ProgressEnd(s, src, des, done, rest);
        return 0;
      }
      var k := at.value;
      ProgressStep(s, src, des, done, rest, k);
      if |des| > |src| && len + (|des| - |src|) >= size {
        return -1;
      }
      ghost var was := buf[..];
      Splice(buf, base, size, done + rest, off + k, |src|, des);
      SameInside(old(buf[..]), was, buf[..], base, base, base + size, base + size);
      SplicedParts(done, rest, k, |src|, des);
      done, rest := done + rest[..k] + des, rest[k + |src|..];
      len := len - |src| + |des|;
      off := off + k + |des|;
    }
  }

  /** The string with the `n` bytes at `k` replaced. */
  function Spliced(t: seq<byte>, k: nat, n: nat, des: seq<byte>): seq<byte>
    requires k + n <= |t|
  {
    t[..k] + des + t[k + n..]
  }

  lemma SplicedParts(done: seq<byte>, rest: seq<byte>, k: nat, n: nat, des: seq<byte>)
    requires k + n <= |rest|
    ensures Spliced(done + rest, |done| + k, n, des) == (done + rest[..k] + des) + rest[k + n..]
  {
  }

  lemma HoldsSlice(b: seq<byte>, base: nat, t: seq<byte>)
    requires Holds(b, base, t)
    ensures base + |t| < |b| && b[base..base + |t|] == t
  {
  }

  lemma HoldsEnd(b: seq<byte>, base: nat, done: seq<byte>, rest: seq<byte>)
    requires Holds(b, base, done + rest)
    ensures base + |done + rest| < |b| && b[base + |done|..base + |done + rest|] == rest
  {
  }

  /** `strlen` of a string known to end. */
  method StrLen(buf: array<byte>, base: nat, ghost s: CString) returns (len: nat)
    requires Holds(buf[..], base, s)
    ensures len == |s|
  {
    len := Length(buf[base..]);
    HoldsSlice(buf[..], base, s);
    assert buf[base..][..|s|] == s;
    LengthIs(buf[base..], |s|);
  }

  /** Move the tail with its terminator, then copy the replacement in. */
  method Splice(buf: array<byte>, base: nat, size: nat, ghost t: CString, k: nat, n: nat, des: CString)
    requires base + size <= buf.Length && k + n <= |t| < size && Holds(buf[..], base, t)
    requires |t| - n + |des| < size
    modifies buf
    ensures Holds(buf[..], base, Spliced(t, k, n, des))
    ensures SameOutside(old(buf[..]), buf[..], base, base + size)
  {
    hide Holds, SameOutside, Moved, Copied, Spliced, SpliceSteps;
    ghost var was := buf[..];
    var len := StrLen(buf, base, t);
    assert buf[..] == was;
    MoveAndCopy(buf, base + k, n, len - k - n + 1, des);
    SplicedHeld(was, buf[..], base, t, k, n, des);
    SplicedInside(was, buf[..], base, size, |t|, k, n, des);
  }

  /** Make room, then write: at `at`, `n` bytes give way to `des` before `left` more. */
  method MoveAndCopy(buf: array<byte>, at: nat, n: nat, left: nat, des: CString)
    requires at + n + left <= buf.Length && at + |des| + left <= buf.Length
    modifies buf
    ensures SpliceSteps(old(buf[..]), buf[..], at, n, left, des)
  {
    hide Moved, Copied;
    MoveTail(buf, at + |des|, at + n, left);
    MemCpy(buf, at, des);
  }

  ghost predicate SpliceSteps(b: seq<byte>, d: seq<byte>, at: nat, n: nat, left: nat, des: seq<byte>) {
    exists c: seq<byte> :: Moved(b, c, at + |des|, at + n, left) && Copied(c, d, at, des)
  }

  /** Nothing to move when the lengths are equal. */
  method MoveTail(buf: array<byte>, to: nat, from: nat, n: nat)
    requires to + n <= buf.Length && from + n <= buf.Length
    modifies buf
    ensures Moved(old(buf[..]), buf[..], to, from, n)
  {
    if to != from {
      MemMove(buf, to, from, n);
    }
  }

  /** Where each byte comes from. */
  lemma SplicedAt(b: seq<byte>, d: seq<byte>, at: nat, n: nat, left: nat, des: seq<byte>, j: nat)
    requires SpliceSteps(b, d, at, n, left, des) && j < |b|
    ensures |d| == |b| && at + n + left <= |b|
    ensures d[j] == if at <= j < at + |des| then des[j - at] else if at + |des| <= j < at + |des| + left then b[j - |des| + n] else b[j]
  {
    hide Moved, Copied;
    var c :| Moved(b, c, at + |des|, at + n, left) && Copied(c, d, at, des);
    MovedAt(b, c, at + |des|, at + n, left, j);
    CopiedAt(c, d, at, des, j);
  }

  lemma SplicedHeld(b: seq<byte>, d: seq<byte>, base: nat, t: seq<byte>, k: nat, n: nat, des: seq<byte>)
    requires k + n <= |t| && Holds(b, base, t) && SpliceSteps(b, d, base + k, n, |t| - k - n + 1, des)
    requires base + |t| - n + |des| < |b|
    ensures Holds(d, base, Spliced(t, k, n, des))
  {
    hide SpliceSteps;
    var r, left := Spliced(t, k, n, des), |t| - k - n + 1;
    SplicedAt(b, d, base + k, n, left, des, base + |r|);
    forall j | base <= j < base + |r| ensures d[j] == r[j - base] {
      SplicedAt(b, d, base + k, n, left, des, j);
    }
  }

  lemma SplicedInside(b: seq<byte>, d: seq<byte>, base: nat, size: nat, len: nat, k: nat, n: nat, des: seq<byte>)
    requires k + n <= len && base + size <= |b| && len - n + |des| < size
    requires SpliceSteps(b, d, base + k, n, len - k - n + 1, des)
    ensures SameOutside(b, d, base, base + size)
  {
    hide SpliceSteps;
    SplicedAt(b, d, base + k, n, len - k - n + 1, des, base);
    forall j | 0 <= j < |b| && !(base <= j < base + size) ensures b[j] == d[j] {
      SplicedAt(b, d, base + k, n, len - k - n + 1, des, j);
    }
  }

  // ---- Percent escapes -----------------------------------------------------------------------

  predicate IsHex(c: byte) {
    48 <= c <= 57 || 65 <= c <= 70 || 97 <= c <= 102
  }

  function HexValue(c: byte): (v: nat)
    requires IsHex(c)
    ensures v < 16
  {
    if c <= 57 then c - 48 else if c <= 70 then c - 55 else c - 87
  }

  predicate IsEscape(s: seq<byte>) {
    |s| >= 3 && s[0] == PERCENT && IsHex(s[1]) && IsHex(s[2])
  }

  function EscapeValue(s: seq<byte>): byte
    requires IsEscape(s)
  {
    16 * HexValue(s[1]) + HexValue(s[2])
  }

  /** Escapes decoded and `+` turned into a space, up to the first malformed escape. */
  function Unescaped(s: seq<byte>): (r: seq<byte>)
    ensures |r| <= |s|
  {
    if s == [] then []
    else if IsEscape(s) then [EscapeValue(s)] + Unescaped(s[3..])
    else if s[0] == PERCENT then []
    else [if s[0] == PLUS then SPACE else s[0]] + Unescaped(s[1..])
  }

  /** `unescape` of the string at `base`. An escape of zero does not stop it. */
  method Unescape(buf: array<byte>, base: nat, ghost s: CString)
    requires Holds(buf[..], base, s)
    modifies buf
    ensures Holds(buf[..], base, Unescaped(s))
    ensures SameOutside(old(buf[..]), buf[..], base, base + |s| + 1)
  {
    hide Unescaped, Partly, Holds, SameOutside, Continues;
    ghost var done: seq<byte>, rest: CString := [], s;
    var p := base;
    PartlyStart(buf[..], base, s);
    while buf[p] != 0
      invariant p == base + |done| < buf.Length && (buf[p] == 0 <==> rest == [])
      invariant Continues(Unescaped(s), done, Unescaped(rest))
      invariant Holds(buf[..], p, rest) && Partly(old(buf[..]), buf[..], base, s, done, rest)
      decreases |rest|
    {
      ghost var before := buf[..];
      var malformed, next := UnescapeOne(buf, p, rest);
      if malformed {
        PartlyStop(old(buf[..]), before, buf[..], base, s, done, rest);
      } else {
        ContinuesMore(Unescaped(s), done, buf[p], Unescaped(next));
        PartlyStep(old(buf[..]), before, buf[..], base, s, done, rest, buf[p], next);
        done := done + [buf[p]];
        p := p + 1;
      }
      rest := next;
      PartlyHead(old(buf[..]), buf[..], base, s, done, rest);
    }
    PartlyEnd(old(buf[..]), buf[..], base, s, done);
  }

  /** The string is decoded up to `done`, and `rest` is still as it was. */
  ghost predicate Partly(was: seq<byte>, b: seq<byte>, base: nat, s: seq<byte>, done: seq<byte>, rest: seq<byte>) {
    && |done| + |rest| <= |s| && base + |s| < |b|
    && Starts(b, base, done)
    && Holds(b, base + |done|, rest)
    && Continues(Unescaped(s), done, Unescaped(rest))
    && SameOutside(was, b, base, base + |s| + 1)
  }

  ghost predicate Continues(whole: seq<byte>, done: seq<byte>, tail: seq<byte>) {
    whole == done + tail
  }

  lemma ContinuesMore(whole: seq<byte>, done: seq<byte>, x: byte, tail: seq<byte>)
    requires Continues(whole, done, [x] + tail)
    ensures Continues(whole, done + [x], tail)
  {
    assert done + ([x] + tail) == (done + [x]) + tail;
  }

  ghost predicate Starts(b: seq<byte>, base: nat, done: seq<byte>) {
    base + |done| <= |b| && forall j :: base <= j < base + |done| ==> b[j] == done[j - base]
  }

  lemma StartsKept(b: seq<byte>, c: seq<byte>, base: nat, done: seq<byte>, hi: nat)
    requires Starts(b, base, done) && SameOutside(b, c, base + |done|, hi)
    ensures Starts(c, base, done)
    ensures base + |done| < |c| ==> Starts(c, base, done + [c[base + |done|]])
  {
  }

  lemma StartsWhole(b: seq<byte>, base: nat, done: seq<byte>)
    requires Starts(b, base, done) && Holds(b, base + |done|, [])
    ensures Holds(b, base, done)
  {
  }

  lemma PartlyHead(was: seq<byte>, b: seq<byte>, base: nat, s: seq<byte>, done: seq<byte>, rest: CString)
    requires Partly(was, b, base, s, done, rest)
    ensures base + |done| < |b| && (b[base + |done|] == 0 <==> rest == []) && Holds(b, base + |done|, rest)
    ensures Continues(Unescaped(s), done, Unescaped(rest))
  {
    hide Unescaped, Continues;
  }

  lemma PartlyStart(b: seq<byte>, base: nat, s: CString)
    requires Holds(b, base, s)
    ensures Partly(b, b, base, s, [], s) && Continues(Unescaped(s), [], Unescaped(s)) && base < |b| && (b[base] == 0 <==> s == [])
  {
    hide Unescaped;
    assert [] + Unescaped(s) == Unescaped(s);
  }

  lemma PartlyStep(was: seq<byte>, b: seq<byte>, c: seq<byte>, base: nat, s: seq<byte>, done: seq<byte>,
                   rest: seq<byte>, x: byte, next: seq<byte>)
    requires Partly(was, b, base, s, done, rest) && base + |done| < |c| && c[base + |done|] == x
    requires SameOutside(b, c, base + |done|, base + |done| + |rest| + 1) && |next| < |rest|
    requires Continues(Unescaped(s), done + [x], Unescaped(next)) && Holds(c, base + |done| + 1, next)
    ensures Partly(was, c, base, s, done + [x], next)
  {
    hide Unescaped, Holds, SameOutside, Starts, Continues;
    var p := base + |done|;
    StartsKept(b, c, base, done, p + |rest| + 1);
    SameInside(was, b, c, base, p, p + |rest| + 1, base + |s| + 1);
  }

  lemma PartlyStop(was: seq<byte>, b: seq<byte>, c: seq<byte>, base: nat, s: seq<byte>, done: seq<byte>, rest: seq<byte>)
    requires Partly(was, b, base, s, done, rest) && Unescaped(rest) == Unescaped([])
    requires SameOutside(b, c, base + |done|, base + |done| + |rest| + 1) && Holds(c, base + |done|, [])
    ensures Partly(was, c, base, s, done, [])
  {
    hide Unescaped, Holds, SameOutside, Starts, Continues;
    var p := base + |done|;
    StartsKept(b, c, base, done, p + |rest| + 1);
    SameInside(was, b, c, base, p, p + |rest| + 1, base + |s| + 1);
  }

  lemma SameInside(a: seq<byte>, b: seq<byte>, c: seq<byte>, low: nat, lo: nat, hi: nat, high: nat)
    requires SameOutside(a, b, low, high) && SameOutside(b, c, lo, hi) && low <= lo && hi <= high
    ensures SameOutside(a, c, low, high) && |c| == |b|
  {
  }

  lemma PartlyEnd(was: seq<byte>, b: seq<byte>, base: nat, s: seq<byte>, done: seq<byte>)
    requires Partly(was, b, base, s, done, [])
    ensures Holds(b, base, Unescaped(s)) && SameOutside(was, b, base, base + |s| + 1)
  {
    hide Unescaped, Holds, Starts, SameOutside;
    UnescapedStep([]);
    assert done + [] == done;
    StartsWhole(b, base, done);
  }

  /** One character or one escape of a string. */
  method UnescapeOne(buf: array<byte>, p: nat, ghost rest: CString) returns (malformed: bool, ghost next: CString)
    requires Holds(buf[..], p, rest) && rest != []
    modifies buf
    ensures malformed ==> Unescaped(rest) == [] && next == [] && Holds(buf[..], p, next)
    ensures !malformed ==> Unescaped(rest) == [buf[p]] + Unescaped(next) && |next| < |rest| && Holds(buf[..], p + 1, next)
    ensures Unescaped([]) == []
    ensures SameOutside(old(buf[..]), buf[..], p, p + |rest| + 1)
  {
    hide Unescaped, IsEscape, EscapeValue;
    var len := StrLen(buf, p, rest);
    HoldsSlice(buf[..], p, rest);
    UnescapedStep(rest);
    malformed := false;
    if IsEscape(buf[p..p + len]) {
      DecodeEscape(buf, p, len, rest);
      next := rest[3..];
    } else if buf[p] == PERCENT {
      buf[p] := 0;
      malformed, next := true, [];
    } else {
      if buf[p] == PLUS {
        buf[p] := SPACE;
      }
      next := rest[1..];
    }
  }

  /** Put the decoded byte in place and close the gap after it. */
  method DecodeEscape(buf: array<byte>, p: nat, len: nat, ghost rest: CString)
    requires Holds(buf[..], p, rest) && IsEscape(rest) && len == |rest|
    modifies buf
    ensures buf[p] == EscapeValue(rest) && Holds(buf[..], p + 1, rest[3..])
    ensures SameOutside(old(buf[..]), buf[..], p, p + |rest| + 1)
  {
    hide Moved, EscapeValue, Holds, SameOutside;
    ghost var b := buf[..];
    HoldsSlice(b, p, rest);
    buf[p] := EscapeValue(buf[p..p + len]);
    ghost var was := buf[..];
    assert was == b[p := EscapeValue(rest)];
    MemMove(buf, p + 1, p + 3, len - 3 + 1);
    DecodedHeld(b, was, buf[..], p, rest);
  }

  lemma DecodedHeld(b: seq<byte>, c: seq<byte>, d: seq<byte>, p: nat, rest: seq<byte>)
    requires Holds(b, p, rest) && |rest| >= 3 && |c| == |b| && c == b[p := c[p]] && Moved(c, d, p + 1, p + 3, |rest| - 2)
    ensures |d| == |b| && d[p] == c[p] && Holds(d, p + 1, rest[3..]) && SameOutside(b, d, p, p + |rest| + 1)
  {
    hide Moved;
    var r := rest[3..];
    MovedAt(c, d, p + 1, p + 3, |rest| - 2, p);
    MovedAt(c, d, p + 1, p + 3, |rest| - 2, p + 1 + |r|);
    forall j | p + 1 <= j < p + 1 + |r| ensures d[j] == r[j - (p + 1)] {
      MovedAt(c, d, p + 1, p + 3, |rest| - 2, j);
    }
    forall j | 0 <= j < |b| && !(p <= j < p + |rest| + 1) ensures b[j] == d[j] {
      MovedAt(c, d, p + 1, p + 3, |rest| - 2, j);
    }
  }

  lemma UnescapedStep(s: seq<byte>)
    ensures IsEscape(s) ==> |s| >= 3 && Unescaped(s) == [EscapeValue(s)] + Unescaped(s[3..])
    ensures s != [] && !IsEscape(s) && s[0] != PERCENT ==>
      Unescaped(s) == [if s[0] == PLUS then SPACE else s[0]] + Unescaped(s[1..])
    ensures s == [] || (!IsEscape(s) && s[0] == PERCENT) ==> Unescaped(s) == []
    ensures Unescaped([]) == []
  {
  }

  // ---- The query -----------------------------------------------------------------------------

  predicate IsSeparator(c: byte) {
    c == AMPERSAND || c == SEMICOLON
  }

  /** Where the first segment ends. */
  function SegmentEnd(s: seq<byte>): (k: nat)
    ensures k <= |s|
    ensures k < |s| ==> IsSeparator(s[k])
  {
    if s == [] || IsSeparator(s[0]) then 0 else 1 + SegmentEnd(s[1..])
  }

  function SegmentCount(s: seq<byte>): (n: nat)
    ensures n > 0
  {
    if s == [] then 1 else SegmentCount(s[1..]) + if IsSeparator(s[0]) then 1 else 0
  }

  /** The C string at the start of a buffer. */
  function Cut(s: seq<byte>): CString {
    s[..Length(s)]
  }

  /** What is read of a segment. */
  function Field(segment: seq<byte>): CString {
    Cut(Unescaped(Replaced(segment, PERCENT_U, TILDE_U)))
  }

  function EqualsAt(s: seq<byte>): (k: nat)
    ensures k <= |s|
    ensures k < |s| ==> s[k] == EQUALS
  {
    if s == [] || s[0] == EQUALS then 0 else 1 + EqualsAt(s[1..])
  }

  /** A segment with `=` gives its name the value after it, whatever it was before. */
  function Assign(m: map<CString, CString>, segment: seq<byte>): map<CString, CString> {
    var f := Field(segment);
    var k := EqualsAt(f);
    if k == |f| then m else m[f[..k] := f[k + 1..]]
  }

  function AssignAll(m: map<CString, CString>, query: seq<byte>): map<CString, CString>
    decreases |query|
  {
    var k := SegmentEnd(query);
    var m' := Assign(m, query[..k]);
    if k == |query| then m' else AssignAll(m', query[k + 1..])
  }

  /** An entry of the table: where its name and where its value stand in the buffer. */
  datatype Entry = Entry(key: nat, data: nat)

  /** An entry for `name` with `value`, both ended before `end`. */
  ghost predicate HoldsEntry(b: seq<byte>, e: Entry, name: CString, value: CString, end: nat) {
    && e.key + |name| < end && Holds(b, e.key, name)
    && e.data + |value| < end && Holds(b, e.data, value)
  }

  /** The table's names and values are pointers into the buffer, to strings that end before `end`. */
  ghost predicate Stored(b: seq<byte>, table: map<CString, Entry>, m: map<CString, CString>, end: nat) {
    && table.Keys == m.Keys
    && forall name :: name in table ==> name in m && HoldsEntry(b, table[name], name, m[name], end)
  }

  lemma EntryKept(b: seq<byte>, c: seq<byte>, e: Entry, name: CString, value: CString, end: nat, hi: nat)
    requires HoldsEntry(b, e, name, value, end) && SameOutside(b, c, end, hi) && end <= hi
    ensures HoldsEntry(c, e, name, value, end) && HoldsEntry(c, e, name, value, hi)
  {
  }

  lemma StoredKept(b: seq<byte>, c: seq<byte>, table: map<CString, Entry>, m: map<CString, CString>, end: nat, hi: nat)
    requires Stored(b, table, m, end) && SameOutside(b, c, end, hi) && end <= hi
    ensures Stored(c, table, m, end) && Stored(c, table, m, hi)
  {
    hide HoldsEntry, SameOutside;
    forall name | name in table
      ensures HoldsEntry(c, table[name], name, m[name], end) && HoldsEntry(c, table[name], name, m[name], hi)
    {
      EntryKept(b, c, table[name], name, m[name], end, hi);
    }
  }

  /** `webcgi_set`: a known name keeps its entry and its old key. */
  method WebcgiSet(table: map<CString, Entry>, name: CString, key: nat, data: nat,
                   ghost b: seq<byte>, ghost m: map<CString, CString>, ghost value: CString, ghost end: nat)
    returns (table': map<CString, Entry>)
    requires Stored(b, table, m, end) && HoldsEntry(b, Entry(key, data), name, value, end)
    ensures Stored(b, table', m[name := value], end)
    ensures |table'| <= |table| + 1
    ensures name in table ==> name in table' && table'[name].key == table[name].key
  {
    hide Holds;
    if name in table {
      table' := table[name := table[name].(data := data)];
    } else {
      table' := table[name := Entry(key, data)];
    }
  }

  lemma {:induction false} ReplacedClean(s: seq<byte>, src: seq<byte>, des: seq<byte>)
    requires src != [] && 0 !in s && 0 !in des
    ensures 0 !in Replaced(s, src, des)
    decreases |s|
  {
    if s != [] {
      if StartsWith(s, src) {
        ReplacedClean(s[|src|..], src, des);
      } else {
        ReplacedClean(s[1..], src, des);
      }
    }
  }

  /** Replace and unescape one segment in place. */
  method DecodeSegment(buf: array<byte>, value: nat, ghost segment: CString)
    requires Holds(buf[..], value, segment)
    modifies buf
    ensures Holds(buf[..], value, Unescaped(Replaced(segment, PERCENT_U, TILDE_U)))
    ensures |Unescaped(Replaced(segment, PERCENT_U, TILDE_U))| <= |segment|
    ensures SameOutside(old(buf[..]), buf[..], value, value + |segment| + 1)
  {
    hide Replaced, Unescaped, Progress;
    var len := StrLen(buf, value, segment);
    ReplacedGrows(segment, PERCENT_U, TILDE_U);
    ReplacedClean(segment, PERCENT_U, TILDE_U);
    HoldsSlice(buf[..], value, segment);
    assert buf[value..value + len + 1][..len] == segment;
    LengthIs(buf[value..value + len + 1], len);
    var _ := StrReplace(buf, value, len + 1, PERCENT_U, TILDE_U);
    Unescape(buf, value, Replaced(segment, PERCENT_U, TILDE_U));
  }

  lemma HoldsCut(b: seq<byte>, base: nat, d: seq<byte>)
    requires Holds(b, base, d)
    ensures Cut(b[base..]) == Cut(d) && |Cut(d)| <= |d| && Holds(b, base, Cut(d))
  {
    HoldsSlice(b, base, d);
    var n := Length(d);
    assert b[base..][..n] == d[..n];
    LengthIs(b[base..], n);
  }

  /** `strsep` at the first `=`, then `webcgi_set` where there is one. */
  method EnterField(buf: array<byte>, value: nat, ghost d: seq<byte>, table: map<CString, Entry>, ghost m: map<CString, CString>)
    returns (table': map<CString, Entry>)
    requires Holds(buf[..], value, d) && Stored(buf[..], table, m, value)
    modifies buf
    ensures var f := Cut(d);
      var k := EqualsAt(f);
      Stored(buf[..], table', if k == |f| then m else m[f[..k] := f[k + 1..]], value + |d| + 1)
    ensures SameOutside(old(buf[..]), buf[..], value, value + |d| + 1)
    ensures |table'| <= |table| + 1
  {
    hide EqualsAt, Holds, Stored, Cut, SameOutside, HoldsEntry;
    ghost var end := value + |d| + 1;
    HoldsCut(buf[..], value, d);
    HoldsSlice(buf[..], value, Cut(d));
    assert buf[..][value..] == buf[value..];
    var f := Cut(buf[value..]);
    var k := EqualsAt(f);
    table' := table;
    if k < |f| {
      buf[value + k] := 0;
      SplitAt(old(buf[..]), buf[..], value, f, k);
      SameWithin(old(buf[..]), buf[..], value + k, value, end);
      StoredKept(old(buf[..]), buf[..], table, m, value, end);
      EntryHeld(buf[..], value, f, k, end);
      table' := WebcgiSet(table, f[..k], value, value + k + 1, buf[..], m, f[k + 1..], end);
    } else {
      SameWithin(old(buf[..]), buf[..], value, value, end);
      StoredKept(old(buf[..]), buf[..], table, m, value, end);
    }
  }

  /** A terminator in the place of the `=` leaves the name and the value. */
  lemma SplitAt(b: seq<byte>, c: seq<byte>, base: nat, f: CString, k: nat)
    requires Holds(b, base, f) && k < |f| && base + k < |b| && c == b[base + k := 0]
    ensures Holds(c, base, f[..k]) && Holds(c, base + k + 1, f[k + 1..])
  {
  }

  lemma EntryHeld(b: seq<byte>, base: nat, f: CString, k: nat, end: nat)
    requires k < |f| && base + |f| < end && Holds(b, base, f[..k]) && Holds(b, base + k + 1, f[k + 1..])
    ensures HoldsEntry(b, Entry(base, base + k + 1), f[..k], f[k + 1..], end)
  {
  }

  /** At most one byte changed, and it lies within the bounds. */
  lemma SameWithin(b: seq<byte>, c: seq<byte>, at: nat, lo: nat, hi: nat)
    requires lo <= at < hi && (c == b || (at < |b| && c == b[at := 0]))
    ensures SameOutside(b, c, lo, hi)
  {
  }

  /** One segment: replace, unescape, split and enter into the table. */
  method EnterSegment(buf: array<byte>, value: nat, ghost segment: CString,
                      table: map<CString, Entry>, ghost m: map<CString, CString>)
    returns (table': map<CString, Entry>)
    requires Holds(buf[..], value, segment) && Stored(buf[..], table, m, value)
    modifies buf
    ensures Stored(buf[..], table', Assign(m, segment), value + |segment| + 1)
    ensures SameOutside(old(buf[..]), buf[..], value, value + |segment| + 1)
    ensures |table'| <= |table| + 1
  {
    hide Replaced, Unescaped, Holds, Cut, EqualsAt, Stored;
    DecodeSegment(buf, value, segment);
    StoredKept(old(buf[..]), buf[..], table, m, value, value + |segment| + 1);
    ghost var d := Unescaped(Replaced(segment, PERCENT_U, TILDE_U));
    table' := EnterField(buf, value, d, table, m);
    StoredKept(buf[..], buf[..], table', Assign(m, segment), value + |d| + 1, value + |segment| + 1);
  }

  /** The query with a terminator for every separator. */
  ghost predicate Separated(b: seq<byte>, query: seq<byte>, from: nat) {
    && |query| < |b| && b[|query|] == 0
    && forall i :: from <= i < |query| ==> b[i] == if IsSeparator(query[i]) then 0 else query[i]
  }

  /** The `strsep` loop that ends every segment and counts them. */
  method Separate(buf: array<byte>, ghost query: CString) returns (nel: nat)
    requires Holds(buf[..], 0, query)
    modifies buf
    ensures Separated(buf[..], query, 0) && nel == 1 + SegmentCount(query)
    ensures SameOutside(old(buf[..]), buf[..], 0, |query|)
  {
    nel := 2;
    var q := 0;
    assert query[0..] == query;
    while buf[q] != 0
      invariant 0 <= q <= |query| < buf.Length
      invariant forall i :: q <= i < |query| ==> buf[i] == query[i]
      invariant forall i :: 0 <= i < q ==> buf[i] == if IsSeparator(query[i]) then 0 else query[i]
      invariant buf[|query|] == 0 && SameOutside(old(buf[..]), buf[..], 0, |query|)
      invariant nel - 1 + SegmentCount(query[q..]) - 1 == SegmentCount(query)
      decreases |query| - q
    {
      assert query[q..][1..] == query[q + 1..];
      if IsSeparator(buf[q]) {
        buf[q] := 0;
        nel := nel + 1;
      }
      q := q + 1;
    }
  }

  lemma {:induction false} SegmentHeld(b: seq<byte>, query: CString, q: nat)
    requires q <= |query| && Separated(b, query, q)
    ensures Holds(b, q, query[q..q + SegmentEnd(query[q..])])
  {
    var k := SegmentEnd(query[q..]);
    NoSeparator(query[q..]);
    assert forall i :: q <= i < q + k ==> query[i] == query[q..][i - q];
    assert q + k < |query| ==> query[q + k] == query[q..][k];
  }

  lemma {:induction false} NoSeparator(s: seq<byte>)
    ensures forall i :: 0 <= i < SegmentEnd(s) ==> !IsSeparator(s[i])
  {
    if s != [] && !IsSeparator(s[0]) {
      NoSeparator(s[1..]);
      assert forall i :: 1 <= i < |s| ==> s[i] == s[1..][i - 1];
    }
  }

  lemma {:induction false} SegmentsLeft(s: seq<byte>)
    ensures SegmentEnd(s) < |s| ==> SegmentCount(s) == 1 + SegmentCount(s[SegmentEnd(s) + 1..])
  {
    if s != [] && !IsSeparator(s[0]) {
      SegmentsLeft(s[1..]);
      assert SegmentEnd(s) < |s| ==> s[1..][SegmentEnd(s[1..]) + 1..] == s[SegmentEnd(s) + 1..];
    }
  }

  lemma AssignAllStep(m: map<CString, CString>, query: seq<byte>, q: nat)
    requires q <= |query|
    ensures var k := SegmentEnd(query[q..]);
      var m' := Assign(m, query[q..q + k]);
      AssignAll(m, query[q..]) == if q + k == |query| then m' else AssignAll(m', query[q + k + 1..])
  {
    hide Assign, SegmentEnd;
    var k := SegmentEnd(query[q..]);
    SliceOfRest(query, q, k);
    if q + k < |query| {
      SliceOfRest(query, q, k + 1);
    }
  }

  lemma SliceOfRest(t: seq<byte>, off: nat, i: nat)
    requires off + i <= |t|
    ensures t[off..][..i] == t[off..off + i] && t[off..][i..] == t[off + i..]
  {
  }

  lemma AssignNothing(m: map<CString, CString>)
    ensures AssignAll(m, []) == m
  {
  }

  /** `webcgi_init`: the table holds, as pointers into the buffer, what the
      segments assign, and was created large enough for all of it. */
  method WebcgiInit(buf: array<byte>, ghost query: CString) returns (table: map<CString, Entry>, nel: nat)
    requires Holds(buf[..], 0, query)
    modifies buf
    ensures Stored(buf[..], table, AssignAll(map[], query), |query| + 1)
    ensures |table| < nel
    ensures SameOutside(old(buf[..]), buf[..], 0, |query| + 1)
  {
    hide Assign, AssignAll, SegmentEnd, SegmentCount, Holds, Stored, Separated, SameOutside;
    var end := StrLen(buf, 0, query);
    nel := Separate(buf, query);
    table := map[];
    ghost var m: map<CString, CString> := map[];
    NothingStored(buf[..]);
    SameWider(old(buf[..]), old(buf[..]), buf[..], 0, |query|, |query| + 1);
    var q := 0;
    assert query[0..] == query;
    while q < end
      invariant q <= |query| + 1 && Stored(buf[..], table, m, q)
      invariant q <= |query| ==> Separated(buf[..], query, q)
      invariant q <= |query| ==> AssignAll(map[], query) == AssignAll(m, query[q..]) && |table| + SegmentCount(query[q..]) < nel
      invariant q > |query| ==> AssignAll(map[], query) == m && |table| < nel
      invariant SameOutside(old(buf[..]), buf[..], 0, |query| + 1)
    {
      ghost var k := SegmentEnd(query[q..]);
      ghost var segment: CString := query[q..q + k];
      SegmentHeld(buf[..], query, q);
      CountStep(query, q);
      AssignAllStep(m, query, q);
      var len := StrLen(buf, q, segment);
      ghost var before := buf[..];
      table := EnterSegment(buf, q, segment, table, m);
      SameWider(old(buf[..]), before, buf[..], q, q + len + 1, |query| + 1);
      SeparatedKept(before, buf[..], query, q, q + len + 1);
      m := Assign(m, segment);
      q := q + len + 1;
    }
    if q == |query| {
      AssignNothing(m);
      SameItself(buf[..], q, |query| + 1);
      StoredKept(buf[..], buf[..], table, m, q, |query| + 1);
    }
  }

  lemma NothingStored(b: seq<byte>)
    ensures Stored(b, map[], map[], 0)
  {
  }

  lemma SameItself(b: seq<byte>, lo: nat, hi: nat)
    ensures SameOutside(b, b, lo, hi)
  {
  }

  lemma SameWider(a: seq<byte>, b: seq<byte>, c: seq<byte>, lo: nat, hi: nat, end: nat)
    requires (SameOutside(a, b, 0, end) || a == b) && SameOutside(b, c, lo, hi) && hi <= end
    ensures SameOutside(a, c, 0, end)
  {
  }

  lemma SeparatedKept(b: seq<byte>, c: seq<byte>, query: seq<byte>, q: nat, next: nat)
    requires Separated(b, query, q) && q <= next && SameOutside(b, c, q, next)
    ensures next <= |query| ==> Separated(c, query, next)
  {
  }

  lemma CountStep(query: seq<byte>, q: nat)
    requires q <= |query|
    ensures var k := SegmentEnd(query[q..]);
      q + k < |query| ==> SegmentCount(query[q..]) == 1 + SegmentCount(query[q + k + 1..])
  {
    var rest := query[q..];
    SegmentsLeft(rest);
    assert SegmentEnd(rest) < |rest| ==> rest[SegmentEnd(rest) + 1..] == query[q + SegmentEnd(rest) + 1..];
  }
}
