/** Base 64 by section 4 of RFC 4648: `base64_encode`, `base64_decode` and the two
    length functions. Shifted fields that do not overlap are added. */
module Base64 {
  import opened Bytes
  import opened Wrappers

  const UPPER := "ABCDEFGHIJKLMNOPQRSTUVWXYZ"
  const LOWER := "abcdefghijklmnopqrstuvwxyz"
  const FIGURES := "0123456789"
  const ALPHABET := UPPER + LOWER + FIGURES + "+/"
  const INT_MAX := 0x7FFF_FFFF

  type sextet = x: int | 0 <= x < 64

  /** What `strchr` finds: a letter, or the terminator of the alphabet. */
  type index = x: int | 0 <= x <= 64

  const TERMINATOR: index := 64

  /** Where a letter stands, or the end. */
  function IndexFrom(c: char, i: nat): (k: nat)
    requires i <= |ALPHABET|
    ensures i <= k <= |ALPHABET| && (k < |ALPHABET| ==> ALPHABET[k] == c)
    decreases |ALPHABET| - i
  {
    if i == |ALPHABET| || ALPHABET[i] == c then i else IndexFrom(c, i + 1)
  }

  predicate InAlphabet(c: char) {
    IndexFrom(c, 0) < |ALPHABET|
  }

  /** `strchr` in the alphabet, which finds a NUL character behind the last letter. */
  function Lookup(c: char): Option<index> {
    if c == '\0' then Some(TERMINATOR) else if InAlphabet(c) then Some(IndexFrom(c, 0)) else None
  }

  function Letter(x: sextet): char {
    ALPHABET[x]
  }

  // ---- Encoding --------------------------------------------------------------------------------

  function High(a: byte): sextet {
    a / 4
  }

  function Second(a: byte, b: byte): sextet {
    a % 4 * 16 + b / 16
  }

  function Third(b: byte, c: byte): sextet {
    b % 16 * 4 + c / 64
  }

  function Low(c: byte): sextet {
    c % 64
  }

  /** The bits of the input in groups of six, the last one filled with zeros. */
  function Sextets(b: seq<byte>): seq<sextet> {
    if b == [] then []
    else if |b| == 1 then [High(b[0]), Second(b[0], 0)]
    else if |b| == 2 then [High(b[0]), Second(b[0], b[1]), Third(b[1], 0)]
    else [High(b[0]), Second(b[0], b[1]), Third(b[1], b[2]), Low(b[2])] + Sextets(b[3..])
  }

  function Letters(v: seq<sextet>): (s: string)
    ensures |s| == |v|
  {
    if v == [] then [] else [Letter(v[0])] + Letters(v[1..])
  }

  function Padding(n: nat): string {
    if n % 3 == 0 then "" else if n % 3 == 1 then "==" else "="
  }

  function Encoded(b: seq<byte>): string {
    Letters(Sextets(b)) + Padding(|b|)
  }

  method Encode(input: seq<byte>) returns (out: string)
    ensures out == Encoded(input)
  {
    hide Letter, High, Second, Third, Low, Letters, Sextets, Written;
    out := "";
    var p := 0;
    NothingWritten(input);
    while |input| - p >= 3
      invariant 0 <= p <= |input| && p % 3 == 0
      invariant Written(out, input, p)
    {
      GroupWritten(out, input, p);
      out := out + [Letter(High(input[p]))];
      out := out + [Letter(Second(input[p], input[p + 1]))];
      p := p + 1;
      out := out + [Letter(Third(input[p], input[p + 1]))];
      p := p + 1;
      out := out + [Letter(Low(input[p]))];
      p := p + 1;
    }
    LastWritten(out, input, p);
    var left := |input| - p;
    if left > 0 {
      out := out + [Letter(High(input[p]))];
      if left == 2 {
        out := out + [Letter(Second(input[p], input[p + 1]))];
        p := p + 1;
        out := out + [Letter(Third(input[p], 0))];
      } else {
        out := out + [Letter(Second(input[p], 0))];
        out := out + "=";
      }
      out := out + "=";
    }
  }

  /** The letters of the bytes before `p` are written. */
  ghost predicate Written(out: string, input: seq<byte>, p: nat) {
    p <= |input| && out + Letters(Sextets(input[p..])) == Letters(Sextets(input))
  }

  lemma NothingWritten(input: seq<byte>)
    ensures Written("", input, 0)
  {
    hide Letters, Sextets;
    assert input[0..] == input && [] + Letters(Sextets(input)) == Letters(Sextets(input));
  }

  lemma GroupWritten(out: string, b: seq<byte>, p: nat)
    requires p + 3 <= |b| && Written(out, b, p)
    ensures Written(out + [Letter(High(b[p]))] + [Letter(Second(b[p], b[p + 1]))] + [Letter(Third(b[p + 1], b[p + 2]))]
                      + [Letter(Low(b[p + 2]))], b, p + 3)
  {
    hide Letter, High, Second, Third, Low, Letters, Sextets;
    GroupAppended(out, b, p);
  }

  /** What is left of the encoding behind the last whole group. */
  lemma LastWritten(out: string, b: seq<byte>, p: nat)
    requires Written(out, b, p) && p % 3 == 0 && |b| - p < 3
    ensures Encoded(b) == if p == |b| then out
      else if p == |b| - 1 then out + [Letter(High(b[p]))] + [Letter(Second(b[p], 0))] + "=" + "="
      else out + [Letter(High(b[p]))] + [Letter(Second(b[p], b[p + 1]))] + [Letter(Third(b[p + 1], 0))] + "="
  {
    hide Letter, High, Second, Third, Low, Letters, Sextets;
    LastLetters(b[p..]);
  }

  lemma GroupAppended(out: string, b: seq<byte>, p: nat)
    requires p + 3 <= |b|
    ensures out + Letters(Sextets(b[p..])) ==
      out + [Letter(High(b[p]))] + [Letter(Second(b[p], b[p + 1]))] + [Letter(Third(b[p + 1], b[p + 2]))] + [Letter(Low(b[p + 2]))]
          + Letters(Sextets(b[p + 3..]))
  {
    hide Letter, High, Second, Third, Low, Letters, Sextets;
    GroupLetters(b, p);
    Append(out, Letter(High(b[p])), Letter(Second(b[p], b[p + 1])), Letter(Third(b[p + 1], b[p + 2])),
           Letter(Low(b[p + 2])), Letters(Sextets(b[p + 3..])));
  }

  lemma Append(out: string, a: char, b: char, c: char, d: char, rest: string)
    ensures out + ([a, b, c, d] + rest) == out + [a] + [b] + [c] + [d] + rest
  {
  }

  lemma GroupLetters(b: seq<byte>, p: nat)
    requires p + 3 <= |b|
    ensures Letters(Sextets(b[p..])) ==
      [Letter(High(b[p])), Letter(Second(b[p], b[p + 1])), Letter(Third(b[p + 1], b[p + 2])), Letter(Low(b[p + 2]))]
      + Letters(Sextets(b[p + 3..]))
  {
    hide Letter, High, Second, Third, Low;
    var rest := Sextets(b[p + 3..]);
    assert b[p..][3..] == b[p + 3..];
    FourLetters(High(b[p]), Second(b[p], b[p + 1]), Third(b[p + 1], b[p + 2]), Low(b[p + 2]), rest);
  }

  lemma LettersCons(x: sextet, rest: seq<sextet>)
    ensures Letters([x] + rest) == [Letter(x)] + Letters(rest)
  {
  }

  lemma FourLetters(w: sextet, x: sextet, y: sextet, z: sextet, rest: seq<sextet>)
    ensures Letters([w, x, y, z] + rest) == [Letter(w), Letter(x), Letter(y), Letter(z)] + Letters(rest)
  {
    hide Letter, Letters;
    LettersCons(z, rest);
    LettersCons(y, [z] + rest);
    LettersCons(x, [y] + ([z] + rest));
    LettersCons(w, [x] + ([y] + ([z] + rest)));
    assert [w, x, y, z] + rest == [w] + ([x] + ([y] + ([z] + rest)));
  }

  lemma LastLetters(b: seq<byte>)
    requires |b| < 3
    ensures Letters(Sextets(b)) ==
      if b == [] then []
      else if |b| == 1 then [Letter(High(b[0])), Letter(Second(b[0], 0))]
      else [Letter(High(b[0])), Letter(Second(b[0], b[1])), Letter(Third(b[1], 0))]
  {
    hide Letter, High, Second, Third, Low, Letters;
    NoLetters();
    if |b| == 1 {
      ThreeLetters(High(b[0]), Second(b[0], 0), 0);
    } else if |b| == 2 {
      ThreeLetters(High(b[0]), Second(b[0], b[1]), Third(b[1], 0));
    }
  }

  lemma NoLetters()
    ensures Letters([]) == []
  {
  }

  lemma ThreeLetters(x: sextet, y: sextet, z: sextet)
    ensures Letters([x, y]) == [Letter(x), Letter(y)] && Letters([x, y, z]) == [Letter(x), Letter(y), Letter(z)]
  {
    hide Letter, Letters;
    NoLetters();
    LettersCons(z, []);
    LettersCons(y, []);
    LettersCons(y, [z]);
    LettersCons(x, [y]);
    LettersCons(x, [y, z]);
    assert [x, y] == [x] + [y] && [x, y, z] == [x] + [y, z] && [y, z] == [y] + [z];
    assert [y] + [] == [y] && [z] + [] == [z];
  }

  // ---- The meaning of the digits -----------------------------------------------------------------

  /** The number whose digits are `acc`, then `s`. */
  function Digits(base: nat, acc: nat, s: seq<nat>): nat
    decreases |s|
  {
    if s == [] then acc else Digits(base, acc * base + s[0], s[1..])
  }

  /** How many zero bits fill the last group, as a factor. */
  function Filling(n: nat): nat {
    if n % 3 == 0 then 1 else if n % 3 == 1 then 16 else 4
  }

  /** The sextets are the digits to base 64 of the number whose digits to base
      256 are the bytes, shifted left by the bits of the filling. */
  lemma {:induction false} SextetsMeaning(b: seq<byte>, acc: nat)
    ensures Digits(64, acc, Sextets(b)) == Digits(256, acc, b) * Filling(|b|)
    decreases |b|
  {
    hide Digits, High, Second, Third, Low;
    NoDigits(64, acc);
    NoDigits(256, acc);
    if |b| >= 3 {
      var next := ((acc * 256 + b[0]) * 256 + b[1]) * 256 + b[2];
      SextetsMeaning(b[3..], next);
      GroupMeaning(b, acc, next);
    } else if b != [] {
      ShortMeaning(b, acc);
    }
  }

  lemma GroupMeaning(b: seq<byte>, acc: nat, next: nat)
    requires |b| >= 3 && next == ((acc * 256 + b[0]) * 256 + b[1]) * 256 + b[2]
    ensures Digits(64, acc, Sextets(b)) == Digits(64, next, Sextets(b[3..]))
    ensures Digits(256, acc, b) == Digits(256, next, b[3..])
  {
    hide Digits, High, Second, Third, Low;
    FourDigits(acc, High(b[0]), Second(b[0], b[1]), Third(b[1], b[2]), Low(b[2]), Sextets(b[3..]));
    SameNumber(acc, b[0], b[1], b[2]);
    ThreeDigits(256, acc, b[0], b[1], b[2], b[3..]);
    assert b == [b[0], b[1], b[2]] + b[3..];
  }

  lemma ShortMeaning(b: seq<byte>, acc: nat)
    requires 0 < |b| < 3
    ensures Digits(64, acc, Sextets(b)) == Digits(256, acc, b) * Filling(|b|)
  {
    hide Digits, High, Second, Third, Low;
    if |b| == 2 {
      TwoDigits(256, acc, b[0], b[1]);
      ThreeDigits(64, acc, High(b[0]), Second(b[0], b[1]), Third(b[1], 0), []);
      NoDigits(64, ((acc * 64 + High(b[0])) * 64 + Second(b[0], b[1])) * 64 + Third(b[1], 0));
      SameShort(acc, b[0], b[1]);
      assert b == [b[0], b[1]];
      assert Sextets(b) == [High(b[0]), Second(b[0], b[1]), Third(b[1], 0)] + [];
    } else {
      OneDigit(256, acc, b[0]);
      TwoDigits(64, acc, High(b[0]), Second(b[0], 0));
      SameShort(acc, b[0], 0);
      assert b == [b[0]];
    }
  }

  /** The arithmetic of one group. */
  lemma SameNumber(acc: nat, a: byte, b: byte, c: byte)
    ensures (((acc * 64 + High(a)) * 64 + Second(a, b)) * 64 + Third(b, c)) * 64 + Low(c) == ((acc * 256 + a) * 256 + b) * 256 + c
  {
  }

  lemma SameShort(acc: nat, a: byte, b: byte)
    ensures (acc * 64 + High(a)) * 64 + Second(a, 0) == (acc * 256 + a) * 16
    ensures ((acc * 64 + High(a)) * 64 + Second(a, b)) * 64 + Third(b, 0) == ((acc * 256 + a) * 256 + b) * 4
  {
  }

  lemma NoDigits(base: nat, acc: nat)
    ensures Digits(base, acc, []) == acc
  {
  }

  lemma DigitsCons(base: nat, acc: nat, x: nat, rest: seq<nat>)
    ensures Digits(base, acc, [x] + rest) == Digits(base, acc * base + x, rest)
  {
  }

  lemma OneDigit(base: nat, acc: nat, x: nat)
    ensures Digits(base, acc, [x]) == acc * base + x
  {
  }

  lemma TwoDigits(base: nat, acc: nat, x: nat, y: nat)
    ensures Digits(base, acc, [x, y]) == (acc * base + x) * base + y
  {
    hide Digits;
    DigitsCons(base, acc, x, [y]);
    OneDigit(base, acc * base + x, y);
    assert [x] + [y] == [x, y];
  }

  lemma ThreeDigits(base: nat, acc: nat, x: nat, y: nat, z: nat, rest: seq<nat>)
    ensures Digits(base, acc, [x, y, z] + rest) == Digits(base, ((acc * base + x) * base + y) * base + z, rest)
  {
    hide Digits;
    DigitsCons(base, acc, x, [y] + ([z] + rest));
    DigitsCons(base, acc * base + x, y, [z] + rest);
    DigitsCons(base, (acc * base + x) * base + y, z, rest);
    assert [x, y, z] + rest == [x] + ([y] + ([z] + rest));
  }

  lemma FourDigits(acc: nat, w: sextet, x: sextet, y: sextet, z: sextet, rest: seq<sextet>)
    ensures Digits(64, acc, [w, x, y, z] + rest) == Digits(64, (((acc * 64 + w) * 64 + x) * 64 + y) * 64 + z, rest)
  {
    hide Digits;
    DigitsCons(64, acc, w, [x, y, z] + rest);
    ThreeDigits(64, acc * 64 + w, x, y, z, rest);
    assert [w, x, y, z] + rest == [w] + ([x, y, z] + rest);
  }

  // ---- Decoding ----------------------------------------------------------------------------------

  /** What is found before the first `=`; all other characters are skipped. */
  function Indices(s: string): seq<index> {
    if s == [] || s[0] == '=' then []
    else if Lookup(s[0]).None? then Indices(s[1..])
    else [Lookup(s[0]).value] + Indices(s[1..])
  }

  function Digit(k: index): sextet {
    if k == TERMINATOR then 0 else k
  }

  /** The terminator's index is one bit too long for a digit: it reads as zero and
      sets the lowest bit of the digit before it in its group of four. */
  function DigitAt(v: seq<index>, i: nat): sextet
    requires i < |v|
  {
    var d := Digit(v[i]);
    if i % 4 != 3 && i + 1 < |v| && v[i + 1] == TERMINATOR && d % 2 == 0 then d + 1 else d
  }

  function Bled(v: seq<index>): (r: seq<sextet>)
    ensures |r| == |v|
  {
    seq(|v|, i requires 0 <= i < |v| => DigitAt(v, i))
  }

  /** The digits that are decoded. */
  function Values(s: string): seq<sextet> {
    Bled(Indices(s))
  }

  lemma BledPlain(v: seq<index>)
    requires TERMINATOR !in v
    ensures Bled(v) == v
  {
  }

  lemma {:induction false} IndicesPlain(s: string)
    requires '\0' !in s
    ensures TERMINATOR !in Indices(s)
  {
    hide IndexFrom;
    if s != [] {
      IndicesPlain(s[1..]);
    }
  }

  /** Without a NUL character the digits are the indices of the letters. */
  lemma ValuesPlain(s: string)
    requires '\0' !in s
    ensures Values(s) == Indices(s)
  {
    IndicesPlain(s);
    BledPlain(Indices(s));
  }

  function Byte0(w: int, x: int): byte
    requires 0 <= w < 64 && 0 <= x < 64
  {
    w * 4 + x / 16
  }

  function Byte1(x: int, y: int): byte
    requires 0 <= x < 64 && 0 <= y < 64
  {
    x % 16 * 16 + y / 4
  }

  function Byte2(y: int, z: int): byte
    requires 0 <= y < 64 && 0 <= z < 64
  {
    y % 4 * 64 + z
  }

  /** Whole bytes in the bits of the digits. */
  function Decoded(v: seq<sextet>): (b: seq<byte>)
    ensures |b| == 6 * |v| / 8
  {
    if |v| < 2 then []
    else if |v| == 2 then [Byte0(v[0], v[1])]
    else if |v| == 3 then [Byte0(v[0], v[1]), Byte1(v[1], v[2])]
    else [Byte0(v[0], v[1]), Byte1(v[1], v[2]), Byte2(v[2], v[3])] + Decoded(v[4..])
  }

  /** `(x << 6) | k`. */
  function Shifted(x: nat, k: index): nat {
    if k < TERMINATOR then x * 64 + k else (if x % 2 == 0 then x + 1 else x) * 64
  }

  method Decode(input: string) returns (out: seq<byte>)
    ensures out == Decoded(Values(input))
  {
    hide Indices, Decoded, Lookup, Shifted, Accumulated, Bled;
    NoneAccumulated();
    ghost var pending: seq<index> := [];
    var n, x := 0, 0;
    out := [];
    var p := 0;
    assert input[0..] == input && [] + Indices(input) == Indices(input);
    while p < |input|
      invariant 0 <= p <= |input| && n == |pending| < 4 && x == Accumulated(pending)
      invariant out + Decoded(Bled(pending + Indices(input[p..]))) == Decoded(Values(input))
    {
      IndicesStep(input, p);
      if input[p] == '=' {
        break;
      }
      var k := Lookup(input[p]);
      p := p + 1;
      if k.Some? {
        assert pending + ([k.value] + Indices(input[p..])) == pending + [k.value] + Indices(input[p..]);
        AccumulatedMore(pending, k.value);
        pending := pending + [k.value];
        x := Shifted(x, k.value);
        n := n + 1;
        if n == 4 {
          GroupDecoded(out, pending, Indices(input[p..]));
          ghost var was := out;
          out := out + [x / 65536 % 256];
          out := out + [x / 256 % 256];
          out := out + [x % 256];
          assert out == was + Three(x);
          pending := [];
          n, x := 0, 0;
          assert pending + Indices(input[p..]) == Indices(input[p..]);
        }
      }
    }
    IndicesEnd(input, p);
    assert pending + [] == pending;
    RestDecoded(pending);
    ghost var whole := out;
    if n == 3 {
      out := out + [x / 1024 % 256];
      out := out + [x / 4 % 256];
      assert out == whole + Two(x);
    } else if n == 2 {
      out := out + [x / 16 % 256];
      assert out == whole + One(x);
    }
  }

  /** The bytes of a full group, and of one that ends after three or two digits. */
  function Three(x: nat): seq<byte> {
    [x / 65536 % 256, x / 256 % 256, x % 256]
  }

  function Two(x: nat): seq<byte> {
    [x / 1024 % 256, x / 4 % 256]
  }

  function One(x: nat): seq<byte> {
    [x / 16 % 256]
  }

  lemma IndicesStep(s: string, p: nat)
    requires p < |s|
    ensures s[p] == '=' ==> Indices(s[p..]) == []
    ensures s[p] != '=' && Lookup(s[p]).Some? ==> Indices(s[p..]) == [Lookup(s[p]).value] + Indices(s[p + 1..])
    ensures s[p] != '=' && Lookup(s[p]).None? ==> Indices(s[p..]) == Indices(s[p + 1..])
  {
    hide Lookup;
    assert s[p..][1..] == s[p + 1..];
  }

  lemma IndicesEnd(s: string, p: nat)
    requires p <= |s| && (p < |s| ==> s[p] == '=')
    ensures Indices(s[p..]) == []
  {
  }

  // ---- The accumulator ---------------------------------------------------------------------------

  function Accumulated(v: seq<index>): nat {
    if v == [] then 0 else Shifted(Accumulated(v[..|v| - 1]), v[|v| - 1])
  }

  lemma NoneAccumulated()
    ensures Accumulated([]) == 0
  {
  }

  lemma AccumulatedMore(v: seq<index>, k: index)
    ensures Accumulated(v + [k]) == Shifted(Accumulated(v), k)
  {
    hide Shifted;
    assert (v + [k])[..|v|] == v;
  }

  /** A terminator at the start of a group leaves a bit above it. */
  function Carry(v: seq<index>): nat {
    if v != [] && v[0] == TERMINATOR then 1 else 0
  }

  function SetLow(d: sextet): sextet {
    if d % 2 == 0 then d + 1 else d
  }

  lemma BledMore(v: seq<index>, k: index)
    requires |v| < 4
    ensures k < TERMINATOR || v == [] ==> Bled(v + [k]) == Bled(v) + [Digit(k)]
    ensures k == TERMINATOR && v != [] ==>
      var b, n := Bled(v), |v| - 1; Bled(v + [k]) == b[..n] + [SetLow(b[n])] + [0]
  {
    var all := v + [k];
    assert forall i :: 0 <= i < |v| ==> all[i] == v[i];
    assert forall i :: 0 <= i < |v| - 1 ==> DigitAt(all, i) == DigitAt(v, i);
  }

  /** The accumulator holds the digits of the group, and the bit above it. */
  lemma {:induction false} AccumulatedIs(v: seq<index>)
    requires |v| <= 4
    ensures Accumulated(v) == Digits(64, Carry(v), Bled(v))
    decreases |v|
  {
    hide Digits, Bled, SetLow, Digit;
    if v == [] {
      assert Bled(v) == [];
      NoDigits(64, 0);
    } else {
      var n := |v| - 1;
      var front, k := v[..n], v[n];
      assert v == front + [k];
      AccumulatedIs(front);
      BledMore(front, k);
      if front == [] {
        assert Bled(front) == [] && [] + [Digit(k)] == [Digit(k)];
        FirstAccumulated(v, k);
      } else if k < TERMINATOR {
        DigitsMore(64, Carry(v), Bled(front), Digit(k));
        DigitIs(k);
      } else {
        LowBit(Carry(v), Bled(front));
      }
    }
  }

  lemma DigitIs(k: index)
    ensures k < TERMINATOR ==> Digit(k) == k
    ensures Digit(TERMINATOR) == 0
  {
  }

  lemma FirstAccumulated(v: seq<index>, k: index)
    requires v == [k]
    ensures Accumulated(v) == Digits(64, Carry(v), [Digit(k)])
  {
    assert v[..0] == [];
    OneDigit(64, Carry(v), Digit(k));
  }

  /** Setting the lowest bit of the last digit sets that of the number. */
  lemma LowBit(carry: nat, b: seq<sextet>)
    requires b != []
    ensures var n := |b| - 1;
      Digits(64, carry, b[..n] + [SetLow(b[n])] + [0]) == Shifted(Digits(64, carry, b), TERMINATOR)
  {
    hide Digits, Shifted, SetLow;
    var n := |b| - 1;
    assert b == b[..n] + [b[n]];
    DigitsMore(64, carry, b[..n], b[n]);
    DigitsMore(64, carry, b[..n], SetLow(b[n]));
    DigitsMore(64, carry, b[..n] + [SetLow(b[n])], 0);
    ShiftedLow(Digits(64, carry, b[..n]), b[n]);
  }

  lemma ShiftedLow(x: nat, d: sextet)
    ensures Shifted(x * 64 + d, TERMINATOR) == (x * 64 + SetLow(d)) * 64
  {
    SameParity(x, d / 2, d % 2);
  }

  lemma SameParity(x: nat, h: nat, l: nat)
    requires l < 2
    ensures (x * 64 + (2 * h + l)) % 2 == l
  {
    Parity(32 * x + h, l);
  }

  lemma Parity(k: nat, l: nat)
    requires l < 2
    ensures (2 * k + l) % 2 == l
  {
  }

  lemma {:induction false} DigitsMore(base: nat, acc: nat, s: seq<nat>, x: nat)
    ensures Digits(base, acc, s + [x]) == Digits(base, acc, s) * base + x
    decreases |s|
  {
    if s == [] {
      assert s + [x] == [x];
      OneDigit(base, acc, x);
    } else {
      assert (s + [x])[1..] == s[1..] + [x];
      DigitsMore(base, acc * base + s[0], s[1..], x);
    }
  }

  function Pack(w: int, x: int, y: int, z: int): int {
    ((w * 64 + x) * 64 + y) * 64 + z
  }

  lemma QuotientIs(n: int, d: int, q: int, r: int)
    requires d == 4 || d == 16 || d == 256 || d == 1024 || d == 65536
    requires n == d * q + r && 0 <= r < d
    ensures n / d == q && n % d == r
  {
  }

  /** Four digits are three bytes. */
  lemma GroupDecoded(out: seq<byte>, v: seq<index>, rest: seq<index>)
    requires |v| == 4
    ensures out + Decoded(Bled(v + rest)) == out + Three(Accumulated(v)) + Decoded(Bled(rest))
  {
    hide Accumulated, Digits, Byte0, Byte1, Byte2, Pack, Bled, Decoded, Three;
    var b, c := Bled(v), Carry(v);
    AccumulatedIs(v);
    assert b == [b[0], b[1], b[2], b[3]];
    PackFour(c, b[0], b[1], b[2], b[3]);
    GroupBytes(c, b[0], b[1], b[2], b[3]);
    BledGroup(v, rest);
    DecodedGroup(b, Bled(rest));
  }

  /** A group does not look at the next one. */
  lemma BledGroup(v: seq<index>, rest: seq<index>)
    requires |v| == 4
    ensures Bled(v + rest) == Bled(v) + Bled(rest)
  {
    hide DigitAt;
    var all := v + rest;
    forall i | 0 <= i < |all| ensures DigitAt(all, i) == if i < 4 then DigitAt(v, i) else DigitAt(rest, i - 4) {
      DigitMoved(v, rest, i);
    }
  }

  lemma DigitMoved(v: seq<index>, rest: seq<index>, i: nat)
    requires |v| == 4 && i < |v + rest|
    ensures DigitAt(v + rest, i) == if i < 4 then DigitAt(v, i) else DigitAt(rest, i - 4)
  {
    assert i >= 4 ==> i % 4 == (i - 4) % 4;
  }

  lemma DecodedGroup(b: seq<sextet>, rest: seq<sextet>)
    requires |b| == 4
    ensures Decoded(b + rest) == [Byte0(b[0], b[1]), Byte1(b[1], b[2]), Byte2(b[2], b[3])] + Decoded(rest)
  {
    hide Byte0, Byte1, Byte2;
    assert (b + rest)[4..] == rest;
  }

  lemma PackFour(c: nat, w: sextet, x: sextet, y: sextet, z: sextet)
    ensures Digits(64, c, [w, x, y, z]) == c * 16777216 + Pack(w, x, y, z)
  {
    hide Digits;
    assert [w, x, y, z] == [w, x, y, z] + [];
    FourDigits(c, w, x, y, z, []);
    NoDigits(64, (((c * 64 + w) * 64 + x) * 64 + y) * 64 + z);
  }

  lemma PackThree(c: nat, x: sextet, y: sextet, z: sextet)
    ensures Digits(64, c, [x, y, z]) == c * 262144 + Pack(0, x, y, z)
  {
    hide Digits;
    assert [x, y, z] == [x, y, z] + [];
    ThreeDigits(64, c, x, y, z, []);
    NoDigits(64, ((c * 64 + x) * 64 + y) * 64 + z);
  }

  lemma PackTwo(c: nat, y: sextet, z: sextet)
    ensures Digits(64, c, [y, z]) == c * 4096 + Pack(0, 0, y, z)
  {
    hide Digits;
    TwoDigits(64, c, y, z);
  }

  /** The bit above the group is cut off by the conversion to a byte. */
  lemma GroupBytes(c: nat, w: sextet, x: sextet, y: sextet, z: sextet)
    ensures Three(c * 16777216 + Pack(w, x, y, z)) == [Byte0(w, x), Byte1(x, y), Byte2(y, z)]
  {
    var n := c * 16777216 + Pack(w, x, y, z);
    var b0: int, b1: int, b2: int := Byte0(w, x), Byte1(x, y), Byte2(y, z);
    assert n == 65536 * (256 * c + b0) + (256 * b1 + b2);
    QuotientIs(n, 65536, 256 * c + b0, 256 * b1 + b2);
    QuotientIs(256 * c + b0, 256, c, b0);
    QuotientIs(n, 256, 256 * (256 * c + b0) + b1, b2);
    QuotientIs(256 * (256 * c + b0) + b1, 256, 256 * c + b0, b1);
  }

  /** Three digits are two bytes, two are one, and a single one is none. */
  lemma RestDecoded(v: seq<index>)
    requires |v| < 4
    ensures var x := Accumulated(v);
      Decoded(Bled(v)) == if |v| == 3 then Two(x) else if |v| == 2 then One(x) else []
  {
    hide Accumulated, Digits, Byte0, Byte1, Byte2, Bled, Two, One, Decoded, Carry;
    AccumulatedIs(v);
    ShortDecoded(Bled(v));
    if |v| == 3 {
      ThreeLeft(Carry(v), Bled(v));
    } else if |v| == 2 {
      TwoLeft(Carry(v), Bled(v));
    }
  }

  lemma ThreeLeft(c: nat, b: seq<sextet>)
    requires |b| == 3
    ensures Two(Digits(64, c, b)) == [Byte0(b[0], b[1]), Byte1(b[1], b[2])]
  {
    hide Digits, Two, Byte0, Byte1;
    assert b == [b[0], b[1], b[2]];
    TwoBytes(c, b[0], b[1], b[2]);
  }

  lemma TwoLeft(c: nat, b: seq<sextet>)
    requires |b| == 2
    ensures One(Digits(64, c, b)) == [Byte0(b[0], b[1])]
  {
    hide Digits, One, Byte0;
    assert b == [b[0], b[1]];
    OneByte(c, b[0], b[1]);
  }

  lemma ShortDecoded(b: seq<sextet>)
    requires |b| < 4
    ensures Decoded(b) ==
      if |b| == 3 then [Byte0(b[0], b[1]), Byte1(b[1], b[2])] else if |b| == 2 then [Byte0(b[0], b[1])] else []
  {
  }

  lemma TwoBytes(c: nat, w: sextet, x: sextet, y: sextet)
    ensures Two(Digits(64, c, [w, x, y])) == [Byte0(w, x), Byte1(x, y)]
  {
    hide Digits, Two, Pack;
    PackThree(c, w, x, y);
    var x1, x0 := Halves(x, 16);
    var y1, y0 := Halves(y, 4);
    TwoParts(c, w, x1, x0, y1, y0);
  }

  lemma Halves(x: sextet, d: nat) returns (high: nat, low: nat)
    requires d == 4 || d == 16
    ensures high == x / d && low == x % d && x == d * high + low && high < 64 / d && low < d
  {
    high, low := x / d, x % d;
  }

  lemma TwoParts(c: nat, w: nat, x1: nat, x0: nat, y1: nat, y0: nat)
    requires w < 64 && x1 < 4 && x0 < 16 && y1 < 16 && y0 < 4
    ensures Two(c * 262144 + Pack(0, w, 16 * x1 + x0, 4 * y1 + y0)) == [w * 4 + x1, x0 * 16 + y1]
  {
    var n, b0, b1 := c * 262144 + Pack(0, w, 16 * x1 + x0, 4 * y1 + y0), w * 4 + x1, x0 * 16 + y1;
    QuotientIs(n, 1024, 256 * c + b0, 4 * b1 + y0);
    QuotientIs(256 * c + b0, 256, c, b0);
    QuotientIs(n, 4, 256 * (256 * c + b0) + b1, y0);
    QuotientIs(256 * (256 * c + b0) + b1, 256, 256 * c + b0, b1);
  }

  lemma OneByte(c: nat, w: sextet, x: sextet)
    ensures One(Digits(64, c, [w, x])) == [Byte0(w, x)]
  {
    hide Digits, One, Pack;
    PackTwo(c, w, x);
    var x1, x0 := Halves(x, 16);
    OnePart(c, w, x1, x0);
  }

  lemma OnePart(c: nat, w: nat, x1: nat, x0: nat)
    requires w < 64 && x1 < 4 && x0 < 16
    ensures One(c * 4096 + Pack(0, 0, w, 16 * x1 + x0)) == [w * 4 + x1]
  {
    var n, b0 := c * 4096 + Pack(0, 0, w, 16 * x1 + x0), w * 4 + x1;
    QuotientIs(n, 16, 256 * c + b0, x0);
    QuotientIs(256 * c + b0, 256, c, b0);
  }

  // ---- Round trip and lengths --------------------------------------------------------------------

  lemma LetterCode(x: sextet)
    ensures Letter(x) as int ==
      if x < 26 then 65 + x else if x < 52 then 71 + x else if x < 62 then x - 4 else if x == 62 then 43 else 47
  {
    Upper(if x < 26 then x else 0);
    Lower(if 26 <= x < 52 then x - 26 else 0);
    Figure(if 52 <= x < 62 then x - 52 else 0);
    LetterIn(UPPER, LOWER, FIGURES, x);
  }

  lemma {:induction false} LettersPlain(v: seq<sextet>)
    ensures forall i :: 0 <= i < |v| ==> Letters(v)[i] != '='
  {
    hide Letter;
    if v != [] {
      LetterCode(v[0]);
      LettersPlain(v[1..]);
    }
  }

  /** An encoding is whole groups of four; its last characters are `=`, one for each
      byte that the last group lacks, and no other is. */
  lemma PaddedExactly(b: seq<byte>)
    ensures var e, p := Encoded(b), (3 - |b| % 3) % 3;
      && |e| % 4 == 0 && p <= |e|
      && forall i :: 0 <= i < |e| ==> (e[i] == '=' <==> i >= |e| - p)
  {
    hide Sextets, Letters;
    SextetsCount(b);
    LettersPlain(Sextets(b));
    GroupsOfFour(|b|);
  }

  lemma GroupsOfFour(n: nat)
    ensures |Padding(n)| == (3 - n % 3) % 3
  {
  }

  /** Which of the strings a letter is from. */
  lemma LetterIn(upper: string, lower: string, figures: string, x: sextet)
    requires |upper| == |lower| == 26 && |figures| == 10
    ensures (upper + lower + figures + "+/")[x] ==
      if x < 26 then upper[x] else if x < 52 then lower[x - 26] else if x < 62 then figures[x - 52] else if x == 62 then '+' else '/'
  {
  }

  lemma Upper(x: nat)
    requires x < 26
    ensures UPPER[x] as int == 65 + x
  {
  }

  lemma Lower(x: nat)
    requires x < 26
    ensures LOWER[x] as int == 97 + x
  {
  }

  lemma Figure(x: nat)
    requires x < 10
    ensures FIGURES[x] as int == 48 + x
  {
  }

  /** A letter is found where it stands. */
  lemma {:induction false} LetterFound(x: sextet, i: nat)
    requires i <= x
    ensures IndexFrom(Letter(x), i) == x
    decreases x - i
  {
    LetterCode(x);
    LetterCode(i);
    if i < x {
      LetterFound(x, i + 1);
    }
  }

  lemma LetterRead(x: sextet, rest: string)
    ensures Indices([Letter(x)] + rest) == [x] + Indices(rest)
  {
    hide Letter, IndexFrom;
    LetterFound(x, 0);
    LetterCode(x);
    assert ([Letter(x)] + rest)[1..] == rest;
  }

  lemma {:induction false} LettersRead(v: seq<sextet>, pad: string)
    requires pad == [] || pad[0] == '='
    ensures Indices(Letters(v) + pad) == v
  {
    hide Letter, Indices;
    if v == [] {
      assert Letters(v) + pad == pad;
      PadRead(pad);
    } else {
      LettersRead(v[1..], pad);
      LetterRead(v[0], Letters(v[1..]) + pad);
      assert Letters(v) + pad == [Letter(v[0])] + (Letters(v[1..]) + pad);
      assert v == [v[0]] + v[1..];
    }
  }

  lemma PadRead(pad: string)
    requires pad == [] || pad[0] == '='
    ensures Indices(pad) == []
  {
  }

  lemma BytesBack(a: byte, b: byte, c: byte)
    ensures Byte0(High(a), Second(a, b)) == a && Byte1(Second(a, b), Third(b, c)) == b && Byte2(Third(b, c), Low(c)) == c
  {
  }

  lemma {:induction false} SextetsDecoded(b: seq<byte>)
    ensures Decoded(Sextets(b)) == b
    decreases |b|
  {
    hide High, Second, Third, Low, Byte0, Byte1, Byte2;
    if |b| >= 3 {
      SextetsDecoded(b[3..]);
      BytesBack(b[0], b[1], b[2]);
      assert Sextets(b)[4..] == Sextets(b[3..]);
      assert b == [b[0], b[1], b[2]] + b[3..];
    } else if |b| == 2 {
      BytesBack(b[0], b[1], 0);
    } else if |b| == 1 {
      BytesBack(b[0], 0, 0);
    }
  }

  /** Decoding an encoding gives the input. */
  lemma RoundTrip(b: seq<byte>)
    ensures Decoded(Values(Encoded(b))) == b
  {
    LettersRead(Sextets(b), Padding(|b|));
    BledPlain(Sextets(b));
    SextetsDecoded(b);
  }

  function EncodedLen(len: int): int {
    if len < 0 || len > INT_MAX - 2 then 0 else (len + 2) / 3 * 4
  }

  function DecodedLen(len: int): int {
    if len < 0 || len > INT_MAX - 3 then 0 else (len + 3) / 4 * 3
  }

  lemma {:induction false} SextetsCount(b: seq<byte>)
    ensures |Sextets(b)| + |Padding(|b|)| == (|b| + 2) / 3 * 4
    decreases |b|
  {
    hide High, Second, Third, Low;
    if |b| >= 3 {
      SextetsCount(b[3..]);
      PaddingSame(|b|);
    }
  }

  lemma PaddingSame(n: nat)
    requires n >= 3
    ensures Padding(n) == Padding(n - 3) && (n + 2) / 3 == (n - 1) / 3 + 1
  {
  }

  /** The buffer sizes: exact for encoding, enough for decoding. */
  lemma Lengths(b: seq<byte>, s: string)
    ensures |b| <= INT_MAX - 2 ==> |Encoded(b)| == EncodedLen(|b|)
    ensures |s| <= INT_MAX - 3 ==> |Decoded(Values(s))| <= DecodedLen(|s|)
  {
    hide Sextets, Indices, Decoded, Padding;
    SextetsCount(b);
    IndicesCount(s);
    Enough(|Values(s)|, |s|);
  }

  lemma Enough(n: nat, m: nat)
    requires n <= m
    ensures 6 * n / 8 <= (m + 3) / 4 * 3
  {
    assert 6 * n / 8 <= 6 * m / 8;
  }

  lemma {:induction false} IndicesCount(s: string)
    ensures |Indices(s)| <= |s|
  {
    hide Lookup;
    if s != [] && s[0] != '=' {
      IndicesCount(s[1..]);
    }
  }

  /** The characters that are found before the first `=`. */
  function Significant(s: string): string {
    if s == [] || s[0] == '=' then []
    else if Lookup(s[0]).None? then Significant(s[1..])
    else [s[0]] + Significant(s[1..])
  }

  /** Nothing else matters. */
  lemma OnlySignificant(s: string, t: string)
    requires Significant(s) == Significant(t)
    ensures Decoded(Values(s)) == Decoded(Values(t))
  {
    IndicesSignificant(s);
    IndicesSignificant(t);
  }

  lemma {:induction false} IndicesSignificant(s: string)
    ensures Indices(Significant(s)) == Indices(s)
  {
    hide Lookup;
    if s != [] && s[0] != '=' {
      IndicesSignificant(s[1..]);
      if Lookup(s[0]).Some? {
        assert Significant(s)[1..] == Significant(s[1..]);
      }
    }
  }
}
