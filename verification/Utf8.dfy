/** The transcoder from UTF-8 to JavaScript and HTML text: it sizes its buffer
    from a rough scan, decodes strictly, and writes each UTF-16 unit escaped. */
module Utf8 {
  import opened Bytes
  import opened Decimal
  import opened Wrappers

  function At(s: CString, i: nat): byte {
    if i < |s| then s[i] else 0
  }

  // ---- The standards -----------------------------------------------------------------

  /** A Unicode scalar value. */
  predicate Scalar(c: int) {
    0 <= c < 0xD800 || 0xE000 <= c < 0x110000
  }

  /** The octet sequences of section 3 of RFC 3629. */
  function Encode(c: int): (r: seq<byte>)
    requires Scalar(c)
    ensures 1 <= |r| <= 4
  {
    if c < 0x80 then [c]
    else if c < 0x800 then [0xC0 + c / 64, 0x80 + c % 64]
    else if c < 0x10000 then [0xE0 + c / 4096, 0x80 + c / 64 % 64, 0x80 + c % 64]
    else [0xF0 + c / 262144, 0x80 + c / 4096 % 64, 0x80 + c / 64 % 64, 0x80 + c % 64]
  }

  predicate Tail(b: byte) {
    0x80 <= b <= 0xBF
  }

  /** The length of the character that these bytes start with by the grammar of
      section 4 of RFC 3629, or 0 if they start none. */
  function Grammar(b0: byte, b1: byte, b2: byte, b3: byte): nat {
    if 0 < b0 <= 0x7F then 1
    else if 0xC2 <= b0 <= 0xDF && Tail(b1) then 2
    else if Tail(b2) && ((b0 == 0xE0 && 0xA0 <= b1 <= 0xBF) || (0xE1 <= b0 <= 0xEC && Tail(b1)) ||
                         (b0 == 0xED && 0x80 <= b1 <= 0x9F) || (0xEE <= b0 <= 0xEF && Tail(b1))) then 3
    else if Tail(b2) && Tail(b3) && ((b0 == 0xF0 && 0x90 <= b1 <= 0xBF) || (0xF1 <= b0 <= 0xF3 && Tail(b1)) ||
                                     (b0 == 0xF4 && 0x80 <= b1 <= 0x8F)) then 4
    else 0
  }

  function CharLength(s: CString, i: nat): (n: nat)
    ensures n > 0 ==> i + n <= |s|
  {
    Grammar(At(s, i), At(s, i + 1), At(s, i + 2), At(s, i + 3))
  }

  predicate WellFormed(s: CString, i: nat)
    requires i <= |s|
    decreases |s| - i
  {
    i == |s| || (CharLength(s, i) > 0 && WellFormed(s, i + CharLength(s, i)))
  }

  /** The 16-bit units of section 2.1 of RFC 2781. */
  function Units(c: int): (r: seq<int>)
    requires Scalar(c)
    ensures 1 <= |r| <= 2 && forall k :: 0 <= k < |r| ==> 0 <= r[k] < 0x10000
  {
    if c < 0x10000 then [c] else [0xD800 + (c - 0x10000) / 0x400, 0xDC00 + (c - 0x10000) % 0x400]
  }

  // ---- Decoding one character ---------------------------------------------------------

  /** `utf8_to_unicode`: the length consumed and the value; 0 at the end of the
      string and -1 for anything that is not a character. */
  function ToUnicode(b0: byte, b1: byte, b2: byte, b3: byte): (int, int) {
    if b0 == 0 then (0, 0)
    else if b0 < 0x80 then (1, b0)
    else if b0 < 0xC2 then (-1, 0)
    else if b0 < 0xE0 then
      if b1 / 64 == 2 then (2, b0 % 32 * 64 + b1 % 64) else (-1, 0)
    else if b0 < 0xF0 then
      var wc := b0 % 16 * 4096 + b1 % 64 * 64 + b2 % 64;
      if b1 / 64 == 2 && b2 / 64 == 2 && (0x800 <= wc <= 0xD7FF || 0xE000 <= wc <= 0xFFFF) then (3, wc) else (-1, 0)
    else if b0 < 0xF5 then
      var wc := b0 % 8 * 262144 + b1 % 64 * 4096 + b2 % 64 * 64 + b3 % 64;
      if b1 / 64 == 2 && b2 / 64 == 2 && b3 / 64 == 2 && 0x10000 <= wc <= 0x10FFFF then (4, wc) else (-1, 0)
    else (-1, 0)
  }

  function Decode(s: CString, i: nat): (int, int) {
    ToUnicode(At(s, i), At(s, i + 1), At(s, i + 2), At(s, i + 3))
  }

  lemma TailBits(b: byte)
    ensures Tail(b) <==> b / 64 == 2
    ensures Tail(b) ==> b % 64 == b - 0x80
  {
  }

  lemma Digits(x: nat, y: nat, z: nat)
    requires y < 64 && z < 64
    ensures var v := (x * 64 + y) * 64 + z;
            v / 4096 == x && v / 64 == x * 64 + y && v / 64 % 64 == y && v % 64 == z
  {
  }

  lemma TwoBytes(b0: byte, b1: byte, b2: byte, b3: byte)
    requires 0xC0 <= b0 < 0xE0
    ensures var (m, wc) := ToUnicode(b0, b1, b2, b3);
            var n := Grammar(b0, b1, b2, b3);
            && m == (if n == 0 then -1 else 2)
            && (n > 0 ==> n == 2 && Scalar(wc) && wc > 0 && Encode(wc) == [b0, b1])
  {
    hide Encode;
    TailBits(b1);
    if Tail(b1) && 0xC2 <= b0 {
      assert b0 % 32 == b0 - 0xC0;
      TwoEncoded(b0 - 0xC0, b1 - 0x80);
    }
  }

  lemma TwoEncoded(x: nat, y: nat)
    requires 2 <= x < 32 && y < 64
    ensures var v := x * 64 + y; Scalar(v) && v > 0 && Encode(v) == [0xC0 + x, 0x80 + y]
  {
    var v := x * 64 + y;
    assert v / 64 == x && v % 64 == y;
  }

  lemma ThreeBytes(b0: byte, b1: byte, b2: byte, b3: byte)
    requires 0xE0 <= b0 < 0xF0
    ensures var (m, wc) := ToUnicode(b0, b1, b2, b3);
            var n := Grammar(b0, b1, b2, b3);
            && m == (if n == 0 then -1 else 3)
            && (n > 0 ==> n == 3 && Scalar(wc) && wc > 0 && Encode(wc) == [b0, b1, b2])
  {
    hide Encode, Grammar;
    TailBits(b1);
    TailBits(b2);
    ThreeGrammar(b0, b1, b2, b3);
    if Tail(b1) && Tail(b2) {
      assert b0 % 16 == b0 - 0xE0;
      ThreeEncoded(b0 - 0xE0, b1 - 0x80, b2 - 0x80);
    }
  }

  lemma ThreeGrammar(b0: byte, b1: byte, b2: byte, b3: byte)
    requires 0xE0 <= b0 < 0xF0
    ensures Grammar(b0, b1, b2, b3)
         == if Tail(b1) && Tail(b2) && (b0 > 0xE0 || b1 >= 0xA0) && (b0 != 0xED || b1 < 0xA0) then 3 else 0
  {
  }

  lemma ThreeEncoded(x: nat, y: nat, z: nat)
    requires x < 16 && y < 64 && z < 64
    ensures var v := x * 4096 + y * 64 + z;
            && (0x800 <= v <= 0xD7FF || 0xE000 <= v <= 0xFFFF <==> (x > 0 || y >= 32) && (x != 13 || y < 32))
            && ((x > 0 || y >= 32) && (x != 13 || y < 32) ==> Scalar(v) && Encode(v) == [0xE0 + x, 0x80 + y, 0x80 + z])
  {
    Digits(x, y, z);
  }

  lemma FourBytes(b0: byte, b1: byte, b2: byte, b3: byte)
    requires 0xF0 <= b0 < 0xF5
    ensures var (m, wc) := ToUnicode(b0, b1, b2, b3);
            var n := Grammar(b0, b1, b2, b3);
            && m == (if n == 0 then -1 else 4)
            && (n > 0 ==> n == 4 && Scalar(wc) && wc > 0 && Encode(wc) == [b0, b1, b2, b3])
  {
    hide Encode, Grammar;
    TailBits(b1);
    TailBits(b2);
    TailBits(b3);
    if Tail(b1) && Tail(b2) && Tail(b3) {
      var w, x, y, z := b0 - 0xF0, b1 - 0x80, b2 - 0x80, b3 - 0x80;
      assert b0 % 8 == w;
      FourEncoded(w, x, y, z);
      FourGrammar(b0, b1, b2, b3);
    } else {
      FourRejected(b0, b1, b2, b3);
    }
  }

  lemma FourGrammar(b0: byte, b1: byte, b2: byte, b3: byte)
    requires 0xF0 <= b0 < 0xF5 && Tail(b1) && Tail(b2) && Tail(b3)
    ensures Grammar(b0, b1, b2, b3) == if (b0 > 0xF0 || b1 >= 0x90) && (b0 < 0xF4 || b1 < 0x90) then 4 else 0
  {
  }

  lemma FourRejected(b0: byte, b1: byte, b2: byte, b3: byte)
    requires 0xF0 <= b0 && !(Tail(b1) && Tail(b2) && Tail(b3))
    ensures Grammar(b0, b1, b2, b3) == 0
  {
  }

  lemma FourEncoded(w: nat, x: nat, y: nat, z: nat)
    requires w < 5 && x < 64 && y < 64 && z < 64
    ensures var v := w * 262144 + x * 4096 + y * 64 + z;
            && (0x10000 <= v <= 0x10FFFF <==> (w > 0 || x >= 16) && (w < 4 || x < 16))
            && (0x10000 <= v <= 0x10FFFF ==> Scalar(v) && Encode(v) == [0xF0 + w, 0x80 + x, 0x80 + y, 0x80 + z])
  {
    FourDigits(w, x, y, z);
  }

  lemma FourDigits(w: nat, x: nat, y: nat, z: nat)
    requires w < 5 && x < 64 && y < 64 && z < 64
    ensures var v := w * 262144 + x * 4096 + y * 64 + z;
            && v / 262144 == w && v / 4096 % 64 == x && v / 64 % 64 == y && v % 64 == z
            && (0x10000 <= v <==> w > 0 || x >= 16) && (v <= 0x10FFFF <==> w < 4 || x < 16)
  {
    var v := w * 262144 + x * 4096 + y * 64 + z;
    Digits(w * 64 + x, y, z);
    assert v == ((w * 64 + x) * 64 + y) * 64 + z;
    assert (w * 64 + x) / 64 == w && (w * 64 + x) % 64 == x;
    assert v / 262144 == v / 4096 / 64;
  }

  /** The decoder accepts exactly the characters of the grammar and inverts the encoding. */
  lemma DecodeExact(s: CString, i: nat)
    requires i < |s|
    ensures var (m, wc) := Decode(s, i);
            var n := CharLength(s, i);
            && m == (if n == 0 then -1 else n)
            && (n > 0 ==> Scalar(wc) && wc > 0 && Encode(wc) == s[i..i + n])
  {
    hide Tail;
    assert s[i] in s;
    var b0, b1, b2, b3 := At(s, i), At(s, i + 1), At(s, i + 2), At(s, i + 3);
    if 0xC0 <= b0 < 0xE0 {
      TwoBytes(b0, b1, b2, b3);
    } else if 0xE0 <= b0 < 0xF0 {
      ThreeBytes(b0, b1, b2, b3);
    } else if 0xF0 <= b0 < 0xF5 {
      FourBytes(b0, b1, b2, b3);
    }
  }

  // ---- Whole strings ------------------------------------------------------------------

  function CodePoints(s: CString, i: nat): (r: seq<int>)
    requires i <= |s| && WellFormed(s, i)
    decreases |s| - i
  {
    if i == |s| then [] else [Decode(s, i).1] + CodePoints(s, i + CharLength(s, i))
  }

  predicate NonZeroScalars(cs: seq<int>) {
    forall k :: 0 <= k < |cs| ==> Scalar(cs[k]) && cs[k] != 0
  }

  function EncodeAll(cs: seq<int>): seq<byte>
    requires NonZeroScalars(cs)
  {
    if cs == [] then [] else Encode(cs[0]) + EncodeAll(cs[1..])
  }

  /** A well-formed string is the encoding of its code points. */
  lemma {:induction false} CodePointsEncode(s: CString, i: nat)
    requires i <= |s| && WellFormed(s, i)
    ensures NonZeroScalars(CodePoints(s, i)) && EncodeAll(CodePoints(s, i)) == s[i..]
    decreases |s| - i
  {
    hide CharLength, Decode, Encode, Scalar;
    if i < |s| {
      var n := CharLength(s, i);
      DecodeExact(s, i);
      CodePointsEncode(s, i + n);
      var cs := CodePoints(s, i);
      assert cs[1..] == CodePoints(s, i + n);
      assert forall k :: 1 <= k < |cs| ==> cs[k] == cs[1..][k - 1];
      assert EncodeAll(cs) == s[i..i + n] + s[i + n..];
      assert s[i..] == s[i..i + n] + s[i + n..];
    }
  }

  lemma EncodeNonZero(c: int)
    requires Scalar(c) && c != 0
    ensures 0 !in Encode(c)
  {
  }

  lemma {:induction false} EncodeAllNonZero(cs: seq<int>)
    requires NonZeroScalars(cs)
    ensures 0 !in EncodeAll(cs)
  {
    if cs != [] {
      EncodeNonZero(cs[0]);
      EncodeAllNonZero(cs[1..]);
    }
  }

  /** The number that an encoding stands for. */
  function Value(e: seq<int>): int
    requires 1 <= |e| <= 4
  {
    if |e| == 1 then e[0]
    else if |e| == 2 then (e[0] - 0xC0) * 64 + (e[1] - 0x80)
    else if |e| == 3 then (e[0] - 0xE0) * 4096 + (e[1] - 0x80) * 64 + (e[2] - 0x80)
    else (e[0] - 0xF0) * 262144 + (e[1] - 0x80) * 4096 + (e[2] - 0x80) * 64 + (e[3] - 0x80)
  }

  lemma EncodeValue(c: int)
    requires Scalar(c)
    ensures Value(Encode(c)) == c
  {
    assert c / 4096 == c / 64 / 64 && c / 262144 == c / 4096 / 64;
  }

  lemma EncodeInjective(c: int, d: int)
    requires Scalar(c) && Scalar(d) && Encode(c) == Encode(d)
    ensures c == d
  {
    hide Encode, Value;
    EncodeValue(c);
    EncodeValue(d);
  }

  lemma EncodedLength(c: int, b0: byte, b1: byte, b2: byte, b3: byte)
    requires Scalar(c) && c != 0 && Encode(c) <= [b0, b1, b2, b3]
    ensures Grammar(b0, b1, b2, b3) == |Encode(c)|
  {
    var e := Encode(c);
    assert e[0] == b0 && (|e| > 1 ==> e[1] == b1) && (|e| > 2 ==> e[2] == b2) && (|e| > 3 ==> e[3] == b3);
    if |e| == 3 {
      ThreeRanges(c);
    } else if |e| == 4 {
      FourRanges(c);
    }
  }

  lemma ThreeRanges(c: int)
    requires Scalar(c) && 0x800 <= c < 0x10000
    ensures (c / 4096 == 0 ==> c / 64 % 64 >= 32) && (c / 4096 == 13 ==> c / 64 % 64 < 32)
  {
  }

  lemma FourRanges(c: int)
    requires 0x10000 <= c < 0x110000
    ensures c / 262144 <= 4
    ensures (c / 262144 == 0 ==> c / 4096 % 64 >= 16) && (c / 262144 == 4 ==> c / 4096 % 64 < 16)
  {
  }

  lemma EncodedAt(c: int, s: CString, i: nat)
    requires Scalar(c) && c != 0 && i <= |s| && Encode(c) <= s[i..]
    ensures CharLength(s, i) == |Encode(c)| && Decode(s, i).1 == c
  {
    hide Grammar, ToUnicode, Encode, Scalar;
    var e := Encode(c);
    var bs := [At(s, i), At(s, i + 1), At(s, i + 2), At(s, i + 3)];
    assert forall k :: 0 <= k < |e| ==> bs[k] == s[i..][k] == e[k];
    EncodedLength(c, bs[0], bs[1], bs[2], bs[3]);
    DecodeExact(s, i);
    assert s[i..i + |e|] == s[i..][..|e|] == e;
    EncodeInjective(c, Decode(s, i).1);
  }

  /** Every list of non-zero scalar values is recovered from its encoding. */
  lemma {:induction false} EncodeAllDecodes(cs: seq<int>, s: CString, i: nat)
    requires NonZeroScalars(cs) && i <= |s| && s[i..] == EncodeAll(cs)
    ensures WellFormed(s, i) && CodePoints(s, i) == cs
    decreases |cs|
  {
    hide CharLength, Decode, Encode, Scalar, EncodeAll, NonZeroScalars;
    if cs == [] {
      EncodeNone();
    } else {
      EncodeFirst(cs);
      var n := |Encode(cs[0])|;
      Behind(s, i, Encode(cs[0]), EncodeAll(cs[1..]));
      EncodedAt(cs[0], s, i);
      EncodeAllDecodes(cs[1..], s, i + n);
    }
  }

  lemma EncodeNone()
    ensures EncodeAll([]) == []
  {
  }

  lemma EncodeFirst(cs: seq<int>)
    requires cs != [] && NonZeroScalars(cs)
    ensures Scalar(cs[0]) && cs[0] != 0 && NonZeroScalars(cs[1..])
    ensures EncodeAll(cs) == Encode(cs[0]) + EncodeAll(cs[1..])
  {
  }

  lemma Behind(s: seq<byte>, i: nat, a: seq<byte>, b: seq<byte>)
    requires i <= |s| && s[i..] == a + b
    ensures i + |a| <= |s| && a <= s[i..] && s[i + |a|..] == b
  {
    assert s[i + |a|..] == s[i..][|a|..];
  }

  // ---- Sizing -----------------------------------------------------------------------------

  /** `utf8_to_utf16_size`: a count that looks only at lead bytes. */
  function Size(s: CString, i: nat): (r: int)
    requires i <= |s|
    ensures r >= -1
    decreases |s| - i
  {
    if i == |s| then 0
    else if s[i] < 0xC0 then Plus(1, Size(s, i + 1))
    else if s[i] >= 0xF5 then -1
    else if i + 1 == |s| then 1
    else if i + 2 == |s| then 1
    else if s[i] < 0xE0 then Plus(1, Size(s, i + 2))
    else if i + 3 == |s| then 1
    else if s[i] < 0xF0 then Plus(1, Size(s, i + 3))
    else Plus(2, Size(s, i + 4))
  }

  function Plus(n: nat, rest: int): int {
    if rest == -1 then -1 else n + rest
  }

  /** The loop of `utf8_to_utf16_size`. */
  method Utf16Size(s: CString) returns (ret: int)
    ensures ret == Size(s, 0)
  {
    var p, count := 0, 0;
    while At(s, p) != 0
      invariant p <= |s|
      invariant Size(s, 0) == Plus(count, Size(s, p))
      decreases |s| - p
    {
      var byte := At(s, p);
      p := p + 1;
      count := count + 1;
      if byte >= 0xC0 {
        if byte >= 0xF5 {
          return -1;
        }
        if At(s, p) == 0 {
          break;
        }
        p := p + 1;
        if At(s, p) == 0 {
          break;
        }
        if byte >= 0xE0 {
          p := p + 1;
        }
        if At(s, p) == 0 {
          break;
        }
        if byte >= 0xF0 {
          p := p + 1;
          count := count + 1;
        }
      }
    }
    ret := count;
  }

  function UnitsOf(cs: seq<int>): seq<int>
    requires NonZeroScalars(cs)
  {
    if cs == [] then [] else Units(cs[0]) + UnitsOf(cs[1..])
  }

  /** The lead byte tells the length and the number of units. */
  lemma LeadByte(b0: byte, b1: byte, b2: byte, b3: byte)
    requires Grammar(b0, b1, b2, b3) > 0
    ensures var wc := ToUnicode(b0, b1, b2, b3).1;
            && Scalar(wc)
            && Grammar(b0, b1, b2, b3) == (if b0 < 0xC0 then 1 else if b0 < 0xE0 then 2 else if b0 < 0xF0 then 3 else 4)
            && b0 < 0xF5
            && |Units(wc)| == if b0 < 0xF0 then 1 else 2
  {
  }

  /** On a character the scan and the decoder agree on the units needed. */
  lemma SizeStep(s: CString, i: nat)
    requires i < |s| && CharLength(s, i) > 0
    ensures Scalar(Decode(s, i).1)
    ensures Size(s, i) == Plus(|Units(Decode(s, i).1)|, Size(s, i + CharLength(s, i)))
  {
    hide Grammar, ToUnicode, Units, Scalar;
    LeadByte(At(s, i), At(s, i + 1), At(s, i + 2), At(s, i + 3));
    assert Size(s, |s|) == 0;
  }

  /** The pre-computed count is exact on every well-formed string. */
  lemma {:induction false} SizeExact(s: CString, i: nat)
    requires i <= |s| && WellFormed(s, i)
    ensures NonZeroScalars(CodePoints(s, i)) && Size(s, i) == |UnitsOf(CodePoints(s, i))|
    decreases |s| - i
  {
    hide CharLength, Decode, Encode, Scalar, Size, Units;
    CodePointsEncode(s, i);
    if i < |s| {
      SizeStep(s, i);
      SizeExact(s, i + CharLength(s, i));
      assert CodePoints(s, i)[1..] == CodePoints(s, i + CharLength(s, i));
    } else {
      SizeAtEnd(s);
    }
  }

  lemma SizeAtEnd(s: CString)
    ensures Size(s, |s|) == 0
  {
  }

  // ---- Escaping -----------------------------------------------------------------------------

  const SIZE_MAX := 0xFFFF_FFFF_FFFF_FFFF
  const QUOTE: byte := 0x22
  const APOSTROPHE: byte := 0x27
  const BACKSLASH: byte := 0x5C

  predicate IsPrint(c: int) {
    0x20 <= c <= 0x7E
  }

  function HexDigit(d: int): byte
    requires 0 <= d < 16
  {
    if d < 10 then 0x30 + d else 0x61 + d - 10
  }

  function Octet(c: char): (b: byte)
    requires IsDigit(c)
    ensures 0x30 <= b <= 0x39 && b as char == c
  {
    c as int
  }

  /** Digits that the C library printed, as bytes. */
  function Octets(s: string): (r: seq<byte>)
    requires forall k :: 0 <= k < |s| ==> IsDigit(s[k])
    ensures |r| == |s| && forall k :: 0 <= k < |r| ==> 0x30 <= r[k] <= 0x39
  {
    if s == [] then [] else [Octet(s[0])] + Octets(s[1..])
  }

  /** `%u`. */
  function Digits10(u: nat): (r: seq<byte>)
    ensures |r| >= 1 && forall k :: 0 <= k < |r| ==> 0x30 <= r[k] <= 0x39
  {
    UnsignedDigits(u);
    Octets(Unsigned(u))
  }

  /** `js_utf16_char`: the unit itself, `\xhh` or `\uhhhh`. */
  function JsUnit(u: int): seq<byte>
    requires 0 <= u < 0x10000
  {
    if u <= 0xFF then
      if u == QUOTE || u == APOSTROPHE || u == BACKSLASH || !IsPrint(u)
      then [BACKSLASH, 0x78, HexDigit(u / 16), HexDigit(u % 16)]
      else [u]
    else [BACKSLASH, 0x75, HexDigit(u / 4096), HexDigit(u / 256 % 16), HexDigit(u / 16 % 16), HexDigit(u % 16)]
  }

  /** `html_utf16_char`: the unit itself or `&#d;`. */
  function HtmlUnit(u: int): seq<byte>
    requires 0 <= u < 0x10000
  {
    if u > 0xFF || u in {0x26, 0x3C, 0x3E, QUOTE, APOSTROPHE} || !IsPrint(u) then [0x26, 0x23] + Digits10(u) + [0x3B] else [u]
  }

  datatype Conv = Js | Html

  function Convert(conv: Conv, u: int): seq<byte>
    requires 0 <= u < 0x10000
  {
    if conv == Js then JsUnit(u) else HtmlUnit(u)
  }

  /** The bytes that `utf8_to_string`'s callers reserve for a unit. */
  function Width(conv: Conv): nat {
    if conv == Js then 6 else 8
  }

  lemma ConvertFits(conv: Conv, u: int)
    requires 0 <= u < 0x10000
    ensures 1 <= |Convert(conv, u)| <= Width(conv)
  {
    if conv == Html {
      UnsignedShort(u);
    }
  }

  lemma UnsignedShort(u: nat)
    requires u < 100000
    ensures |Unsigned(u)| <= 5
  {
    assert |Unsigned(u / 10000)| == 1;
    assert u >= 10000 ==> u / 1000 / 10 == u / 10000 && |Unsigned(u / 1000)| <= 2;
    assert |Unsigned(u / 1000)| <= 2;
    assert |Unsigned(u / 100)| <= 3 by { assert u / 100 / 10 == u / 1000; }
    assert |Unsigned(u / 10)| <= 4 by { assert u / 10 / 10 == u / 100; }
  }

  predicate ValidUnits(us: seq<int>) {
    forall k :: 0 <= k < |us| ==> 0 <= us[k] < 0x10000
  }

  function Escaped(conv: Conv, us: seq<int>): seq<byte>
    requires ValidUnits(us)
  {
    if us == [] then [] else Convert(conv, us[0]) + Escaped(conv, us[1..])
  }

  lemma {:induction false} EscapedConcat(conv: Conv, a: seq<int>, b: seq<int>)
    requires ValidUnits(a) && ValidUnits(b)
    ensures Escaped(conv, a + b) == Escaped(conv, a) + Escaped(conv, b)
  {
    hide Convert;
    if a == [] {
      assert a + b == b;
    } else {
      assert (a + b)[1..] == a[1..] + b;
      EscapedConcat(conv, a[1..], b);
    }
  }

  lemma {:induction false} UnitsOfValid(cs: seq<int>)
    requires NonZeroScalars(cs)
    ensures ValidUnits(UnitsOf(cs))
  {
    if cs != [] {
      UnitsOfValid(cs[1..]);
    }
  }

  // ---- Unescaping ------------------------------------------------------------------------------

  function HexValue(b: byte): int {
    if 0x30 <= b <= 0x39 then b - 0x30 else if 0x61 <= b <= 0x66 then b - 0x61 + 10 else -1
  }

  function Prepend(u: int, rest: Option<seq<int>>): Option<seq<int>> {
    if rest.Some? then Some([u] + rest.value) else None
  }

  /** What a JavaScript string literal with this text denotes, unit by unit. */
  function UnescapeJs(t: seq<byte>): Option<seq<int>> {
    if t == [] then Some([])
    else if t[0] != BACKSLASH then Prepend(t[0], UnescapeJs(t[1..]))
    else if |t| >= 4 && t[1] == 0x78 && HexValue(t[2]) >= 0 && HexValue(t[3]) >= 0 then
      Prepend(HexValue(t[2]) * 16 + HexValue(t[3]), UnescapeJs(t[4..]))
    else if |t| >= 6 && t[1] == 0x75 && HexValue(t[2]) >= 0 && HexValue(t[3]) >= 0 && HexValue(t[4]) >= 0 && HexValue(t[5]) >= 0 then
      Prepend(HexValue(t[2]) * 4096 + HexValue(t[3]) * 256 + HexValue(t[4]) * 16 + HexValue(t[5]), UnescapeJs(t[6..]))
    else None
  }

  lemma HexRoundTrip(d: int)
    requires 0 <= d < 16
    ensures HexValue(HexDigit(d)) == d
  {
  }

  lemma UnescapeUnit(u: int, rest: seq<byte>)
    requires 0 <= u < 0x10000
    ensures UnescapeJs(JsUnit(u) + rest) == Prepend(u, UnescapeJs(rest))
  {
    hide HexDigit, HexValue;
    var e := JsUnit(u);
    var t := e + rest;
    assert t[|e|..] == rest;
    HexRoundTrip(u % 16);
    if u <= 0xFF {
      HexRoundTrip(u / 16);
    } else {
      HexRoundTrip(u / 4096);
      HexRoundTrip(u / 256 % 16);
      HexRoundTrip(u / 16 % 16);
      assert u / 256 == u / 16 / 16 && u / 4096 == u / 256 / 16;
    }
  }

  /** A browser reads back exactly the units that were written. */
  lemma {:induction false} UnescapeEscaped(us: seq<int>)
    requires ValidUnits(us)
    ensures UnescapeJs(Escaped(Js, us)) == Some(us)
  {
    hide JsUnit;
    if us != [] {
      UnescapeEscaped(us[1..]);
      hide UnescapeJs;
      UnescapeUnit(us[0], Escaped(Js, us[1..]));
      assert us == [us[0]] + us[1..];
    }
  }

  /** The digits at the start of `t`, as text. */
  function DigitsAt(t: seq<byte>): (d: string)
    ensures |d| <= |t|
  {
    if t == [] || !(0x30 <= t[0] <= 0x39) then [] else [t[0] as char] + DigitsAt(t[1..])
  }

  /** The numbers for which the HTML standard puts another character, those that
      Windows-1252 has in the place of control characters. */
  const REMAPPED: map<int, int> := map[
    0x80 := 0x20AC, 0x82 := 0x201A, 0x83 := 0x0192, 0x84 := 0x201E, 0x85 := 0x2026, 0x86 := 0x2020, 0x87 := 0x2021,
    0x88 := 0x02C6, 0x89 := 0x2030, 0x8A := 0x0160, 0x8B := 0x2039, 0x8C := 0x0152, 0x8E := 0x017D, 0x91 := 0x2018,
    0x92 := 0x2019, 0x93 := 0x201C, 0x94 := 0x201D, 0x95 := 0x2022, 0x96 := 0x2013, 0x97 := 0x2014, 0x98 := 0x02DC,
    0x99 := 0x2122, 0x9A := 0x0161, 0x9B := 0x203A, 0x9C := 0x0153, 0x9E := 0x017E, 0x9F := 0x0178]

  const REPLACEMENT := 0xFFFD

  /** The code point of a numeric character reference: the numeric character
      reference end state of the HTML standard. */
  function Reference(n: int): int {
    if n == 0 || n > 0x10FFFF || 0xD800 <= n < 0xE000 then REPLACEMENT
    else if n in REMAPPED then REMAPPED[n]
    else n
  }

  /** The code points that an HTML reader takes from text without markup: plain
      characters and decimal references. */
  function ReadHtml(t: seq<byte>): Option<seq<int>> {
    if t == [] then Some([])
    else if t[0] == 0x3C then None
    else if t[0] != 0x26 then Prepend(t[0], ReadHtml(t[1..]))
    else if |t| < 2 || t[1] != 0x23 then None
    else
      var d := DigitsAt(t[2..]);
      if d == [] || 2 + |d| == |t| || t[2 + |d|] != 0x3B then None
      else Prepend(Reference(ValueOf(d)), ReadHtml(t[3 + |d|..]))
  }

  /** What the reader makes of a unit that was written. */
  function Seen(us: seq<int>): seq<int> {
    if us == [] then [] else [Reference(us[0])] + Seen(us[1..])
  }

  lemma {:induction false} DigitsFound(s: string, rest: seq<byte>)
    requires forall k :: 0 <= k < |s| ==> IsDigit(s[k])
    requires rest != [] && rest[0] == 0x3B
    ensures DigitsAt(Octets(s) + rest) == s
  {
    if s == [] {
      assert Octets(s) + rest == rest;
    } else {
      DigitsFound(s[1..], rest);
      assert (Octets(s) + rest)[1..] == Octets(s[1..]) + rest;
    }
  }

  lemma ReadHtmlUnit(u: int, rest: seq<byte>)
    requires 0 <= u < 0x10000
    ensures ReadHtml(HtmlUnit(u) + rest) == Prepend(Reference(u), ReadHtml(rest))
  {
    hide ReadHtml, Digits10, Reference, Prepend;
    if u > 0xFF || u in {0x26, 0x3C, 0x3E, QUOTE, APOSTROPHE} || !IsPrint(u) {
      ReadReference(u, rest);
      ReferenceJoined(Digits10(u), rest);
    } else {
      ReadPlain(u, rest);
      PlainReference(u);
    }
  }

  lemma PlainReference(u: int)
    requires IsPrint(u)
    ensures Reference(u) == u
  {
  }

  lemma ReferenceJoined(d: seq<byte>, rest: seq<byte>)
    ensures [0x26, 0x23] + d + [0x3B] + rest == [0x26, 0x23] + (d + ([0x3B] + rest))
  {
  }

  lemma ReadPlain(c: byte, rest: seq<byte>)
    requires c != 0x3C && c != 0x26
    ensures ReadHtml([c] + rest) == Prepend(c, ReadHtml(rest))
  {
  }

  lemma ReadReference(u: nat, rest: seq<byte>)
    ensures ReadHtml([0x26, 0x23] + (Digits10(u) + ([0x3B] + rest))) == Prepend(Reference(u), ReadHtml(rest))
  {
    hide Reference, ValueOf, Unsigned, DigitsAt, Octets, ReadHtml;
    UnsignedDigits(u);
    var ds, tail := Unsigned(u), [0x3B] + rest;
    DigitsFound(ds, tail);
    assert (Octets(ds) + tail)[|ds|] == 0x3B && (Octets(ds) + tail)[|ds| + 1..] == rest;
    ReadNumber(Octets(ds) + tail);
  }

  lemma ReadNumber(t: seq<byte>)
    requires var d := DigitsAt(t); d != [] && |d| < |t| && t[|d|] == 0x3B
    ensures var d := DigitsAt(t); ReadHtml([0x26, 0x23] + t) == Prepend(Reference(ValueOf(d)), ReadHtml(t[|d| + 1..]))
  {
  }

  /** A reader sees each unit on its own. */
  lemma {:induction false} ReadHtmlEscaped(us: seq<int>)
    requires ValidUnits(us)
    ensures ReadHtml(Escaped(Html, us)) == Some(Seen(us))
  {
    hide HtmlUnit, Reference;
    if us != [] {
      ReadHtmlEscaped(us[1..]);
      hide ReadHtml;
      ReadHtmlUnit(us[0], Escaped(Html, us[1..]));
    }
  }

  /** A code point that survives as a reference to its unit. */
  predicate Survives(c: int) {
    c < 0x10000 && c !in REMAPPED
  }

  lemma {:induction false} SeenLength(us: seq<int>)
    ensures |Seen(us)| == |us|
  {
    if us != [] {
      SeenLength(us[1..]);
    }
  }

  lemma {:induction false} UnitsLength(cs: seq<int>)
    requires NonZeroScalars(cs)
    ensures |UnitsOf(cs)| >= |cs|
    ensures (exists k :: 0 <= k < |cs| && cs[k] >= 0x10000) ==> |UnitsOf(cs)| > |cs|
  {
    if cs != [] {
      UnitsLength(cs[1..]);
      if k :| 0 <= k < |cs| && cs[k] >= 0x10000 {
        assert k > 0 ==> cs[1..][k - 1] >= 0x10000;
      }
    }
  }

  lemma {:induction false} SeenBasic(cs: seq<int>)
    requires NonZeroScalars(cs) && forall k :: 0 <= k < |cs| ==> cs[k] < 0x10000
    ensures UnitsOf(cs) == cs
    ensures Seen(cs) == cs <==> forall k :: 0 <= k < |cs| ==> Survives(cs[k])
  {
    if cs != [] {
      SeenBasic(cs[1..]);
      ReferenceSame(cs[0]);
      assert cs == [cs[0]] + cs[1..];
      assert forall k :: 0 < k < |cs| ==> cs[k] == cs[1..][k - 1];
    }
  }

  lemma ReferenceSame(c: int)
    requires 0 < c < 0x10000 && Scalar(c)
    ensures Reference(c) == c <==> Survives(c)
  {
  }

  /** The text reads back as the code points if and only if none is above U+FFFF
      and none is a control character that HTML takes for another one. */
  lemma HtmlExact(cs: seq<int>)
    requires NonZeroScalars(cs)
    ensures ValidUnits(UnitsOf(cs))
    ensures ReadHtml(Escaped(Html, UnitsOf(cs))) == Some(cs) <==> forall k :: 0 <= k < |cs| ==> Survives(cs[k])
  {
    hide ReadHtml, Escaped, Reference;
    UnitsOfValid(cs);
    ReadHtmlEscaped(UnitsOf(cs));
    if k :| 0 <= k < |cs| && cs[k] >= 0x10000 {
      UnitsLength(cs);
      SeenLength(UnitsOf(cs));
      assert !Survives(cs[k]);
    } else {
      SeenBasic(cs);
    }
  }

  /** U+1F600 becomes two references to halves of a surrogate pair, and a reader
      takes each of them for U+FFFD. */
  lemma HtmlLosesPairs()
    ensures var ins: CString := [0xF0, 0x9F, 0x98, 0x80];
      && WellFormed(ins, 0) && CodePoints(ins, 0) == [0x1F600]
      && var us := UnitsOf(CodePoints(ins, 0));
         us == [55357, 56832] && ReadHtml(Escaped(Html, us)) == Some([REPLACEMENT, REPLACEMENT])
  {
    hide WellFormed, CodePoints, ReadHtml, Escaped, Decode, CharLength;
    var c, ins: CString := 0x1F600, [0xF0, 0x9F, 0x98, 0x80];
    assert Encode(c) == ins;
    assert EncodeAll([c]) == Encode(c) + EncodeAll([]) == ins && ins[0..] == ins;
    EncodeAllDecodes([c], ins, 0);
    assert Units(c) == [55357, 56832];
    var us := UnitsOf([c]);
    assert us == Units(c) + UnitsOf([]) == Units(c);
    ReadHtmlEscaped(us);
    assert Reference(55357) == Reference(56832) == REPLACEMENT;
    assert us[1..][1..] == [];
    assert Seen(us[1..]) == [REPLACEMENT] + Seen(us[1..][1..]) == [REPLACEMENT];
    assert Seen(us) == [REPLACEMENT] + Seen(us[1..]) == [REPLACEMENT, REPLACEMENT];
  }

  /** The text may stand between quotes: it holds only printable characters and
      no quote of either kind. */
  lemma {:induction false} EscapedSafe(us: seq<int>)
    requires ValidUnits(us)
    ensures forall k :: 0 <= k < |Escaped(Js, us)| ==>
              0x20 <= Escaped(Js, us)[k] <= 0x7E && Escaped(Js, us)[k] !in {0x22, 0x27}
  {
    if us != [] {
      EscapedSafe(us[1..]);
    }
  }

  /** HTML text holds only printable characters and none that starts markup or ends an
      attribute. */
  lemma {:induction false} HtmlSafe(us: seq<int>)
    requires ValidUnits(us)
    ensures forall k :: 0 <= k < |Escaped(Html, us)| ==>
              IsPrint(Escaped(Html, us)[k]) && Escaped(Html, us)[k] !in {0x22, 0x27, 0x3C, 0x3E}
  {
    hide HtmlUnit;
    if us != [] {
      HtmlUnitSafe(us[0]);
      HtmlSafe(us[1..]);
    }
  }

  lemma HtmlUnitSafe(u: int)
    requires 0 <= u < 0x10000
    ensures forall k :: 0 <= k < |HtmlUnit(u)| ==> IsPrint(HtmlUnit(u)[k]) && HtmlUnit(u)[k] !in {0x22, 0x27, 0x3C, 0x3E}
  {
    hide Digits10;
  }

  /** A byte that is written as it is: printable, and no quote, backslash or character
      that HTML gives a meaning to. */
  predicate IsPlain(conv: Conv, c: int) {
    0x20 <= c <= 0x7E && c !in (if conv == Js then {0x22, 0x27, 0x5C} else {0x22, 0x26, 0x27, 0x3C, 0x3E})
  }

  lemma PlainUnit(s: CString, i: nat, conv: Conv)
    requires i < |s| && IsPlain(conv, s[i])
    ensures CharLength(s, i) == 1 && Decode(s, i) == (1, s[i] as int)
    ensures Scalar(s[i]) && Escaped(conv, Units(s[i])) == [s[i]]
  {
    var us := Units(s[i]);
    assert us == [s[i]] && us[1..] == [];
    assert Escaped(conv, us) == Convert(conv, s[i]) + Escaped(conv, []);
  }

  /** Text that needs no escape is well-formed and stays as it is. */
  lemma {:induction false} PlainKept(s: CString, i: nat, conv: Conv)
    requires i <= |s| && forall k :: i <= k < |s| ==> IsPlain(conv, s[k])
    ensures WellFormed(s, i) && TextFrom(s, i, conv) == s[i..]
    decreases |s| - i
  {
    hide CharLength, Decode, Units, Scalar, TextFrom, IsPlain, Escaped;
    if i == |s| {
      TextAtEnd(s, conv);
    } else {
      PlainUnit(s, i, conv);
      PlainKept(s, i + 1, conv);
      TextStep(s, i, conv);
      assert s[i..] == [s[i]] + s[i + 1..];
    }
  }

  // ---- The transcoder -----------------------------------------------------------------------------

  /** The guard of `utf8_to_string` against overflow of the buffer size. */
  predicate TooLong(shorts: int, csize: nat)
    requires csize > 0
  {
    shorts > (SIZE_MAX - 1) / csize - 1
  }

  /** Refused is exactly what would need a buffer beyond the largest size. */
  lemma TooLongExact(shorts: nat, csize: nat)
    requires csize > 0
    ensures TooLong(shorts, csize) <==> (shorts + 1) * csize + 1 > SIZE_MAX
  {
    var q, r := (SIZE_MAX - 1) / csize, (SIZE_MAX - 1) % csize;
    assert SIZE_MAX - 1 == q * csize + r && 0 <= r < csize;
    if shorts + 1 > q {
      Scaled(q + 1, shorts + 1, csize);
      assert (q + 1) * csize == q * csize + csize;
    } else {
      Scaled(shorts + 1, q, csize);
    }
  }

  lemma Scaled(a: nat, b: nat, c: nat)
    requires a <= b
    ensures a * c <= b * c
  {
  }

  /** The text for the characters from `i` on. */
  ghost function TextFrom(s: CString, i: nat, conv: Conv): seq<byte>
    requires i <= |s| && WellFormed(s, i)
  {
    CodePointsEncode(s, i);
    UnitsOfValid(CodePoints(s, i));
    Escaped(conv, UnitsOf(CodePoints(s, i)))
  }

  lemma TextStep(s: CString, i: nat, conv: Conv)
    requires i < |s| && WellFormed(s, i)
    ensures Scalar(Decode(s, i).1)
    ensures TextFrom(s, i, conv) == Escaped(conv, Units(Decode(s, i).1)) + TextFrom(s, i + CharLength(s, i), conv)
  {
    hide CharLength, Decode, Units, Scalar;
    CodePointsEncode(s, i);
    SizeStep(s, i);
    var cs := CodePoints(s, i);
    UnitsOfValid(cs);
    UnitsOfValid(cs[1..]);
    assert cs[1..] == CodePoints(s, i + CharLength(s, i));
    UnitsValid(cs[0]);
    EscapedConcat(conv, Units(cs[0]), UnitsOf(cs[1..]));
  }

  lemma UnitsValid(c: int)
    requires Scalar(c)
    ensures ValidUnits(Units(c))
  {
  }

  /** One call of the converter: writes at `pos` if at least one byte stays free. */
  method WriteUnit(conv: Conv, u: int, outs: array<byte>, pos: nat) returns (ok: bool, next: nat)
    requires 0 <= u < 0x10000 && pos <= outs.Length
    modifies outs
    ensures ok <==> |Convert(conv, u)| < outs.Length - pos
    ensures ok ==> next == pos + |Convert(conv, u)| && outs[..next] == old(outs[..pos]) + Convert(conv, u)
  {
    hide Convert;
    var e := Convert(conv, u);
    if |e| >= outs.Length - pos {
      return false, pos;
    }
    ghost var before := outs[..pos];
    for k := 0 to |e|
      invariant outs[..pos + k] == before + e[..k]
    {
      outs[pos + k] := e[k];
    }
    return true, pos + |e|;
  }

  /** Both units of a character, or its only one. */
  method WriteChar(conv: Conv, c: int, outs: array<byte>, pos: nat) returns (ok: bool, next: nat)
    requires Scalar(c) && pos + |Units(c)| * Width(conv) < outs.Length
    modifies outs
    ensures ok && ValidUnits(Units(c))
    ensures pos <= next <= pos + |Units(c)| * Width(conv) && outs[..next] == old(outs[..pos]) + Escaped(conv, Units(c))
  {
    hide Convert;
    if c < 0x10000 {
      ConvertFits(conv, c);
      ok, next := WriteUnit(conv, c, outs, pos);
      assert Units(c) == [c] && [c][1..] == [];
    } else {
      var high, low := (c - 0x10000) / 0x400 + 0xD800, (c - 0x10000) % 0x400 + 0xDC00;
      assert Units(c) == [high, low] && [high, low][1..] == [low] && [low][1..] == [];
      ConvertFits(conv, high);
      ConvertFits(conv, low);
      ok, next := WriteUnit(conv, high, outs, pos);
      ok, next := WriteUnit(conv, low, outs, next);
      assert Escaped(conv, [low]) == Convert(conv, low);
      assert Escaped(conv, Units(c)) == Convert(conv, high) + Convert(conv, low);
    }
  }

  /** `utf8_to_string` with the width its callers pass: succeeds exactly on
      non-empty well-formed UTF-8 that is not absurdly long, and never because
      the buffer it sized beforehand is full. */
  method Utf8ToString(ins: CString, csize: nat, conv: Conv) returns (r: Option<seq<byte>>)
    requires csize == Width(conv)
    ensures r.Some? <==> ins != [] && WellFormed(ins, 0) && !TooLong(Size(ins, 0), csize)
    ensures r.Some? ==> r.value == TextFrom(ins, 0, conv)
  {
    hide CharLength, Decode, Scalar, Units, TextFrom, Escaped, Size, Room;
    var shorts := Utf16Size(ins);
    SizePositive(ins);
    if shorts <= 0 {
      return None;
    }
    if TooLong(shorts, csize) {
      return None;
    }
    var outSize := (shorts + 1) * csize + 1;
    var outs := new byte[outSize];
    var t, outpos := 0, 0;
    assert outs[..0] == [];
    RoomAtStart(shorts, csize);
    while true
      invariant t <= |ins| && outpos <= outSize
      invariant WellFormed(ins, 0) == WellFormed(ins, t)
      invariant WellFormed(ins, t) ==> TextFrom(ins, 0, conv) == outs[..outpos] + TextFrom(ins, t, conv)
      invariant 0 <= Size(ins, t) <= shorts && Room(shorts, Size(ins, t), csize, outpos)
      decreases |ins| - t
    {
      var (m, wc) := Decode(ins, t);
      DecodeEnds(ins, t);
      if m <= 0 {
        if m < 0 {
          return None;
        }
        break;
      }
      SizeStep(ins, t);
      if WellFormed(ins, t) {
        TextStep(ins, t, conv);
      }
      RoomForChar(shorts, Size(ins, t), |Units(wc)|, csize, outpos);
      var ok, next := WriteChar(conv, wc, outs, outpos);
      RoomAfterChar(shorts, Size(ins, t), |Units(wc)|, csize, outpos, next);
      t, outpos := t + m, next;
    }
    TextAtEnd(ins, conv);
    RoomForChar(shorts, Size(ins, t), 0, csize, outpos);
    outs[outpos] := 0;
    r := Some(outs[..outpos]);
  }

  /** The units written so far stay within what was reserved for them. */
  ghost predicate Room(shorts: int, size: int, csize: nat, outpos: nat) {
    outpos <= (shorts - size) * csize
  }

  lemma RoomAtStart(shorts: nat, csize: nat)
    ensures Room(shorts, shorts, csize, 0)
  {
  }

  lemma RoomForChar(shorts: nat, size: nat, units: nat, csize: nat, outpos: nat)
    requires units <= size <= shorts && Room(shorts, size, csize, outpos)
    ensures outpos + units * csize < (shorts + 1) * csize + 1
  {
  }

  lemma RoomAfterChar(shorts: nat, size: nat, units: nat, csize: nat, outpos: nat, next: nat)
    requires units <= size <= shorts && Room(shorts, size, csize, outpos) && next <= outpos + units * csize
    ensures Room(shorts, size - units, csize, next)
  {
  }

  lemma TextAtEnd(s: CString, conv: Conv)
    ensures WellFormed(s, |s|) && TextFrom(s, |s|, conv) == []
  {
  }

  /** The decoder's verdict at an index. */
  lemma DecodeEnds(s: CString, i: nat)
    requires i <= |s|
    ensures Decode(s, i).0 == 0 <==> i == |s|
    ensures Decode(s, i).0 > 0 ==> i < |s| && Decode(s, i).0 == CharLength(s, i)
    ensures Decode(s, i).0 < 0 ==> i < |s| && CharLength(s, i) == 0
  {
    if i < |s| {
      DecodeExact(s, i);
    }
  }

  lemma SizePositive(s: CString)
    ensures s == [] <==> Size(s, 0) == 0
    ensures WellFormed(s, 0) ==> Size(s, 0) >= 0
  {
    if WellFormed(s, 0) {
      SizeExact(s, 0);
    }
  }

  /** `utf8_to_js_string`: the text is safe between quotes and denotes exactly
      the UTF-16 form of the input's code points. */
  method Utf8ToJsString(ins: CString) returns (r: Option<seq<byte>>)
    ensures r.Some? <==> ins != [] && WellFormed(ins, 0) && !TooLong(Size(ins, 0), 6)
    ensures r.Some? ==>
              && NonZeroScalars(CodePoints(ins, 0)) && EncodeAll(CodePoints(ins, 0)) == ins
              && UnescapeJs(r.value) == Some(UnitsOf(CodePoints(ins, 0)))
              && forall k :: 0 <= k < |r.value| ==> 0x20 <= r.value[k] <= 0x7E && r.value[k] !in {0x22, 0x27}
  {
    r := Utf8ToString(ins, 6, Js);
    if r.Some? {
      CodePointsEncode(ins, 0);
      UnitsOfValid(CodePoints(ins, 0));
      UnescapeEscaped(UnitsOf(CodePoints(ins, 0)));
      EscapedSafe(UnitsOf(CodePoints(ins, 0)));
    }
  }

  /** `utf8_to_html_string`: when it succeeds, and when a reader gets the input back. */
  method Utf8ToHtmlString(ins: CString) returns (r: Option<seq<byte>>)
    ensures r.Some? <==> ins != [] && WellFormed(ins, 0) && !TooLong(Size(ins, 0), 8)
    ensures r.Some? ==>
              && NonZeroScalars(CodePoints(ins, 0)) && EncodeAll(CodePoints(ins, 0)) == ins
              && ReadHtml(r.value) == Some(Seen(UnitsOf(CodePoints(ins, 0))))
              && (ReadHtml(r.value) == Some(CodePoints(ins, 0))
                  <==> forall k :: 0 <= k < |CodePoints(ins, 0)| ==> Survives(CodePoints(ins, 0)[k]))
              && forall k :: 0 <= k < |r.value| ==> 0x20 <= r.value[k] <= 0x7E && r.value[k] !in {0x22, 0x27, 0x3C, 0x3E}
  {
    r := Utf8ToString(ins, 8, Html);
    if r.Some? {
      CodePointsEncode(ins, 0);
      UnitsOfValid(CodePoints(ins, 0));
      ReadHtmlEscaped(UnitsOf(CodePoints(ins, 0)));
      HtmlExact(CodePoints(ins, 0));
      HtmlSafe(UnitsOf(CodePoints(ins, 0)));
    }
  }
}
