/** Integers as the C library prints and scans them. */
module Decimal {
  import opened Wrappers

  function Digit(n: nat): char
    requires n < 10
  {
    '0' + n as char
  }

  predicate IsDigit(c: char) {
    '0' <= c <= '9'
  }

  /** `%u`, and `%lld` of a value that is not negative. */
  function Unsigned(n: nat): string {
    if n < 10 then [Digit(n)] else Unsigned(n / 10) + [Digit(n % 10)]
  }

  function Signed(i: int): string {
    if i < 0 then "-" + Unsigned(-i) else Unsigned(i)
  }

  /** The digits at the start of `s`. */
  function DigitsOf(s: string): (d: string)
    ensures |d| <= |s|
  {
    if s == [] || !IsDigit(s[0]) then [] else [s[0]] + DigitsOf(s[1..])
  }

  function ValueOf(s: string): int {
    if s == [] then 0 else 10 * ValueOf(s[..|s| - 1]) + (s[|s| - 1] as int - '0' as int)
  }

  /** `sscanf` of one decimal integer at the start of a token. */
  function Scan(s: string): Option<int> {
    var signed := s != [] && (s[0] == '-' || s[0] == '+');
    var digits := DigitsOf(if signed then s[1..] else s);
    if digits == [] then None
    else Some(if signed && s[0] == '-' then -ValueOf(digits) else ValueOf(digits))
  }

  lemma {:induction false} UnsignedDigits(n: nat)
    ensures Unsigned(n) != [] && forall i :: 0 <= i < |Unsigned(n)| ==> IsDigit(Unsigned(n)[i])
    ensures ValueOf(Unsigned(n)) == n
  {
    if n >= 10 {
      UnsignedDigits(n / 10);
      assert Unsigned(n)[..|Unsigned(n)| - 1] == Unsigned(n / 10);
    } else {
      assert ValueOf([]) == 0 && Unsigned(n)[..0] == [];
    }
  }

  lemma {:induction false} DigitsAll(s: string)
    requires forall i :: 0 <= i < |s| ==> IsDigit(s[i])
    ensures DigitsOf(s) == s
  {
    if s != [] {
      DigitsAll(s[1..]);
    }
  }

  /** A printed number is scanned back. */
  lemma ScanSigned(i: int)
    ensures Scan(Signed(i)) == Some(i)
    ensures forall k :: 0 <= k < |Signed(i)| ==> Signed(i)[k] == '-' || IsDigit(Signed(i)[k])
  {
    hide Scan, Unsigned, ValueOf;
    var n := if i < 0 then -i else i;
    UnsignedDigits(n);
    ScanDigits(i < 0, Unsigned(n));
    assert "" + Unsigned(n) == Unsigned(n);
  }

  lemma ScanDigits(negative: bool, digits: string)
    requires digits != [] && forall k :: 0 <= k < |digits| ==> IsDigit(digits[k])
    ensures Scan((if negative then "-" else "") + digits) == Some(if negative then -ValueOf(digits) else ValueOf(digits))
  {
    hide DigitsOf, ValueOf;
    DigitsAll(digits);
    assert IsDigit(digits[0]);
    var s := (if negative then "-" else "") + digits;
    assert negative ==> s[0] == '-' && s[1..] == digits;
    assert !negative ==> s == digits;
  }

  /** No leading zero is printed. */
  lemma {:induction false} UnsignedFirst(n: nat)
    ensures Unsigned(n) != [] && (n > 0 ==> Unsigned(n)[0] != '0')
  {
    if n >= 10 {
      UnsignedFirst(n / 10);
    }
  }
}
