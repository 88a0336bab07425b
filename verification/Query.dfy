/** What a browser sends and what the web server reads of it: a list of names
    and values, percent-encoded as in section 2.1 of RFC 3986 and joined. */
module Query {
  import opened Bytes
  import opened Cgi

  datatype Pair = Pair(name: CString, value: CString)

  /** Section 2.3 of RFC 3986. */
  predicate IsUnreserved(c: byte) {
    48 <= c <= 57 || 65 <= c <= 90 || 97 <= c <= 122 || c in {45, 46, 95, 126}
  }

  /** The digit `n` to base 16, in either case. */
  predicate IsHexOf(c: byte, n: nat) {
    (n < 10 && c == 48 + n) || (10 <= n < 16 && (c == 55 + n || c == 87 + n))
  }

  predicate IsHexDigit(c: byte) {
    '0' <= c as char <= '9' || 'A' <= c as char <= 'F' || 'a' <= c as char <= 'f'
  }

  /** `t` is an encoding of `s`: an unreserved byte may stand for itself, a space may
      be a `+`, and any byte may be escaped, with digits of either case. */
  predicate Encodes(t: seq<byte>, s: seq<byte>) {
    if s == [] then t == []
    else
      || (t != [] && IsUnreserved(s[0]) && t[0] == s[0] && Encodes(t[1..], s[1..]))
      || (t != [] && s[0] == 32 && t[0] == 43 && Encodes(t[1..], s[1..]))
      || (|t| >= 3 && t[0] == 37 && IsHexOf(t[1], s[0] / 16) && IsHexOf(t[2], s[0] % 16) && Encodes(t[3..], s[1..]))
  }

  ghost predicate IsField(t: seq<byte>, p: Pair) {
    exists n, v :: Encodes(n, p.name) && Encodes(v, p.value) && t == n + ([61] + v)
  }

  /** `t` is the encoded pairs, joined with separators. */
  ghost predicate IsQuery(t: seq<byte>, pairs: seq<Pair>)
    decreases |pairs|
  {
    if pairs == [] then t == []
    else if |pairs| == 1 then IsField(t, pairs[0])
    else exists field, rest, sep: byte ::
      IsField(field, pairs[0]) && (sep == 38 || sep == 59) && IsQuery(rest, pairs[1..]) && t == field + ([sep] + rest)
  }

  // ---- A browser's encoding ------------------------------------------------------------------

  function HexDigit(n: nat): (c: byte)
    requires n < 16
    ensures IsHexOf(c, n)
  {
    if n < 10 then 48 + n else 55 + n
  }

  function Encode(s: seq<byte>): seq<byte> {
    if s == [] then []
    else if IsUnreserved(s[0]) then [s[0]] + Encode(s[1..])
    else if s[0] == SPACE then [PLUS] + Encode(s[1..])
    else [PERCENT, HexDigit(s[0] / 16), HexDigit(s[0] % 16)] + Encode(s[1..])
  }

  lemma {:induction false} EncodeEncodes(s: seq<byte>)
    ensures Encodes(Encode(s), s)
  {
    if s != [] {
      EncodeEncodes(s[1..]);
      var rest := Encode(s[1..]);
      if IsUnreserved(s[0]) || s[0] == SPACE {
        assert Encode(s)[1..] == rest;
      } else {
        assert Encode(s)[3..] == rest;
      }
    }
  }

  // ---- Reading it back -------------------------------------------------------------------------

  /** No separator, no terminator. */
  predicate IsQuiet(c: byte) {
    IsUnreserved(c) || c == PERCENT || c == PLUS || c == EQUALS
  }

  /** How an encoding starts, and the encoding of the other bytes. */
  lemma EncodedFirst(t: seq<byte>, s: seq<byte>) returns (first: seq<byte>, rest: seq<byte>)
    requires Encodes(t, s) && s != []
    ensures t == first + rest && Encodes(rest, s[1..])
    ensures
      || (first == [s[0]] && s[0] != PERCENT && s[0] != PLUS && IsUnreserved(s[0]))
      || (first == [PLUS] && s[0] == SPACE)
      || (|first| == 3 && IsEscape(first) && EscapeValue(first) == s[0])
  {
    if t[0] != PERCENT {
      first, rest := [t[0]], t[1..];
    } else {
      first, rest := [t[0], t[1], t[2]], t[3..];
      HexIs(t[1], s[0] / 16);
      HexIs(t[2], s[0] % 16);
    }
  }

  lemma HexIs(c: byte, n: nat)
    requires IsHexOf(c, n)
    ensures IsHex(c) && HexValue(c) == n
  {
  }

  lemma EncodedNone(t: seq<byte>)
    ensures Encodes(t, []) ==> t == []
  {
  }

  lemma {:induction false} EncodedQuiet(t: seq<byte>, s: seq<byte>)
    requires Encodes(t, s)
    ensures forall i :: 0 <= i < |t| ==> IsQuiet(t[i])
    decreases |s|
  {
    hide Encodes;
    if s == [] {
      EncodedNone(t);
    } else {
      var first, rest := EncodedFirst(t, s);
      EncodedQuiet(rest, s[1..]);
    }
  }

  /** An encoding holds no `%u`, so the replacement passes over it. */
  lemma {:induction false} ReplacedPasses(t: seq<byte>, s: seq<byte>, tail: seq<byte>)
    requires Encodes(t, s)
    ensures Replaced(t + tail, PERCENT_U, TILDE_U) == t + Replaced(tail, PERCENT_U, TILDE_U)
    decreases |s|
  {
    hide Encodes, Replaced, IsEscape, EscapeValue, IsUnreserved;
    if s == [] {
      EncodedNone(t);
      assert t + tail == tail;
    } else {
      var first, rest := EncodedFirst(t, s);
      ReplacedPasses(rest, s[1..], tail);
      if |first| == 3 && IsEscape(first) {
        ReplacedEscape(first, rest + tail);
      } else {
        ReplacedKeeps(first[0], rest + tail);
      }
      assert t + tail == first + (rest + tail);
    }
  }

  lemma ReplacedEscape(e: seq<byte>, rest: seq<byte>)
    requires |e| == 3 && IsEscape(e)
    ensures Replaced(e + rest, PERCENT_U, TILDE_U) == e + Replaced(rest, PERCENT_U, TILDE_U)
  {
    hide Replaced;
    ReplacedKeeps(e[2], rest);
    ReplacedKeeps(e[1], [e[2]] + rest);
    ReplacedKeeps(e[0], [e[1]] + ([e[2]] + rest));
    assert e + rest == [e[0]] + ([e[1]] + ([e[2]] + rest));
  }

  lemma ReplacedKeeps(c: byte, rest: seq<byte>)
    requires c != PERCENT || (rest != [] && rest[0] != PERCENT_U[1])
    ensures Replaced([c] + rest, PERCENT_U, TILDE_U) == [c] + Replaced(rest, PERCENT_U, TILDE_U)
  {
    var s := [c] + rest;
    assert |s| >= 2 ==> s[..2] == [s[0], s[1]];
    assert s[1..] == rest;
  }

  lemma {:induction false} UnescapedEncoded(t: seq<byte>, s: seq<byte>, tail: seq<byte>)
    requires Encodes(t, s)
    ensures Unescaped(t + tail) == s + Unescaped(tail)
    decreases |s|
  {
    hide Encodes, Unescaped, IsEscape, EscapeValue, IsUnreserved;
    if s == [] {
      EncodedNone(t);
      assert t + tail == tail;
    } else {
      var first, rest := EncodedFirst(t, s);
      UnescapedEncoded(rest, s[1..], tail);
      if |first| == 3 && IsEscape(first) {
        UnescapedEscape(first, rest + tail);
      } else if first == [PLUS] {
        UnescapedPlus(rest + tail);
      } else {
        UnescapedKeeps(s[0], rest + tail);
      }
      assert t + tail == first + (rest + tail);
    }
  }

  lemma UnescapedEscape(e: seq<byte>, rest: seq<byte>)
    requires |e| == 3 && IsEscape(e)
    ensures Unescaped(e + rest) == [EscapeValue(e)] + Unescaped(rest)
  {
  }

  lemma UnescapedPlus(rest: seq<byte>)
    ensures Unescaped([PLUS] + rest) == [SPACE] + Unescaped(rest)
  {
  }

  /** Decoding stops at a `%` that two hexadecimal digits do not follow. */
  lemma UnescapedStops(t: seq<byte>, s: seq<byte>, tail: seq<byte>)
    requires Encodes(t, s)
    requires tail != [] && tail[0] == 37 && (|tail| < 3 || !IsHexDigit(tail[1]) || !IsHexDigit(tail[2]))
    ensures Unescaped(t + tail) == s
  {
    hide Encodes, Unescaped;
    UnescapedEncoded(t, s, tail);
    UnescapedStep(tail);
    assert s + [] == s;
  }

  lemma UnescapedKeeps(c: byte, rest: seq<byte>)
    requires c != PERCENT && c != PLUS
    ensures Unescaped([c] + rest) == [c] + Unescaped(rest)
  {
  }

  lemma {:induction false} EqualsAfter(name: seq<byte>, value: seq<byte>)
    requires EQUALS !in name
    ensures EqualsAt(name + ([EQUALS] + value)) == |name|
  {
    var s := name + ([EQUALS] + value);
    if name != [] {
      assert s[1..] == name[1..] + ([EQUALS] + value);
      EqualsAfter(name[1..], value);
    }
  }

  /** A field is read as its pair. */
  lemma FieldRead(t: seq<byte>, p: Pair)
    requires IsField(t, p)
    ensures Field(t) == p.name + ([EQUALS] + p.value)
  {
    hide Replaced, Unescaped, Encodes;
    var n, v :| Encodes(n, p.name) && Encodes(v, p.value) && t == n + ([EQUALS] + v);
    ReplacedPasses(n, p.name, [EQUALS] + v);
    ReplacedKeeps(EQUALS, v);
    ReplacedPasses(v, p.value, []);
    EmptyRead();
    assert v + [] == v;
    assert Replaced(t, PERCENT_U, TILDE_U) == t;
    UnescapedEncoded(n, p.name, [EQUALS] + v);
    UnescapedKeeps(EQUALS, v);
    UnescapedEncoded(v, p.value, []);
    assert p.value + [] == p.value;
    var f := p.name + ([EQUALS] + p.value);
    assert f[..|f|] == f;
    LengthIs(f, |f|);
  }

  /** A `%u` between encoded text is read as `~u`, and the text around it as it is. */
  lemma FieldUnicode(a: seq<byte>, s: CString, b: seq<byte>, t: CString)
    requires Encodes(a, s) && Encodes(b, t)
    ensures Field(a + ([37, 117] + b)) == s + ([126, 117] + t)
  {
    hide Replaced, Unescaped, Encodes, IsEscape;
    ReplacedPasses(a, s, [37, 117] + b);
    ReplacedHere(b);
    ReplacedPasses(b, t, []);
    EmptyRead();
    assert b + [] == b;
    assert Replaced(a + ([37, 117] + b), PERCENT_U, TILDE_U) == a + ([126, 117] + b);
    UnescapedEncoded(a, s, [126, 117] + b);
    UnescapedKeeps(117, b);
    UnescapedKeeps(126, [117] + b);
    assert [126] + ([117] + b) == [126, 117] + b;
    UnescapedEncoded(b, t, []);
    assert t + [] == t;
    var f := s + ([126, 117] + t);
    assert [126] + ([117] + t) == [126, 117] + t;
    assert f[..|f|] == f;
    LengthIs(f, |f|);
  }

  lemma ReplacedHere(rest: seq<byte>)
    ensures Replaced([37, 117] + rest, PERCENT_U, TILDE_U) == [126, 117] + Replaced(rest, PERCENT_U, TILDE_U)
  {
    var s := [37, 117] + rest;
    assert s[..2] == PERCENT_U && s[2..] == rest;
  }

  lemma EmptyRead()
    ensures Replaced([], PERCENT_U, TILDE_U) == [] && Unescaped([]) == []
  {
  }

  /** A field assigns its pair. */
  lemma FieldAssigned(m: map<CString, CString>, t: seq<byte>, p: Pair)
    requires IsField(t, p) && EQUALS !in p.name
    ensures Assign(m, t) == m[p.name := p.value]
  {
    hide Field, IsField, EqualsAt;
    FieldRead(t, p);
    EqualsAfter(p.name, p.value);
    var f := p.name + ([EQUALS] + p.value);
    assert f[..|p.name|] == p.name && f[|p.name| + 1..] == p.value;
  }

  /** A segment without a `=` assigns nothing. */
  lemma SegmentIgnored(m: map<CString, CString>, t: seq<byte>, s: CString)
    requires Encodes(t, s) && 61 !in s
    ensures Assign(m, t) == m
  {
    hide Replaced, Unescaped, Encodes;
    ReplacedPasses(t, s, []);
    UnescapedEncoded(t, s, []);
    EmptyRead();
    assert t + [] == t && s + [] == s && s[..|s|] == s;
    LengthIs(s, |s|);
    NoEquals(s);
  }

  lemma {:induction false} NoEquals(s: seq<byte>)
    requires EQUALS !in s
    ensures EqualsAt(s) == |s|
  {
    if s != [] {
      NoEquals(s[1..]);
    }
  }

  /** The field is split after it is decoded, so an encoded `=` in a name is lost. */
  lemma FieldExact(t: seq<byte>, p: Pair)
    requires IsField(t, p)
    ensures Assign(map[], t) == map[p.name := p.value] <==> EQUALS !in p.name
  {
    hide Field, IsField;
    if EQUALS !in p.name {
      FieldAssigned(map[], t, p);
    } else {
      FieldRead(t, p);
      var f := p.name + ([EQUALS] + p.value);
      EqualsWithin(p.name, [EQUALS] + p.value);
      var k := EqualsAt(f);
      assert |f[..k]| < |p.name|;
      assert f[..k] in Assign(map[], t) && f[..k] !in map[p.name := p.value];
    }
  }

  lemma {:induction false} EqualsWithin(name: seq<byte>, rest: seq<byte>)
    requires EQUALS in name
    ensures EqualsAt(name + rest) < |name|
  {
    assert (name + rest)[1..] == name[1..] + rest;
    if name[0] != EQUALS {
      EqualsWithin(name[1..], rest);
    }
  }

  lemma FieldQuiet(t: seq<byte>, p: Pair)
    requires IsField(t, p)
    ensures forall i :: 0 <= i < |t| ==> IsQuiet(t[i])
  {
    var n, v :| Encodes(n, p.name) && Encodes(v, p.value) && t == n + ([EQUALS] + v);
    EncodedQuiet(n, p.name);
    EncodedQuiet(v, p.value);
  }

  lemma {:induction false} SegmentIs(field: seq<byte>, rest: seq<byte>)
    requires forall i :: 0 <= i < |field| ==> IsQuiet(field[i])
    requires rest == [] || IsSeparator(rest[0])
    ensures SegmentEnd(field + rest) == |field|
  {
    if field == [] {
      assert field + rest == rest;
    } else {
      assert (field + rest)[1..] == field[1..] + rest;
      SegmentIs(field[1..], rest);
    }
  }

  // ---- The whole query ---------------------------------------------------------------------------

  /** The pairs entered one after the other. */
  function Entered(m: map<CString, CString>, pairs: seq<Pair>): map<CString, CString>
    decreases |pairs|
  {
    if pairs == [] then m else Entered(m[pairs[0].name := pairs[0].value], pairs[1..])
  }

  lemma {:induction false} QueryEntered(m: map<CString, CString>, t: seq<byte>, pairs: seq<Pair>)
    requires IsQuery(t, pairs) && forall i :: 0 <= i < |pairs| ==> EQUALS !in pairs[i].name
    ensures AssignAll(m, t) == Entered(m, pairs)
    decreases |pairs|
  {
    hide Assign, SegmentEnd, IsField;
    if pairs == [] {
      AssignNothing(m);
    } else if |pairs| == 1 {
      FieldQuiet(t, pairs[0]);
      SegmentIs(t, []);
      assert t + [] == t && t[..|t|] == t;
      FieldAssigned(m, t, pairs[0]);
    } else {
      var field, rest, sep: byte :|
        IsField(field, pairs[0]) && (sep == 38 || sep == 59) && IsQuery(rest, pairs[1..]) && t == field + ([sep] + rest);
      FieldQuiet(field, pairs[0]);
      SegmentIs(field, [sep] + rest);
      assert t[..|field|] == field && t[|field| + 1..] == rest;
      FieldAssigned(m, field, pairs[0]);
      QueryEntered(m[pairs[0].name := pairs[0].value], rest, pairs[1..]);
    }
  }

  /** No later pair has the name of pair `i`. */
  predicate IsLast(pairs: seq<Pair>, i: nat)
    requires i < |pairs|
  {
    forall j :: i < j < |pairs| ==> pairs[j].name != pairs[i].name
  }

  function Names(pairs: seq<Pair>): set<CString> {
    set i | 0 <= i < |pairs| :: pairs[i].name
  }

  lemma {:induction false} EnteredKeys(m: map<CString, CString>, pairs: seq<Pair>)
    ensures Entered(m, pairs).Keys == m.Keys + Names(pairs)
    decreases |pairs|
  {
    if pairs != [] {
      EnteredKeys(m[pairs[0].name := pairs[0].value], pairs[1..]);
    }
  }

  lemma {:induction false} EnteredKeeps(m: map<CString, CString>, pairs: seq<Pair>, name: CString)
    requires name in m && forall j :: 0 <= j < |pairs| ==> pairs[j].name != name
    ensures name in Entered(m, pairs) && Entered(m, pairs)[name] == m[name]
    decreases |pairs|
  {
    if pairs != [] {
      EnteredKeeps(m[pairs[0].name := pairs[0].value], pairs[1..], name);
    }
  }

  lemma {:induction false} EnteredLast(m: map<CString, CString>, pairs: seq<Pair>, i: nat)
    requires i < |pairs| && IsLast(pairs, i)
    ensures var r := Entered(m, pairs); pairs[i].name in r && r[pairs[i].name] == pairs[i].value
    decreases |pairs|
  {
    var m' := m[pairs[0].name := pairs[0].value];
    if i == 0 {
      EnteredKeeps(m', pairs[1..], pairs[0].name);
    } else {
      EnteredLast(m', pairs[1..], i - 1);
    }
  }

  /** Every encoding of a list of pairs is read as the map in which each name
      has its last value. */
  lemma QueryRoundTrip(t: seq<byte>, pairs: seq<Pair>)
    requires IsQuery(t, pairs) && forall i :: 0 <= i < |pairs| ==> EQUALS !in pairs[i].name
    ensures var r := AssignAll(map[], t);
      && r.Keys == Names(pairs)
      && (forall i :: 0 <= i < |pairs| && IsLast(pairs, i) ==> pairs[i].name in r && r[pairs[i].name] == pairs[i].value)
  {
    hide Entered, AssignAll, IsQuery;
    QueryEntered(map[], t, pairs);
    EnteredKeys(map[], pairs);
    forall i | 0 <= i < |pairs| && IsLast(pairs, i)
      ensures var r := AssignAll(map[], t); pairs[i].name in r && r[pairs[i].name] == pairs[i].value
    {
      EnteredLast(map[], pairs, i);
    }
  }
}
