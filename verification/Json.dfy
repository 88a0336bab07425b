/** JSON texts by RFC 8259: a tree of values, its plain serialisation, and a
    parser for the grammar of sections 2 to 7. */
module Json {
  import opened Decimal
  import opened Wrappers

  /** A number is kept as it is written. */
  datatype Value =
    | Text(s: string)
    | Number(lexeme: string)
    | Literal(literal: string)
    | Object(fields: Fields)
    | Array(items: Items)

  datatype Fields = NoField | Field(name: string, value: Value, rest: Fields)

  datatype Items = NoItem | Item(first: Value, rest: Items)

  const LITERALS: set<string> := {"true", "false", "null"}

  // ---- Serialisation ---------------------------------------------------------------------------

  function HexDigit(n: nat): char
    requires n < 16
  {
    if n < 10 then '0' + n as char else 'a' + (n - 10) as char
  }

  /** One character of a string as it is written. */
  function Escape(c: char): string {
    if c == '\"' then "\\\""
    else if c == '\\' then "\\\\"
    else if c == '\n' then "\\n"
    else if c == '\r' then "\\r"
    else if c == '\t' then "\\t"
    else if c < ' ' then "\\u00" + [HexDigit(c as nat / 16), HexDigit(c as nat % 16)]
    else [c]
  }

  function Escaped(s: string): string {
    if s == [] then [] else Escape(s[0]) + Escaped(s[1..])
  }

  function Quoted(s: string): string {
    "\"" + (Escaped(s) + "\"")
  }

  function Show(v: Value): string {
    match v
    case Text(s) => Quoted(s)
    case Number(n) => n
    case Literal(l) => l
    case Object(fields) => "{" + (ShowFields(fields) + "}")
    case Array(items) => "[" + (ShowItems(items) + "]")
  }

  function ShowFields(f: Fields): string {
    match f
    case NoField => []
    case Field(name, value, rest) =>
      Quoted(name) + (":" + (Show(value) + if rest.NoField? then [] else "," + ShowFields(rest)))
  }

  function ShowItems(i: Items): string {
    match i
    case NoItem => []
    case Item(first, rest) => Show(first) + if rest.NoItem? then [] else "," + ShowItems(rest)
  }

  // ---- The grammar -----------------------------------------------------------------------------

  datatype Parsed<T> = Fail | Done(value: T, rest: string)

  /** Insignificant white space, section 2. */
  function Trim(s: string): (r: string)
    ensures |r| <= |s|
  {
    if s != [] && (s[0] == ' ' || s[0] == '\t' || s[0] == '\n' || s[0] == '\r') then Trim(s[1..]) else s
  }

  function HexValue(c: char): Option<nat> {
    if '0' <= c <= '9' then Some((c - '0') as nat)
    else if 'a' <= c <= 'f' then Some((c - 'a') as nat + 10)
    else if 'A' <= c <= 'F' then Some((c - 'A') as nat + 10)
    else None
  }

  /** The four digits of `\uXXXX`; halves of surrogate pairs are not accepted. */
  function CodeUnit(s: string): Option<char>
    requires |s| >= 4
  {
    var a, b, c, d := HexValue(s[0]), HexValue(s[1]), HexValue(s[2]), HexValue(s[3]);
    if a.None? || b.None? || c.None? || d.None? || a.value > 15 || b.value > 15 || c.value > 15 || d.value > 15 then None
    else
      var n := ((a.value * 16 + b.value) * 16 + c.value) * 16 + d.value;
      if n < 0xD800 || 0xE000 <= n < 0x10000 then Some(n as char) else None
  }

  function TwoCharacter(c: char): Option<char> {
    if c == '\"' || c == '\\' || c == '/' then Some(c)
    else if c == 'b' then Some(8 as char)
    else if c == 'f' then Some(12 as char)
    else if c == 'n' then Some('\n')
    else if c == 'r' then Some('\r')
    else if c == 't' then Some('\t')
    else None
  }

  function Push(c: char, r: Parsed<string>): Parsed<string> {
    if r.Done? then Done([c] + r.value, r.rest) else Fail
  }

  /** A string after its opening quote, section 7. */
  function ParseString(s: string): (r: Parsed<string>)
    ensures r.Done? ==> |r.rest| < |s|
  {
    if s == [] || s[0] < ' ' then Fail
    else if s[0] == '\"' then Done([], s[1..])
    else if s[0] != '\\' then Push(s[0], ParseString(s[1..]))
    else if |s| >= 6 && s[1] == 'u' then
      if CodeUnit(s[2..]).Some? then Push(CodeUnit(s[2..]).value, ParseString(s[6..])) else Fail
    else if |s| >= 2 && TwoCharacter(s[1]).Some? then Push(TwoCharacter(s[1]).value, ParseString(s[2..]))
    else Fail
  }

  predicate IsExponent(s: string) {
    || s == []
    || ((s[0] == 'e' || s[0] == 'E') &&
        var d := if |s| > 1 && (s[1] == '+' || s[1] == '-') then s[2..] else s[1..];
        d != [] && DigitsOf(d) == d)
  }

  predicate IsFraction(s: string) {
    if s != [] && s[0] == '.' then
      var d := DigitsOf(s[1..]);
      d != [] && IsExponent(s[1 + |d|..])
    else IsExponent(s)
  }

  /** Section 6. */
  predicate IsNumber(s: string) {
    var t := if s != [] && s[0] == '-' then s[1..] else s;
    var d := DigitsOf(t);
    d != [] && (d[0] == '0' ==> |d| == 1) && IsFraction(t[|d|..])
  }

  predicate IsNumberChar(c: char) {
    IsDigit(c) || c == '-' || c == '+' || c == '.' || c == 'e' || c == 'E'
  }

  function Lexeme(s: string): (n: string)
    ensures |n| <= |s|
  {
    if s == [] || !IsNumberChar(s[0]) then [] else [s[0]] + Lexeme(s[1..])
  }

  predicate StartsWith(s: string, t: string) {
    |t| <= |s| && s[..|t|] == t
  }

  /** A literal name, section 3, or a number. */
  function ParseWord(s: string): (r: Parsed<Value>)
    ensures r.Done? ==> |r.rest| < |s|
  {
    if StartsWith(s, "true") then Done(Literal("true"), s[4..])
    else if StartsWith(s, "false") then Done(Literal("false"), s[5..])
    else if StartsWith(s, "null") then Done(Literal("null"), s[4..])
    else
      var n := Lexeme(s);
      if n != [] && IsNumber(n) then Done(Number(n), s[|n|..]) else Fail
  }

  /** A value, section 3. */
  function ParseValue(s: string): (r: Parsed<Value>)
    ensures r.Done? ==> |r.rest| < |s|
    decreases |s|, 1
  {
    var t := Trim(s);
    if t == [] then Fail
    else if t[0] == '\"' then
      var r := ParseString(t[1..]);
      if r.Done? then Done(Text(r.value), r.rest) else Fail
    else if t[0] == '{' then
      var u := Trim(t[1..]);
      if u != [] && u[0] == '}' then Done(Object(NoField), u[1..])
      else
        var r := ParseFields(u);
        if r.Done? then Done(Object(r.value), r.rest) else Fail
    else if t[0] == '[' then
      var u := Trim(t[1..]);
      if u != [] && u[0] == ']' then Done(Array(NoItem), u[1..])
      else
        var r := ParseItems(u);
        if r.Done? then Done(Array(r.value), r.rest) else Fail
    else ParseWord(t)
  }

  /** One or more members and the closing brace, section 4. */
  function ParseFields(s: string): (r: Parsed<Fields>)
    ensures r.Done? ==> |r.rest| < |s|
    decreases |s|, 2
  {
    var t := Trim(s);
    if t == [] || t[0] != '\"' then Fail
    else
      var name := ParseString(t[1..]);
      if name.Fail? then Fail
      else
        var u := Trim(name.rest);
        if u == [] || u[0] != ':' then Fail
        else
          var v := ParseValue(u[1..]);
          if v.Fail? then Fail
          else
            var w := Trim(v.rest);
            if w == [] then Fail
            else if w[0] == '}' then Done(Field(name.value, v.value, NoField), w[1..])
            else if w[0] != ',' then Fail
            else
              var more := ParseFields(w[1..]);
              if more.Done? then Done(Field(name.value, v.value, more.value), more.rest) else Fail
  }

  /** One or more elements and the closing bracket, section 5. */
  function ParseItems(s: string): (r: Parsed<Items>)
    ensures r.Done? ==> |r.rest| < |s|
    decreases |s|, 2
  {
    var v := ParseValue(s);
    if v.Fail? then Fail
    else
      var w := Trim(v.rest);
      if w == [] then Fail
      else if w[0] == ']' then Done(Item(v.value, NoItem), w[1..])
      else if w[0] != ',' then Fail
      else
        var more := ParseItems(w[1..]);
        if more.Done? then Done(Item(v.value, more.value), more.rest) else Fail
  }

  /** A JSON text: one value and nothing after it. */
  function Parse(s: string): Option<Value> {
    var r := ParseValue(s);
    if r.Done? && Trim(r.rest) == [] then Some(r.value) else None
  }

  // ---- Every value is read back -----------------------------------------------------------------

  /** Numbers and literals are ones of the grammar. */
  predicate IsValue(v: Value) {
    match v
    case Text(_) => true
    case Number(n) => IsNumber(n) && Lexeme(n) == n
    case Literal(l) => l in LITERALS
    case Object(fields) => AreFields(fields)
    case Array(items) => AreItems(items)
  }

  predicate AreFields(f: Fields) {
    f.Field? ==> IsValue(f.value) && AreFields(f.rest)
  }

  predicate AreItems(i: Items) {
    i.Item? ==> IsValue(i.first) && AreItems(i.rest)
  }

  /** A written character is read back. */
  lemma EscapeRead(c: char, s: string)
    ensures ParseString(Escape(c) + s) == Push(c, ParseString(s))
  {
    hide ParseString, CodeUnit, HexDigit;
    if c == '\"' || c == '\\' || c == '\n' || c == '\r' || c == '\t' {
      TwoRead(Escape(c)[1], c, s);
      assert Escape(c) == ['\\', Escape(c)[1]];
    } else if c < ' ' {
      UnitRead(c, s);
    } else {
      assert ([c] + s)[1..] == s;
      PlainRead(c, s);
    }
  }

  lemma TwoRead(e: char, c: char, s: string)
    requires TwoCharacter(e) == Some(c)
    ensures ParseString(['\\', e] + s) == Push(c, ParseString(s))
  {
    hide ParseString, Push;
    var t := ['\\', e] + s;
    assert t[0] == '\\' && t[1] == e;
    assert t[2..] == s;
    TwoStep(t, c);
  }

  lemma TwoStep(t: string, c: char)
    requires |t| >= 2 && t[0] == '\\' && TwoCharacter(t[1]) == Some(c)
    ensures ParseString(t) == Push(c, ParseString(t[2..]))
  {
    hide CodeUnit, Push;
  }

  lemma PlainRead(c: char, s: string)
    requires c >= ' ' && c != '\"' && c != '\\'
    ensures ParseString([c] + s) == Push(c, ParseString(s))
  {
    assert ([c] + s)[1..] == s;
  }

  lemma UnitRead(c: char, s: string)
    requires c < ' '
    ensures ParseString("\\u00" + [HexDigit(c as nat / 16), HexDigit(c as nat % 16)] + s) == Push(c, ParseString(s))
  {
    hide CodeUnit, HexDigit;
    var h, l := HexDigit(c as nat / 16), HexDigit(c as nat % 16);
    var t := "\\u00" + [h, l] + s;
    assert t[6..] == s;
    assert t[2] == '0' && t[3] == '0' && t[4] == h && t[5] == l;
    UnitIs(c, t[2..]);
  }

  lemma UnitIs(c: char, t: string)
    requires c < ' ' && |t| >= 4 && t[0] == '0' && t[1] == '0'
    requires t[2] == HexDigit(c as nat / 16) && t[3] == HexDigit(c as nat % 16)
    ensures CodeUnit(t) == Some(c)
  {
    hide HexDigit;
    HexRead(c as nat / 16);
    HexRead(c as nat % 16);
  }

  lemma HexRead(n: nat)
    requires n < 16
    ensures HexValue(HexDigit(n)) == Some(n)
  {
  }

  lemma {:induction false} QuotedRead(s: string, tail: string)
    ensures ParseString(Escaped(s) + ("\"" + tail)) == Done(s, tail)
  {
    hide Escape, ParseString;
    if s == [] {
      assert Escaped(s) + ("\"" + tail) == "\"" + tail;
      QuoteEnds(tail);
    } else {
      QuotedRead(s[1..], tail);
      EscapeRead(s[0], Escaped(s[1..]) + ("\"" + tail));
      assert Escaped(s) + ("\"" + tail) == Escape(s[0]) + (Escaped(s[1..]) + ("\"" + tail));
      assert [s[0]] + s[1..] == s;
    }
  }

  lemma QuoteEnds(tail: string)
    ensures ParseString("\"" + tail) == Done([], tail)
  {
  }

  /** What may follow a value inside another, or at the end. */
  predicate Delimits(s: string) {
    s == [] || s[0] == ',' || s[0] == '}' || s[0] == ']'
  }

  predicate IsBlank(c: char) {
    c == ' ' || c == '\t' || c == '\n' || c == '\r'
  }

  lemma TrimNone(s: string)
    requires s == [] || !IsBlank(s[0])
    ensures Trim(s) == s
  {
  }

  lemma {:induction false} LexemeStops(n: string, tail: string)
    requires Lexeme(n) == n && Delimits(tail)
    ensures Lexeme(n + tail) == n
  {
    if n == [] {
      assert n + tail == tail;
    } else {
      LexemeStops(n[1..], tail);
      assert (n + tail)[1..] == n[1..] + tail;
    }
  }

  lemma TextParsed(s: string, tail: string)
    ensures ParseValue(Quoted(s) + tail) == Done(Text(s), tail)
  {
    hide ParseString, Escaped;
    var t := "\"" + (Escaped(s) + ("\"" + tail));
    assert Quoted(s) + tail == t;
    assert t[1..] == Escaped(s) + ("\"" + tail);
    QuotedRead(s, tail);
  }

  predicate StartsWord(s: string) {
    s != [] && !IsBlank(s[0]) && s[0] != '\"' && s[0] != '{' && s[0] != '['
  }

  lemma WordParsed(s: string)
    requires StartsWord(s)
    ensures ParseValue(s) == ParseWord(s)
  {
  }

  lemma FirstLetter(s: string, t: string)
    requires StartsWith(s, t) && t != []
    ensures s != [] && s[0] == t[0]
  {
  }

  lemma NumberParsed(n: string, tail: string)
    requires IsNumber(n) && Lexeme(n) == n && Delimits(tail)
    ensures ParseValue(n + tail) == Done(Number(n), tail)
  {
    hide ParseValue, IsNumber, Lexeme, StartsWith;
    var t := n + tail;
    NumberStarts(n);
    LexemeStops(n, tail);
    assert t[|n|..] == tail;
    WordParsed(t);
    if StartsWith(t, "true") {
      FirstLetter(t, "true");
      assert false;
    } else if StartsWith(t, "false") {
      FirstLetter(t, "false");
      assert false;
    } else if StartsWith(t, "null") {
      FirstLetter(t, "null");
      assert false;
    }
  }

  lemma NumberStarts(n: string)
    requires IsNumber(n) && Lexeme(n) == n
    ensures n != [] && (n[0] == '-' || IsDigit(n[0]))
  {
  }

  lemma LiteralParsed(l: string, tail: string)
    requires l in LITERALS
    ensures ParseValue(l + tail) == Done(Literal(l), tail)
  {
  }

  /** How a value is recognised by its first character. */
  lemma ShowStarts(v: Value)
    requires IsValue(v)
    ensures Show(v) != [] && !IsBlank(Show(v)[0]) && Show(v)[0] != ']'
  {
  }

  lemma ObjectParsed(u: string)
    requires u != [] && !IsBlank(u[0])
    ensures ParseValue("{" + u) ==
      if u[0] == '}' then Done(Object(NoField), u[1..])
      else if ParseFields(u).Done? then Done(Object(ParseFields(u).value), ParseFields(u).rest) else Fail
  {
  }

  lemma ArrayParsed(u: string)
    requires u != [] && !IsBlank(u[0])
    ensures ParseValue("[" + u) ==
      if u[0] == ']' then Done(Array(NoItem), u[1..])
      else if ParseItems(u).Done? then Done(Array(ParseItems(u).value), ParseItems(u).rest) else Fail
  {
  }

  /** A member is its name, a colon and a value; a brace or a comma follows. */
  lemma FieldParsed(name: string, v: Value, text: string, after: string)
    requires ParseValue(text + after) == Done(v, after) && after != [] && (after[0] == ',' || after[0] == '}')
    ensures ParseFields(Quoted(name) + (":" + (text + after))) ==
      if after[0] == '}' then Done(Field(name, v, NoField), after[1..])
      else if ParseFields(after[1..]).Done? then
        Done(Field(name, v, ParseFields(after[1..]).value), ParseFields(after[1..]).rest)
      else Fail
  {
    hide ParseString, Escaped, ParseValue;
    var colon := ":" + (text + after);
    var t := "\"" + (Escaped(name) + ("\"" + colon));
    assert Quoted(name) + colon == t;
    assert t[1..] == Escaped(name) + ("\"" + colon) && colon[1..] == text + after;
    QuotedRead(name, colon);
    TrimNone(t);
    TrimNone(colon);
    TrimNone(after);
  }

  lemma ItemParsed(v: Value, text: string, after: string)
    requires ParseValue(text + after) == Done(v, after) && after != [] && (after[0] == ',' || after[0] == ']')
    ensures ParseItems(text + after) ==
      if after[0] == ']' then Done(Item(v, NoItem), after[1..])
      else if ParseItems(after[1..]).Done? then
        Done(Item(v, ParseItems(after[1..]).value), ParseItems(after[1..]).rest)
      else Fail
  {
  }

  /** Every value is read back from its serialisation. */
  lemma {:induction false} ValueRead(v: Value, tail: string)
    requires IsValue(v) && Delimits(tail)
    ensures ParseValue(Show(v) + tail) == Done(v, tail)
    decreases v, 1
  {
    hide ParseValue, ParseFields, ParseItems, Quoted, IsNumber, Lexeme, ShowFields, ShowItems;
    match v
    case Text(s) => TextParsed(s, tail);
    case Number(n) => NumberParsed(n, tail);
    case Literal(l) => LiteralParsed(l, tail);
    case Object(fields) =>
      if fields.Field? {
        FieldsRead(fields, tail);
      }
      ObjectRead(fields, tail);
    case Array(items) =>
      if items.Item? {
        ItemsRead(items, tail);
      }
      ArrayRead(items, tail);
  }

  lemma ObjectRead(fields: Fields, tail: string)
    requires fields.Field? ==> ParseFields(ShowFields(fields) + ("}" + tail)) == Done(fields, tail)
    ensures ParseValue(Show(Object(fields)) + tail) == Done(Object(fields), tail)
  {
    hide ParseValue, ParseFields, ShowFields;
    var shown := ShowFields(fields);
    var u := shown + ("}" + tail);
    assert Show(Object(fields)) + tail == "{" + u;
    if fields.NoField? {
      NothingShown();
      assert u == "}" + tail && u[1..] == tail;
    } else {
      QuoteStarts(fields);
    }
    ObjectParsed(u);
  }

  lemma ArrayRead(items: Items, tail: string)
    requires items.Item? ==> IsValue(items.first) && ParseItems(ShowItems(items) + ("]" + tail)) == Done(items, tail)
    ensures ParseValue(Show(Array(items)) + tail) == Done(Array(items), tail)
  {
    hide ParseValue, ParseItems, ShowItems, IsValue;
    var shown := ShowItems(items);
    var u := shown + ("]" + tail);
    assert Show(Array(items)) + tail == "[" + u;
    if items.NoItem? {
      NothingShown();
      assert u == "]" + tail && u[1..] == tail;
    } else {
      ShowStarts(items.first);
      FirstShown(items);
    }
    ArrayParsed(u);
  }

  lemma NothingShown()
    ensures ShowFields(NoField) == [] && ShowItems(NoItem) == []
  {
  }

  lemma FirstShown(items: Items)
    requires items.Item?
    ensures Show(items.first) <= ShowItems(items)
  {
    hide Show;
  }

  lemma QuoteStarts(f: Fields)
    requires f.Field?
    ensures ShowFields(f) != [] && ShowFields(f)[0] == '\"'
  {
  }

  lemma {:induction false} FieldsRead(f: Fields, tail: string)
    requires f.Field? && AreFields(f)
    ensures ParseFields(ShowFields(f) + ("}" + tail)) == Done(f, tail)
    decreases f, 0
  {
    hide ParseValue, ParseFields, Quoted, Show, ShowFields;
    var end := "}" + tail;
    var after := if f.rest.NoField? then end else "," + (ShowFields(f.rest) + end);
    ValueRead(f.value, after);
    FieldParsed(f.name, f.value, Show(f.value), after);
    FieldsShown(f, end);
    if f.rest.NoField? {
      assert after[1..] == tail;
    } else {
      assert after[1..] == ShowFields(f.rest) + end;
      FieldsRead(f.rest, tail);
    }
  }

  lemma FieldsShown(f: Fields, end: string)
    requires f.Field?
    ensures ShowFields(f) + end
         == Quoted(f.name) + (":" + (Show(f.value) + if f.rest.NoField? then end else "," + (ShowFields(f.rest) + end)))
  {
    hide Quoted, Show, ShowFields;
    FieldsBegin(f);
    if f.rest.NoField? {
      Joined(Quoted(f.name), Show(f.value), [], end);
      assert [] + end == end;
    } else {
      Joined(Quoted(f.name), Show(f.value), "," + ShowFields(f.rest), end);
      CommaJoined(ShowFields(f.rest), end);
    }
  }

  lemma FieldsBegin(f: Fields)
    requires f.Field?
    ensures ShowFields(f) == Quoted(f.name) + (":" + (Show(f.value) + if f.rest.NoField? then [] else "," + ShowFields(f.rest)))
  {
    hide Quoted, Show;
  }

  lemma CommaJoined(s: string, end: string)
    ensures "," + s + end == "," + (s + end)
  {
  }

  lemma Joined(name: string, value: string, more: string, end: string)
    ensures name + (":" + (value + more)) + end == name + (":" + (value + (more + end)))
  {
  }

  lemma {:induction false} ItemsRead(i: Items, tail: string)
    requires i.Item? && AreItems(i)
    ensures ParseItems(ShowItems(i) + ("]" + tail)) == Done(i, tail)
    decreases i, 0
  {
    hide ParseValue, ParseItems, Show, ShowItems;
    var end := "]" + tail;
    var after := if i.rest.NoItem? then end else "," + (ShowItems(i.rest) + end);
    ValueRead(i.first, after);
    ItemParsed(i.first, Show(i.first), after);
    ItemsShown(i, end);
    if i.rest.NoItem? {
      assert after[1..] == tail;
    } else {
      assert after[1..] == ShowItems(i.rest) + end;
      ItemsRead(i.rest, tail);
    }
  }

  lemma ItemsShown(i: Items, end: string)
    requires i.Item?
    ensures ShowItems(i) + end == Show(i.first) + if i.rest.NoItem? then end else "," + (ShowItems(i.rest) + end)
  {
    hide Show, ShowItems;
    ItemsBegin(i);
    if i.rest.NoItem? {
      assert Show(i.first) + [] == Show(i.first);
    } else {
      ItemJoined(Show(i.first), ShowItems(i.rest), end);
    }
  }

  lemma ItemsBegin(i: Items)
    requires i.Item?
    ensures ShowItems(i) == Show(i.first) + if i.rest.NoItem? then [] else "," + ShowItems(i.rest)
  {
    hide Show;
  }

  lemma ItemJoined(first: string, rest: string, end: string)
    ensures first + ("," + rest) + end == first + ("," + (rest + end))
  {
  }

  lemma ShownIsParsed(v: Value)
    requires IsValue(v)
    ensures Parse(Show(v)) == Some(v)
  {
    hide ParseValue, Show;
    ValueRead(v, []);
    assert Show(v) + [] == Show(v);
  }
}
