/** The web API's JSON emitter: calls that append to the page, with one flag that
    says whether a comma is due. */
module Emitter {
  import opened Decimal
  import opened Json
  import opened Tokens
  import opened Wrappers

  const LIST_BUFFER := 512

  /** A call, or a balanced pair of calls and those between them. */
  datatype Call =
    | Str(name: string, value: string)
    | Num(name: string, number: int)
    | Real(name: string, amount: real)
    | Bool(name: string, flag: bool)
    | Null(name: string)
    | List(name: string, value: string)
    | Group(name: string, members: Calls)
    | Table(name: string, rows: Rows)

  datatype Calls = NoCall | Then(first: Call, rest: Calls)

  datatype Rows = NoRow | Row(members: Calls, rest: Rows)

  // ---- What the calls say ------------------------------------------------------------------------

  /** To the nearest hundredth, a tie to the even one. */
  function Hundredths(x: real): (n: nat)
    requires x >= 0.0
    ensures -0.5 <= n as real - x * 100.0 <= 0.5
    ensures n as real - x * 100.0 == 0.5 || n as real - x * 100.0 == -0.5 ==> n % 2 == 0
  {
    var t := x * 100.0;
    var f := t.Floor;
    if t - f as real < 0.5 || (t - f as real == 0.5 && f % 2 == 0) then f else f + 1
  }

  function FixedParts(negative: bool, n: nat): string {
    (if negative then "-" else "") + (Unsigned(n / 100) + ['.', Digit(n / 10 % 10), Digit(n % 10)])
  }

  /** `%.2f` of a finite number. */
  function Fixed(x: real): string {
    FixedParts(x < 0.0, Hundredths(if x < 0.0 then -x else x))
  }

  /** The list as far as it fits into the buffer. */
  function Fitting(value: string): string {
    if |value| < LIST_BUFFER then value else value[..LIST_BUFFER - 1]
  }

  function Words(words: seq<string>): Items {
    if words == [] then NoItem else Item(Text(words[0]), Words(words[1..]))
  }

  function Meaning(c: Call): Value {
    match c
    case Str(_, value) => Text(value)
    case Num(_, number) => Number(Signed(number))
    case Real(_, amount) => Number(Fixed(amount))
    case Bool(_, flag) => Literal(if flag then "true" else "false")
    case Null(_) => Literal("null")
    case List(_, value) => Array(Words(Pieces(Fitting(value), " ")))
    case Group(_, members) => Object(Meanings(members))
    case Table(_, rows) => Array(RowMeanings(rows))
  }

  function Meanings(c: Calls): Fields {
    match c
    case NoCall => NoField
    case Then(first, rest) => Field(first.name, Meaning(first), Meanings(rest))
  }

  function RowMeanings(r: Rows): Items {
    match r
    case NoRow => NoItem
    case Row(members, rest) => Item(Object(Meanings(members)), RowMeanings(rest))
  }

  // ---- What a reader of the page is told ---------------------------------------------------------

  /** A number of hundredths as it is written: without its point it is an integer. */
  predicate ReadsHundredths(text: string, h: int) {
    |text| > 3 && text[|text| - 3] == '.' && Scan(text[..|text| - 3] + text[|text| - 2..]) == Some(h)
  }

  /** The number of hundredths nearest to `x`, a tie going to the even one. */
  ghost predicate Nearest(h: int, x: real) {
    && -0.5 <= h as real - x * 100.0 <= 0.5
    && (h as real - x * 100.0 == 0.5 || h as real - x * 100.0 == -0.5 ==> h % 2 == 0)
  }

  predicate SaysWords(items: Items, words: seq<string>) {
    match items
    case NoItem => words == []
    case Item(first, rest) => words != [] && first == Text(words[0]) && SaysWords(rest, words[1..])
  }

  /** The value tells what the call was given. */
  ghost predicate Says(v: Value, c: Call)
    decreases c, 1
  {
    match c
    case Str(_, value) => v == Text(value)
    case Num(_, number) =>
      v.Number? && Scan(v.lexeme) == Some(number) && forall i :: 0 <= i < |v.lexeme| ==> v.lexeme[i] == '-' || IsDigit(v.lexeme[i])
    case Real(_, amount) => v.Number? && exists h: int :: ReadsHundredths(v.lexeme, h) && Nearest(h, amount)
    case Bool(_, flag) => (v == Literal("true") <==> flag) && (v == Literal("false") <==> !flag)
    case Null(_) => v == Literal("null")
    case List(_, value) =>
      v.Array? && exists words :: IsSplit(if |value| <= 511 then value else value[..511], " ", words) && SaysWords(v.items, words)
    case Group(_, members) => v.Object? && SaysAll(v.fields, members)
    case Table(_, rows) => v.Array? && SaysRows(v.items, rows)
  }

  /** One member for each call, in order and under its name. */
  ghost predicate SaysAll(f: Fields, c: Calls)
    decreases c, 0
  {
    match c
    case NoCall => f.NoField?
    case Then(first, rest) => f.Field? && f.name == first.name && Says(f.value, first) && SaysAll(f.rest, rest)
  }

  ghost predicate SaysRows(i: Items, r: Rows)
    decreases r, 0
  {
    match r
    case NoRow => i.NoItem?
    case Row(members, rest) => i.Item? && i.first.Object? && SaysAll(i.first.fields, members) && SaysRows(i.rest, rest)
  }

  lemma FixedRead(negative: bool, n: nat)
    ensures var h: int := n; ReadsHundredths(FixedParts(negative, n), if negative then -h else h)
  {
    hide Unsigned, Scan, ValueOf;
    var front, tens, ones := Unsigned(n / 100), Digit(n / 10 % 10), Digit(n % 10);
    var sign, t := if negative then "-" else "", FixedParts(negative, n);
    UnsignedDigits(n / 100);
    WithoutPoint(sign, front, tens, ones);
    ScanDigits(negative, front + [tens, ones]);
    HundredthsValue(front, tens, ones);
    ThreeParts(n);
  }

  lemma WithoutPoint(sign: string, front: string, tens: char, ones: char)
    requires front != []
    ensures var t := sign + (front + ['.', tens, ones]);
      |t| > 3 && t[|t| - 3] == '.' && t[..|t| - 3] + t[|t| - 2..] == sign + (front + [tens, ones])
  {
    var t := sign + (front + ['.', tens, ones]);
    assert t[..|t| - 3] == sign + front && t[|t| - 2..] == [tens, ones];
  }

  lemma ThreeParts(n: nat)
    ensures 10 * (10 * (n / 100) + n / 10 % 10) + n % 10 == n
  {
    assert n / 100 == n / 10 / 10;
  }

  lemma HundredthsValue(front: string, tens: char, ones: char)
    ensures ValueOf(front + [tens, ones]) == 10 * (10 * ValueOf(front) + (tens as int - '0' as int)) + (ones as int - '0' as int)
  {
    var all := front + [tens, ones];
    assert all[..|all| - 1] == front + [tens];
    assert (front + [tens])[..|front|] == front;
  }

  lemma RealSays(x: real)
    ensures exists h: int :: ReadsHundredths(Fixed(x), h) && Nearest(h, x)
  {
    hide FixedParts, ReadsHundredths;
    var n := Hundredths(if x < 0.0 then -x else x);
    var h: int := n;
    h := if x < 0.0 then -h else h;
    FixedRead(x < 0.0, n);
    assert ReadsHundredths(Fixed(x), h) && Nearest(h, x);
  }

  lemma {:induction false} WordsSay(words: seq<string>)
    ensures SaysWords(Words(words), words)
  {
    if words != [] {
      WordsSay(words[1..]);
    }
  }

  /** The tree of the calls says what they were given. */
  lemma {:induction false} MeaningSays(c: Call)
    ensures Says(Meaning(c), c)
    decreases c, 1
  {
    hide Fixed, Signed, Scan, Pieces, Words, SaysWords, IsSplit, Nearest, ReadsHundredths;
    match c
    case Str(_, _) =>
    case Num(_, number) => ScanSigned(number);
    case Real(_, amount) => RealSays(amount);
    case Bool(_, _) =>
    case Null(_) =>
    case List(_, value) =>
      var words := Pieces(Fitting(value), " ");
      PiecesSplit(Fitting(value), " ");
      WordsSay(words);
    case Group(_, members) => MeaningsSay(members);
    case Table(_, rows) => RowsSay(rows);
  }

  lemma {:induction false} MeaningsSay(c: Calls)
    ensures SaysAll(Meanings(c), c)
    decreases c, 0
  {
    hide Says;
    if c.Then? {
      MeaningSays(c.first);
      MeaningsSay(c.rest);
    }
  }

  lemma {:induction false} RowsSay(r: Rows)
    ensures SaysRows(RowMeanings(r), r)
    decreases r, 0
  {
    if r.Row? {
      MeaningsSay(r.members);
      RowsSay(r.rest);
    }
  }

  // ---- What is not escaped -------------------------------------------------------------------------

  predicate IsPlain(s: string) {
    forall i :: 0 <= i < |s| ==> s[i] >= ' ' && s[i] != '\"' && s[i] != '\\'
  }

  /** Names and list members hold nothing that needs an escape. */
  predicate Plain(c: Call) {
    && IsPlain(c.name)
    && (c.List? ==> IsPlain(c.value))
    && (c.Group? ==> AllPlain(c.members))
    && (c.Table? ==> RowsPlain(c.rows))
  }

  predicate AllPlain(c: Calls) {
    c.Then? ==> Plain(c.first) && AllPlain(c.rest)
  }

  predicate RowsPlain(r: Rows) {
    r.Row? ==> AllPlain(r.members) && RowsPlain(r.rest)
  }

  lemma {:induction false} PlainEscaped(s: string)
    requires IsPlain(s)
    ensures Escaped(s) == s
  {
    if s != [] {
      PlainEscaped(s[1..]);
    }
  }

  lemma PlainQuoted(s: string)
    requires IsPlain(s)
    ensures Quoted(s) == "\"" + (s + "\"")
  {
    PlainEscaped(s);
  }

  /** The words of a plain list are plain. */
  lemma {:induction false} PiecesPlain(s: string)
    requires IsPlain(s)
    ensures forall i :: 0 <= i < |Pieces(s, " ")| ==> IsPlain(Pieces(s, " ")[i])
    decreases |s|
  {
    hide IsPlain, RunLength, First;
    var t := Skip(s, " ");
    var gap := SkipIsGap(s, " ");
    PlainParts(gap, t);
    if t != [] {
      PlainParts(First(t, " "), Rest(t, " "));
      PiecesPlain(Rest(t, " "));
    }
  }

  lemma PlainParts(a: string, b: string)
    requires IsPlain(a + b)
    ensures IsPlain(a) && IsPlain(b)
  {
    assert forall i :: 0 <= i < |a| ==> (a + b)[i] == a[i];
    assert forall i :: 0 <= i < |b| ==> (a + b)[|a| + i] == b[i];
  }

  // ---- Serialisation with a flag -------------------------------------------------------------------

  function Mark(comma: bool): string {
    if comma then "," else ""
  }

  function Listed(f: Fields, comma: bool): string {
    match f
    case NoField => []
    case Field(name, value, rest) => Mark(comma) + (Quoted(name) + (":" + Show(value))) + Listed(rest, true)
  }

  function ListedItems(i: Items, comma: bool): string {
    match i
    case NoItem => []
    case Item(first, rest) => Mark(comma) + Show(first) + ListedItems(rest, true)
  }

  /** With no comma due at the start, the commas stand between the members. */
  lemma {:induction false} ListedShown(f: Fields)
    ensures Listed(f, false) == ShowFields(f)
    ensures Listed(f, true) == if f.NoField? then [] else "," + ShowFields(f)
  {
    hide Show, Quoted;
    if f.Field? {
      ListedShown(f.rest);
      var name, value := Quoted(f.name), Show(f.value);
      var rest := if f.rest.NoField? then [] else "," + ShowFields(f.rest);
      assert ShowFields(f) == name + (":" + (value + rest));
      assert Listed(f, false) == Mark(false) + (name + (":" + value)) + rest;
      assert Listed(f, true) == Mark(true) + (name + (":" + value)) + rest;
      MemberJoined(name, value, rest);
    }
  }

  lemma MemberJoined(name: string, value: string, rest: string)
    ensures Mark(false) + (name + (":" + value)) + rest == name + (":" + (value + rest))
    ensures Mark(true) + (name + (":" + value)) + rest == "," + (name + (":" + (value + rest)))
  {
  }

  lemma {:induction false} ListedItemsShown(i: Items)
    ensures ListedItems(i, false) == ShowItems(i)
    ensures ListedItems(i, true) == if i.NoItem? then [] else "," + ShowItems(i)
  {
    hide Show;
    if i.Item? {
      ListedItemsShown(i.rest);
      var rest := if i.rest.NoItem? then [] else "," + ShowItems(i.rest);
      assert Show(i.first) + rest == ShowItems(i);
      assert Mark(true) + Show(i.first) + rest == "," + ShowItems(i);
      assert Mark(false) + Show(i.first) + rest == Show(i.first) + rest;
    }
  }

  /** A named member of an object. */
  function Named(comma: bool, name: string, text: string): string {
    Mark(comma) + (Quoted(name) + (":" + text))
  }

  lemma GroupText(before: string, comma: bool, name: string, body: string)
    ensures before + (Mark(comma) + Quoted(name) + ":{") + body + "}" == before + Named(comma, name, "{" + (body + "}"))
  {
  }

  lemma ArrayText(before: string, comma: bool, name: string, body: string)
    ensures before + Named(comma, name, "[") + body + "]" == before + Named(comma, name, "[" + (body + "]"))
  {
  }

  lemma MembersText(before: string, c: Calls, comma: bool)
    ensures before + Listed(Meanings(c), comma)
         == if c.NoCall? then before
            else before + Named(comma, c.first.name, Show(Meaning(c.first))) + Listed(Meanings(c.rest), true)
  {
  }

  lemma RowsText(before: string, r: Rows, comma: bool)
    ensures before + ListedItems(RowMeanings(r), comma)
         == if r.NoRow? then before
            else before + Mark(comma) + "{" + ShowFields(Meanings(r.members)) + "}" + ListedItems(RowMeanings(r.rest), true)
  {
    hide ShowFields, Meanings, Mark;
    if r.Row? {
      var mark, fields, rest := Mark(comma), ShowFields(Meanings(r.members)), ListedItems(RowMeanings(r.rest), true);
      assert ListedItems(RowMeanings(r), comma) == mark + ("{" + (fields + "}")) + rest;
      RowJoined(before, mark, fields, rest);
    }
  }

  lemma RowJoined(before: string, mark: string, fields: string, rest: string)
    ensures before + (mark + ("{" + (fields + "}")) + rest) == before + mark + "{" + fields + "}" + rest
  {
  }

  lemma WordsText(before: string, words: seq<string>, i: nat, comma: bool)
    requires i <= |words|
    ensures before + ListedItems(Words(words[i..]), comma)
         == if i == |words| then before else before + Mark(comma) + Quoted(words[i]) + ListedItems(Words(words[i + 1..]), true)
  {
    hide Quoted, Mark;
    if i < |words| {
      assert words[i..][1..] == words[i + 1..];
      var mark, word, rest := Mark(comma), Quoted(words[i]), ListedItems(Words(words[i + 1..]), true);
      assert ListedItems(Words(words[i..]), comma) == mark + word + rest;
      WordJoined(before, mark, word, rest);
    }
  }

  lemma WordJoined(before: string, mark: string, word: string, rest: string)
    ensures before + (mark + word + rest) == before + mark + word + rest
  {
  }

  // ---- The emitter -----------------------------------------------------------------------------------

  class Page {
    var out: string
    var comma: bool

    constructor ()
      ensures out == "" && !comma
    {
      out, comma := "", false;
    }

    method Open(name: Option<string>)
      modifies this
      ensures !comma
      ensures out == old(out) + if name.None? then "{" else Mark(old(comma)) + ("\"" + (name.value + "\"")) + ":{"
    {
      if name.Some? {
        out := out + (Mark(comma) + ("\"" + (name.value + "\"")) + ":{");
      } else {
        out := out + "{";
      }
      comma := false;
    }

    method Close()
      modifies this
      ensures comma && out == old(out) + "}"
    {
      out := out + "}";
      comma := true;
    }

    method Sep()
      modifies this
      ensures comma && out == old(out) + Mark(old(comma))
    {
      if comma {
        out := out + ",";
      }
      comma := true;
    }

    method PutNamed(name: string, text: string)
      requires IsPlain(name)
      modifies this
      ensures comma && out == old(out) + Named(old(comma), name, text)
    {
      hide Quoted;
      Sep();
      PlainQuoted(name);
      out := out + ("\"" + (name + "\"")) + ":" + text;
    }

    /** The loop over the characters of a string. */
    method PutEscaped(value: string)
      modifies `out
      ensures out == old(out) + Escaped(value)
    {
      hide Escape;
      var p := 0;
      assert value[0..] == value;
      while p < |value|
        invariant 0 <= p <= |value|
        invariant out + Escaped(value[p..]) == old(out) + Escaped(value)
      {
        assert value[p..][1..] == value[p + 1..];
        ghost var rest, was := Escaped(value[p + 1..]), out;
        out := out + Escape(value[p]);
        assert was + (Escape(value[p]) + rest) == out + rest;
        p := p + 1;
      }
      assert out + [] == out;
    }

    method PutStr(name: string, value: string)
      requires IsPlain(name)
      modifies this
      ensures comma && out == old(out) + Named(old(comma), name, Show(Text(value)))
    {
      hide Escaped, Mark;
      PutNamed(name, "\"");
      PutEscaped(value);
      out := out + "\"";
      ghost var quoted, mark, text := Quoted(name), Mark(old(comma)), Escaped(value);
      assert old(out) + (mark + (quoted + (":" + "\""))) + text + "\""
          == old(out) + (mark + (quoted + (":" + ("\"" + (text + "\"")))));
    }

    method PutNum(name: string, number: int)
      requires IsPlain(name)
      modifies this
      ensures comma && out == old(out) + Named(old(comma), name, Signed(number))
    {
      PutNamed(name, Signed(number));
    }

    method PutReal(name: string, amount: real)
      requires IsPlain(name)
      modifies this
      ensures comma && out == old(out) + Named(old(comma), name, Fixed(amount))
    {
      PutNamed(name, Fixed(amount));
    }

    method PutBool(name: string, flag: bool)
      requires IsPlain(name)
      modifies this
      ensures comma && out == old(out) + Named(old(comma), name, if flag then "true" else "false")
    {
      PutNamed(name, if flag then "true" else "false");
    }

    method PutNull(name: string)
      requires IsPlain(name)
      modifies this
      ensures comma && out == old(out) + Named(old(comma), name, "null")
    {
      PutNamed(name, "null");
    }

    method Arr(name: string)
      requires IsPlain(name)
      modifies this
      ensures !comma && out == old(out) + Named(old(comma), name, "[")
    {
      PutNamed(name, "[");
      comma := false;
    }

    method ArrEnd()
      modifies this
      ensures comma && out == old(out) + "]"
    {
      out := out + "]";
      comma := true;
    }

    method Elem()
      modifies this
      ensures !comma && out == old(out) + Mark(old(comma)) + "{"
    {
      if comma {
        out := out + ",";
      }
      out := out + "{";
      comma := false;
    }

    method ElemEnd()
      modifies this
      ensures comma && out == old(out) + "}"
    {
      out := out + "}";
      comma := true;
    }

    /** The loop over the words of a list. */
    method PutWords(words: seq<string>)
      requires !comma && forall i :: 0 <= i < |words| ==> IsPlain(words[i])
      modifies this
      ensures out == old(out) + ListedItems(Words(words), false)
    {
      hide Quoted, Words, ListedItems, Mark;
      assert words[0..] == words;
      for i := 0 to |words|
        invariant comma == (i > 0)
        invariant out + ListedItems(Words(words[i..]), comma) == old(out) + ListedItems(Words(words), false)
      {
        WordsText(out, words, i, comma);
        Sep();
        PlainQuoted(words[i]);
        out := out + ("\"" + (words[i] + "\""));
      }
      WordsText(out, words, |words|, comma);
    }

    method PutList(name: string, value: string)
      requires IsPlain(name) && IsPlain(value)
      modifies this
      ensures comma && out == old(out) + Named(old(comma), name, Show(Array(Words(Pieces(Fitting(value), " ")))))
    {
      hide Pieces, Words, Named, ListedItems, ShowItems;
      Arr(name);
      var buf := if |value| < LIST_BUFFER then value else value[..LIST_BUFFER - 1];
      var tokens := SplitOnSeparators(buf, " ", -1, false);
      PiecesPlain(buf);
      PutWords(tokens);
      ListedItemsShown(Words(tokens));
      ArrEnd();
      ArrayText(old(out), old(comma), name, ShowItems(Words(tokens)));
    }

    /** One call, or the calls of one balanced pair. */
    method Emit(c: Call)
      requires Plain(c)
      modifies this
      ensures comma && out == old(out) + Named(old(comma), c.name, Show(Meaning(c)))
      decreases c, 1
    {
      hide Named, Quoted, Pieces, Words, Unsigned, Signed, Listed, ListedItems, ShowFields, ShowItems;
      match c
      case Str(name, value) => PutStr(name, value);
      case Num(name, number) => PutNum(name, number);
      case Real(name, amount) => PutReal(name, amount);
      case Bool(name, flag) => PutBool(name, flag);
      case Null(name) => PutNull(name);
      case List(name, value) => PutList(name, value);
      case Group(name, members) =>
        PlainQuoted(name);
        Open(Some(name));
        EmitAll(members);
        ListedShown(Meanings(members));
        Close();
        GroupText(old(out), old(comma), name, ShowFields(Meanings(members)));
      case Table(name, rows) =>
        Arr(name);
        EmitRows(rows);
        ListedItemsShown(RowMeanings(rows));
        ArrEnd();
        ArrayText(old(out), old(comma), name, ShowItems(RowMeanings(rows)));
    }

    method EmitAll(c: Calls)
      requires AllPlain(c)
      modifies this
      ensures comma == (old(comma) || c.Then?)
      ensures out == old(out) + Listed(Meanings(c), old(comma))
      decreases c, 0
    {
      hide Named, Show, Meaning, Meanings, Listed;
      MembersText(out, c, comma);
      if c.Then? {
        Emit(c.first);
        EmitAll(c.rest);
      }
    }

    method EmitRows(r: Rows)
      requires RowsPlain(r)
      modifies this
      ensures comma == (old(comma) || r.Row?)
      ensures out == old(out) + ListedItems(RowMeanings(r), old(comma))
      decreases r, 0
    {
      hide Meanings, RowMeanings, Listed, ListedItems, ShowFields, Mark;
      RowsText(out, r, comma);
      if r.Row? {
        Elem();
        EmitAll(r.members);
        ListedShown(Meanings(r.members));
        ElemEnd();
        EmitRows(r.rest);
      }
    }

    /** A whole page: the unnamed object around everything. */
    method EmitPage(c: Calls)
      requires AllPlain(c) && out == ""
      modifies this
      ensures out == Show(Object(Meanings(c))) && Parse(out) == Some(Object(Meanings(c)))
      ensures SaysAll(Parse(out).value.fields, c)
    {
      hide Meanings, Listed, ShowFields, Parse, SaysAll;
      PageParses(c);
      MeaningsSay(c);
      Open(None);
      EmitAll(c);
      ListedShown(Meanings(c));
      Close();
    }
  }

  // ---- The page is JSON ------------------------------------------------------------------------------

  lemma {:induction false} DigitsStop(d: string, rest: string)
    requires forall i :: 0 <= i < |d| ==> IsDigit(d[i])
    requires rest == [] || !IsDigit(rest[0])
    ensures DigitsOf(d + rest) == d
  {
    if d == [] {
      assert d + rest == rest;
    } else {
      DigitsStop(d[1..], rest);
      assert (d + rest)[1..] == d[1..] + rest;
    }
  }

  /** Digits without a leading zero, with or without a fraction, are a number. */
  lemma NumberIs(negative: bool, n: nat, fraction: string)
    requires fraction == [] || (|fraction| == 3 && fraction[0] == '.' && IsDigit(fraction[1]) && IsDigit(fraction[2]))
    ensures IsNumber((if negative then "-" else "") + (Unsigned(n) + fraction))
  {
    hide Unsigned, DigitsOf;
    var t := Unsigned(n) + fraction;
    UnsignedDigits(n);
    UnsignedFirst(n);
    if n == 0 {
      UnsignedZero();
    }
    DigitsStop(Unsigned(n), fraction);
    assert t[|Unsigned(n)|..] == fraction;
    if fraction != [] {
      assert fraction[1..] == fraction[1..] + [];
      DigitsStop(fraction[1..], []);
      assert fraction[1 + 2..] == [];
    }
    var s := (if negative then "-" else "") + t;
    assert negative ==> s[1..] == t;
    assert !negative ==> s == t;
    assert IsDigit(t[0]);
  }

  lemma UnsignedZero()
    ensures Unsigned(0) == "0"
  {
  }

  lemma {:induction false} LexemeAll(s: string)
    requires forall i :: 0 <= i < |s| ==> IsNumberChar(s[i])
    ensures Lexeme(s) == s
  {
    if s != [] {
      LexemeAll(s[1..]);
    }
  }

  lemma NumbersAre(number: int, negative: bool, hundredths: nat)
    ensures IsValue(Number(Signed(number))) && IsValue(Number(FixedParts(negative, hundredths)))
  {
    hide Unsigned, IsNumber, Lexeme;
    var n := if number < 0 then -number else number;
    UnsignedDigits(n);
    UnsignedDigits(hundredths / 100);
    NumberIs(number < 0, n, []);
    assert Unsigned(n) + [] == Unsigned(n);
    assert Signed(number) == (if number < 0 then "-" else "") + (Unsigned(n) + []);
    NumberIs(negative, hundredths / 100, ['.', Digit(hundredths / 10 % 10), Digit(hundredths % 10)]);
    LexemeAll(Signed(number));
    LexemeAll(FixedParts(negative, hundredths));
  }

  lemma {:induction false} WordsAre(words: seq<string>)
    ensures AreItems(Words(words))
  {
    if words != [] {
      WordsAre(words[1..]);
    }
  }

  lemma {:induction false} MeaningIs(c: Call)
    ensures IsValue(Meaning(c))
    decreases c, 1
  {
    hide FixedParts, Hundredths, Signed, IsNumber, Lexeme, Words, Pieces;
    match c
    case Str(_, _) =>
    case Num(_, number) => NumbersAre(number, false, 0);
    case Real(_, amount) => NumbersAre(0, amount < 0.0, Hundredths(if amount < 0.0 then -amount else amount));
    case Bool(_, _) =>
    case Null(_) =>
    case List(_, value) => WordsAre(Pieces(Fitting(value), " "));
    case Group(_, members) => MeaningsAre(members);
    case Table(_, rows) => RowsAre(rows);
  }

  lemma {:induction false} MeaningsAre(c: Calls)
    ensures AreFields(Meanings(c))
    decreases c, 0
  {
    if c.Then? {
      MeaningIs(c.first);
      MeaningsAre(c.rest);
    }
  }

  lemma {:induction false} RowsAre(r: Rows)
    ensures AreItems(RowMeanings(r))
    decreases r, 0
  {
    if r.Row? {
      MeaningsAre(r.members);
      RowsAre(r.rest);
    }
  }

  /** The page parses, to the tree of the calls. */
  lemma PageParses(c: Calls)
    ensures Parse(Show(Object(Meanings(c)))) == Some(Object(Meanings(c)))
  {
    MeaningsAre(c);
    ShownIsParsed(Object(Meanings(c)));
  }
}
