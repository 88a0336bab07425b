/** Saving a posted form: `webcgi_nvram_set`, `save_variables` and the two passes
    that `wo_tomato` makes, first to check and then to write. The stored
    variables are a map; addresses are checked by the C library. */
module Settings {
  import opened Decimal
  import opened Wrappers

  const UNCHANGED := "**********"
  const RULES := 50
  const RULE_LENGTH := 2048
  const LONG_MAX := 0x7FFF_FFFF_FFFF_FFFF

  datatype Kind =
    | Any
    | Length(lo: int, hi: int)
    | Text(lo: int, hi: int)
    | Range(lo: int, hi: int)
    | Ip(required: bool)
    | Mac
    | Ipv6(required: bool)
    | Temp

  datatype Setting = Setting(name: string, kind: Kind)

  datatype Library = Library(ip: string -> bool, mac: string -> bool, ipv6: string -> bool)

  type Form = map<string, string>

  // ---- One value -------------------------------------------------------------------------------

  function Stripped(s: string): string {
    if s == [] then [] else if s[0] == '\r' then Stripped(s[1..]) else [s[0]] + Stripped(s[1..])
  }

  /** Stripping goes through the string piece by piece, */
  lemma {:induction false} StrippedAppend(a: string, b: string)
    ensures Stripped(a + b) == Stripped(a) + Stripped(b)
  {
    hide Stripped;
    if a == [] {
      StrippedNothing();
      assert a + b == b;
    } else {
      StrippedFirst(a);
      StrippedFirst(a + b);
      StrippedAppend(a[1..], b);
      assert (a + b)[1..] == a[1..] + b;
    }
  }

  lemma StrippedNothing()
    ensures Stripped([]) == []
  {
  }

  lemma StrippedFirst(s: string)
    requires s != []
    ensures Stripped(s) == if s[0] == '\r' then Stripped(s[1..]) else [s[0]] + Stripped(s[1..])
  {
  }

  /** and drops each carriage return and keeps each other character, where it stands. */
  lemma StrippedMeaning(a: string, c: char, b: string)
    ensures Stripped(a + [c] + b) == Stripped(a) + (if c == '\r' then [] else [c]) + Stripped(b)
    ensures '\r' !in Stripped(a) && ('\r' !in a ==> Stripped(a) == a)
  {
    hide Stripped;
    StrippedAppend(a + [c], b);
    StrippedAppend(a, [c]);
    assert [c][1..] == [];
    StrippedFirst([c]);
    StrippedNothing();
    StrippedClean(a);
  }

  lemma {:induction false} StrippedClean(s: string)
    ensures '\r' !in Stripped(s) && ('\r' !in s ==> Stripped(s) == s)
  {
    if s != [] {
      StrippedClean(s[1..]);
    }
  }

  method UnixString(s: string) returns (buffer: string)
    ensures buffer == Stripped(s)
  {
    buffer := "";
    assert s[0..] == s;
    for i := 0 to |s|
      invariant buffer + Stripped(s[i..]) == Stripped(s)
    {
      assert s[i..][1..] == s[i + 1..];
      if s[i] != '\r' {
        buffer := buffer + [s[i]];
      }
    }
  }

  function SkipSpace(s: string): string {
    if s != [] && (s[0] == ' ' || '\t' <= s[0] <= '\r') then SkipSpace(s[1..]) else s
  }

  /** `strtol` to base 10 when it must use the whole string. */
  function ToLong(s: string): Option<int> {
    var t := SkipSpace(s);
    var signed := t != [] && (t[0] == '-' || t[0] == '+');
    var u := if signed then t[1..] else t;
    var digits := DigitsOf(u);
    if digits == [] || |digits| < |u| then None
    else
      var n := if signed && t[0] == '-' then -ValueOf(digits) else ValueOf(digits);
      Some(if n > LONG_MAX then LONG_MAX else if n < -LONG_MAX - 1 then -LONG_MAX - 1 else n)
  }

  predicate IsBlank(c: char) {
    c == ' ' || '\t' <= c <= '\r'
  }

  /** Blanks, at most one sign, and at least one digit. */
  predicate IsInteger(blanks: string, sign: string, digits: string) {
    && (forall i :: 0 <= i < |blanks| ==> IsBlank(blanks[i]))
    && (sign == "" || sign == "-" || sign == "+")
    && digits != [] && forall i :: 0 <= i < |digits| ==> IsDigit(digits[i])
  }

  /** The nearest number that a long can hold. */
  function Clamped(n: int): int {
    if n > LONG_MAX then LONG_MAX else if n < -LONG_MAX - 1 then -LONG_MAX - 1 else n
  }

  lemma {:induction false} BlanksSkipped(blanks: string, t: string)
    requires (forall i :: 0 <= i < |blanks| ==> IsBlank(blanks[i])) && (t == [] || !IsBlank(t[0]))
    ensures SkipSpace(blanks + t) == t
  {
    if blanks == [] {
      assert blanks + t == t;
    } else {
      BlanksSkipped(blanks[1..], t);
      assert (blanks + t)[1..] == blanks[1..] + t;
    }
  }

  lemma {:induction false} SkippedBlanks(s: string) returns (blanks: string)
    ensures s == blanks + SkipSpace(s) && forall i :: 0 <= i < |blanks| ==> IsBlank(blanks[i])
  {
    if s != [] && IsBlank(s[0]) {
      var rest := SkippedBlanks(s[1..]);
      blanks := [s[0]] + rest;
    } else {
      blanks := [];
    }
  }

  lemma {:induction false} DigitsAre(s: string)
    ensures DigitsOf(s) <= s && forall i :: 0 <= i < |DigitsOf(s)| ==> IsDigit(DigitsOf(s)[i])
  {
    if s != [] && IsDigit(s[0]) {
      DigitsAre(s[1..]);
    }
  }

  /** Every such text is read as its number, clamped to the range of a long. */
  lemma LongRead(blanks: string, sign: string, digits: string)
    requires IsInteger(blanks, sign, digits)
    ensures ToLong(blanks + (sign + digits)) == Some(Clamped(if sign == "-" then -ValueOf(digits) else ValueOf(digits)))
  {
    hide DigitsOf, ValueOf, SkipSpace;
    var t := sign + digits;
    assert IsDigit(digits[0]);
    assert sign != "" ==> t[0] == sign[0] && t[1..] == digits;
    assert sign == "" ==> t == digits;
    BlanksSkipped(blanks, t);
    DigitsAll(digits);
  }

  /** Nothing else is read at all. */
  lemma LongOnly(s: string)
    ensures ToLong(s).Some? <==> exists blanks, sign, digits :: IsInteger(blanks, sign, digits) && s == blanks + (sign + digits)
  {
    hide ToLong, IsInteger, ValueOf;
    if ToLong(s).Some? {
      var blanks, sign, digits := LongParts(s);
      assert IsInteger(blanks, sign, digits) && s == blanks + (sign + digits);
    } else if blanks, sign, digits :| IsInteger(blanks, sign, digits) && s == blanks + (sign + digits) {
      LongRead(blanks, sign, digits);
    }
  }

  lemma LongParts(s: string) returns (blanks: string, sign: string, digits: string)
    requires ToLong(s).Some?
    ensures IsInteger(blanks, sign, digits) && s == blanks + (sign + digits)
  {
    hide ValueOf, IsBlank, SkipSpace, DigitsOf;
    blanks := SkippedBlanks(s);
    var t := SkipSpace(s);
    var signed := t != [] && (t[0] == '-' || t[0] == '+');
    sign, digits := if signed then [t[0]] else "", if signed then t[1..] else t;
    DigitsAre(digits);
    assert DigitsOf(digits) == digits;
    assert t == sign + digits;
  }

  /** A printed number is read back, with blanks and with a plus sign before it, too;
      one that a long cannot hold is read as the nearest that it can. */
  lemma LongBack(blanks: string, i: int)
    requires forall k :: 0 <= k < |blanks| ==> IsBlank(blanks[k])
    ensures ToLong(blanks + Signed(i)) == Some(Clamped(i))
    ensures i >= 0 ==> ToLong(blanks + ("+" + Signed(i))) == Some(Clamped(i))
  {
    hide ToLong, Unsigned, ValueOf, IsBlank;
    var n := if i < 0 then -i else i;
    UnsignedDigits(n);
    LongRead(blanks, if i < 0 then "-" else "", Unsigned(n));
    if i >= 0 {
      LongRead(blanks, "+", Unsigned(n));
      assert "" + Unsigned(n) == Unsigned(n);
    }
  }

  /** A number in a field with a range is good if and only if it lies in the range; the
      clamping shows only where the range reaches to an end of what a long can hold. */
  lemma RangeExact(lo: int, hi: int, blanks: string, i: int, lib: Library)
    requires forall k :: 0 <= k < |blanks| ==> IsBlank(blanks[k])
    ensures Valid(Range(lo, hi), blanks + Signed(i), lib) <==> lo <= Clamped(i) <= hi
    ensures (-LONG_MAX - 1 < lo && hi < LONG_MAX) || -LONG_MAX - 1 <= i <= LONG_MAX ==>
      (Valid(Range(lo, hi), blanks + Signed(i), lib) <==> lo <= i <= hi)
  {
    hide ToLong, Signed, IsBlank;
    LongBack(blanks, i);
  }

  /** What is stored for a posted value. */
  function Normalised(k: Kind, p: string): string {
    if k.Text? then Stripped(p) else p
  }

  predicate Valid(k: Kind, p: string, lib: Library) {
    match k
    case Any => true
    case Length(lo, hi) => lo <= |p| <= hi
    case Text(lo, hi) => lo <= |Stripped(p)| <= hi
    case Range(lo, hi) => ToLong(p).Some? && lo <= ToLong(p).value <= hi
    case Ip(required) => (p == "" && !required) || lib.ip(p)
    case Mac => lib.mac(p)
    case Ipv6(required) => (p == "" && !required) || lib.ipv6(p)
    case Temp => true
  }

  // ---- What a form asks for ----------------------------------------------------------------------

  datatype Write = Write(name: string, value: string, temp: bool)

  function FieldWrites(table: seq<Setting>, form: Form): seq<Write> {
    if table == [] then []
    else if table[0].name in form then
      [Write(table[0].name, Normalised(table[0].kind, form[table[0].name]), table[0].kind.Temp?)] + FieldWrites(table[1..], form)
    else FieldWrites(table[1..], form)
  }

  predicate NewPassword(form: Form) {
    "set_password_1" in form && form["set_password_1"] != UNCHANGED
  }

  function PasswordWrites(form: Form): seq<Write> {
    if NewPassword(form) then [Write("http_passwd", form["set_password_1"], false)] else []
  }

  function RuleName(n: nat): string {
    "rrule" + Unsigned(n)
  }

  function RuleWrites(form: Form, n: nat): seq<Write>
    decreases RULES - n
  {
    if n >= RULES then []
    else if RuleName(n) in form then [Write(RuleName(n), form[RuleName(n)], false)] + RuleWrites(form, n + 1)
    else RuleWrites(form, n + 1)
  }

  function Writes(table: seq<Setting>, form: Form): seq<Write> {
    FieldWrites(table, form) + (PasswordWrites(form) + RuleWrites(form, 0))
  }

  predicate FieldsValid(table: seq<Setting>, form: Form, lib: Library) {
    forall i :: 0 <= i < |table| && table[i].name in form ==> Valid(table[i].kind, form[table[i].name], lib)
  }

  predicate PasswordValid(form: Form) {
    NewPassword(form) ==> "set_password_2" in form && form["set_password_1"] == form["set_password_2"]
  }

  predicate RulesValid(form: Form, n: nat) {
    forall i :: n <= i < RULES && RuleName(i) in form ==> |form[RuleName(i)]| <= RULE_LENGTH
  }

  predicate FormValid(table: seq<Setting>, form: Form, lib: Library) {
    FieldsValid(table, form, lib) && PasswordValid(form) && RulesValid(form, 0)
  }

  // ---- The effect of writes ------------------------------------------------------------------------

  predicate Differs(nvram: map<string, string>, w: Write) {
    w.name !in nvram || nvram[w.name] != w.value
  }

  function Apply(nvram: map<string, string>, ws: seq<Write>): map<string, string>
    decreases |ws|
  {
    if ws == [] then nvram else Apply(nvram[ws[0].name := ws[0].value], ws[1..])
  }

  predicate Dirty(nvram: map<string, string>, ws: seq<Write>)
    decreases |ws|
  {
    ws != [] && ((!ws[0].temp && Differs(nvram, ws[0])) || Dirty(nvram[ws[0].name := ws[0].value], ws[1..]))
  }

  lemma {:induction false} ApplyTwice(nvram: map<string, string>, a: seq<Write>, b: seq<Write>)
    ensures Apply(nvram, a + b) == Apply(Apply(nvram, a), b)
    ensures Dirty(nvram, a + b) == (Dirty(nvram, a) || Dirty(Apply(nvram, a), b))
    decreases |a|
  {
    if a == [] {
      assert a + b == b;
    } else {
      assert (a + b)[1..] == a[1..] + b;
      ApplyTwice(nvram[a[0].name := a[0].value], a[1..], b);
    }
  }

  class Store {
    var nvram: map<string, string>

    constructor (nvram: map<string, string>)
      ensures this.nvram == nvram
    {
      this.nvram := nvram;
    }

    /** Store a value unless it is there already. */
    method Put(w: Write) returns (dirty: bool)
      modifies this
      ensures nvram == Apply(old(nvram), [w]) && dirty == Dirty(old(nvram), [w])
    {
      dirty := false;
      if w.name !in nvram || nvram[w.name] != w.value {
        if !w.temp {
          dirty := true;
        }
        nvram := nvram[w.name := w.value];
      }
    }

    /** `webcgi_nvram_set`: -1 for a bad value, otherwise whether it made the store dirty. */
    method SetField(v: Setting, form: Form, lib: Library, write: bool) returns (r: int)
      modifies this
      ensures r == -1 <==> v.name in form && !Valid(v.kind, form[v.name], lib)
      ensures r == -1 || !write ==> nvram == old(nvram)
      ensures r != -1 ==> r == if write && Dirty(old(nvram), FieldWrites([v], form)) then 1 else 0
      ensures r != -1 && write ==> nvram == Apply(old(nvram), FieldWrites([v], form))
    {
      if v.name !in form {
        return 0;
      }
      var p := form[v.name];
      var ok := true;
      match v.kind {
        case Text(lo, hi) =>
          p := UnixString(p);
          if |p| < lo || |p| > hi {
            ok := false;
          }
        case Length(lo, hi) =>
          if |p| < lo || |p| > hi {
            ok := false;
          }
        case Range(lo, hi) =>
          var l := ToLong(p);
          if l.None? || l.value < lo || l.value > hi {
            ok := false;
          }
        case Ip(required) =>
          if |p| > 0 || required {
            ok := lib.ip(p);
          }
        case Mac => ok := lib.mac(p);
        case Ipv6(required) =>
          if |p| > 0 || required {
            ok := lib.ipv6(p);
          }
        case _ =>
      }
      if !ok {
        return -1;
      }
      var dirty := false;
      if write {
        dirty := Put(Write(v.name, p, v.kind.Temp?));
      }
      r := if dirty then 1 else 0;
    }

    /** The loop over the table. It stops at the first bad field. */
    method SaveFields(table: seq<Setting>, form: Form, lib: Library, write: bool) returns (dirty: bool, invalid: Option<string>)
      modifies this
      ensures invalid.None? <==> FieldsValid(table, form, lib)
      ensures invalid.Some? ==> exists i :: 0 <= i < |table| && table[i].name == invalid.value && FirstInvalid(table, i, form, lib)
      ensures !write ==> nvram == old(nvram) && !dirty
      ensures write && invalid.None? ==>
        nvram == Apply(old(nvram), FieldWrites(table, form)) && dirty == Dirty(old(nvram), FieldWrites(table, form))
    {
      hide Valid, Apply, Dirty, FieldWrites;
      dirty := false;
      NoFields(nvram, form);
      for i := 0 to |table|
        invariant forall j :: 0 <= j < i && table[j].name in form ==> Valid(table[j].kind, form[table[j].name], lib)
        invariant !write ==> nvram == old(nvram) && !dirty
        invariant write ==>
          nvram == Apply(old(nvram), FieldWrites(table[..i], form)) && dirty == Dirty(old(nvram), FieldWrites(table[..i], form))
      {
        ghost var before := nvram;
        var ok := SetField(table[i], form, lib, write);
        if ok < 0 {
          return dirty, Some(table[i].name);
        }
        dirty := dirty || ok == 1;
        MoreFields(table, i, form);
        ApplyTwice(old(nvram), FieldWrites(table[..i], form), FieldWrites([table[i]], form));
      }
      assert table[..|table|] == table;
      invalid := None;
    }

    method SavePassword(form: Form, write: bool) returns (dirty: bool, invalid: Option<string>)
      modifies this
      ensures invalid.None? <==> PasswordValid(form)
      ensures invalid.Some? ==> invalid == Some("password")
      ensures !write || invalid.Some? ==> nvram == old(nvram) && !dirty
      ensures write && invalid.None? ==>
        nvram == Apply(old(nvram), PasswordWrites(form)) && dirty == Dirty(old(nvram), PasswordWrites(form))
    {
      dirty := false;
      if "set_password_1" in form && form["set_password_1"] != UNCHANGED {
        var p1 := form["set_password_1"];
        if "set_password_2" in form && p1 == form["set_password_2"] {
          if write {
            dirty := Put(Write("http_passwd", p1, false));
          }
        } else {
          return false, Some("password");
        }
      }
      invalid := None;
    }

    method SaveRules(form: Form, write: bool) returns (dirty: bool, invalid: Option<string>)
      modifies this
      ensures invalid.None? <==> RulesValid(form, 0)
      ensures invalid.Some? ==> exists i :: 0 <= i < RULES && invalid.value == RuleName(i) && FirstBadRule(form, i)
      ensures !write ==> nvram == old(nvram) && !dirty
      ensures write && invalid.None? ==>
        nvram == Apply(old(nvram), RuleWrites(form, 0)) && dirty == Dirty(old(nvram), RuleWrites(form, 0))
    {
      hide Apply, Dirty, RuleName, RuleWrites;
      dirty := false;
      for n := 0 to RULES
        invariant forall i :: 0 <= i < n && RuleName(i) in form ==> |form[RuleName(i)]| <= RULE_LENGTH
        invariant !write ==> nvram == old(nvram) && !dirty
        invariant write ==> Apply(nvram, RuleWrites(form, n)) == Apply(old(nvram), RuleWrites(form, 0))
        invariant write ==> (dirty || Dirty(nvram, RuleWrites(form, n))) == Dirty(old(nvram), RuleWrites(form, 0))
      {
        var s := RuleName(n);
        OneRule(nvram, form, n);
        if s in form {
          var p := form[s];
          if |p| > RULE_LENGTH {
            return dirty, Some(s);
          }
          if write {
            var changed := Put(Write(s, p, false));
            dirty := dirty || changed;
          }
        }
      }
      NoRules(nvram, form);
      invalid := None;
    }

    /** `save_variables`: 0 with a message for a bad form. */
    method SaveVariables(table: seq<Setting>, form: Form, lib: Library, write: bool) returns (r: int, invalid: Option<string>)
      modifies this
      ensures invalid.None? <==> FormValid(table, form, lib)
      ensures invalid.Some? ==> r == 0
      ensures !write ==> nvram == old(nvram) && (invalid.None? ==> r == 1)
      ensures write && invalid.None? ==>
        && nvram == Apply(old(nvram), Writes(table, form))
        && r == if Dirty(old(nvram), Writes(table, form)) then 1 else 0
    {
      hide Apply, Dirty, FieldWrites, PasswordWrites, RuleWrites, FieldsValid, PasswordValid, RulesValid;
      ghost var before := nvram;
      var dirty, bad := SaveFields(table, form, lib, write);
      if bad.Some? {
        return 0, bad;
      }
      var dirtyPassword, badPassword := SavePassword(form, write);
      if badPassword.Some? {
        return 0, badPassword;
      }
      var dirtyRules, badRule := SaveRules(form, write);
      if badRule.Some? {
        return 0, badRule;
      }
      AllWrites(before, table, form);
      r := if !write || dirty || dirtyPassword || dirtyRules then 1 else 0;
      invalid := None;
    }

    /** The two passes. Nothing is written unless everything is valid. */
    method Save(table: seq<Setting>, form: Form, lib: Library, commit: bool) returns (saved: bool, commits: bool)
      modifies this
      ensures saved == FormValid(table, form, lib)
      ensures !saved ==> nvram == old(nvram)
      ensures saved ==> nvram == Apply(old(nvram), Writes(table, form))
      ensures saved ==> commits == (commit && Dirty(old(nvram), Writes(table, form)))
    {
      hide Apply, Dirty, Writes, FormValid;
      var checked, _ := SaveVariables(table, form, lib, false);
      if checked == 0 {
        return false, false;
      }
      var written, invalid := SaveVariables(table, form, lib, true);
      assert invalid.None?;
      saved, commits := true, written != 0 && commit;
    }
  }

  ghost predicate FirstInvalid(table: seq<Setting>, i: nat, form: Form, lib: Library)
    requires i < |table|
  {
    && FieldsValid(table[..i], form, lib)
    && table[i].name in form && !Valid(table[i].kind, form[table[i].name], lib)
  }

  ghost predicate FirstBadRule(form: Form, i: nat) {
    && (forall j :: 0 <= j < i && RuleName(j) in form ==> |form[RuleName(j)]| <= RULE_LENGTH)
    && RuleName(i) in form && |form[RuleName(i)]| > RULE_LENGTH
  }

  lemma NoFields(nvram: map<string, string>, form: Form)
    ensures FieldWrites([], form) == [] && Apply(nvram, []) == nvram && !Dirty(nvram, [])
  {
  }

  lemma {:induction false} FieldWritesAppend(a: seq<Setting>, b: seq<Setting>, form: Form)
    ensures FieldWrites(a + b, form) == FieldWrites(a, form) + FieldWrites(b, form)
    decreases |a|
  {
    if a == [] {
      assert a + b == b;
    } else {
      assert (a + b)[1..] == a[1..] + b;
      FieldWritesAppend(a[1..], b, form);
    }
  }

  lemma MoreFields(table: seq<Setting>, i: nat, form: Form)
    requires i < |table|
    ensures FieldWrites(table[..i + 1], form) == FieldWrites(table[..i], form) + FieldWrites([table[i]], form)
  {
    hide FieldWrites;
    assert table[..i + 1] == table[..i] + [table[i]];
    FieldWritesAppend(table[..i], [table[i]], form);
  }

  lemma OneRule(nvram: map<string, string>, form: Form, n: nat)
    requires n < RULES
    ensures RuleName(n) !in form ==> RuleWrites(form, n) == RuleWrites(form, n + 1)
    ensures RuleName(n) in form ==>
      var w := Write(RuleName(n), form[RuleName(n)], false);
      && Apply(nvram, RuleWrites(form, n)) == Apply(Apply(nvram, [w]), RuleWrites(form, n + 1))
      && Dirty(nvram, RuleWrites(form, n)) == (Dirty(nvram, [w]) || Dirty(Apply(nvram, [w]), RuleWrites(form, n + 1)))
  {
  }

  lemma NoRules(nvram: map<string, string>, form: Form)
    ensures RuleWrites(form, RULES) == [] && Apply(nvram, []) == nvram && !Dirty(nvram, [])
  {
  }

  lemma AllWrites(nvram: map<string, string>, table: seq<Setting>, form: Form)
    ensures var a := Apply(nvram, FieldWrites(table, form));
      var b := Apply(a, PasswordWrites(form));
      && Apply(nvram, Writes(table, form)) == Apply(b, RuleWrites(form, 0))
      && Dirty(nvram, Writes(table, form))
         == (Dirty(nvram, FieldWrites(table, form)) || Dirty(a, PasswordWrites(form)) || Dirty(b, RuleWrites(form, 0)))
  {
    hide Apply, Dirty, FieldWrites, PasswordWrites, RuleWrites;
    ApplyTwice(nvram, FieldWrites(table, form), PasswordWrites(form) + RuleWrites(form, 0));
    ApplyTwice(Apply(nvram, FieldWrites(table, form)), PasswordWrites(form), RuleWrites(form, 0));
  }

  // ---- What is stored afterwards -------------------------------------------------------------------

  function Names(ws: seq<Write>): set<string> {
    if ws == [] then {} else {ws[0].name} + Names(ws[1..])
  }

  predicate Distinct(ws: seq<Write>) {
    ws != [] ==> ws[0].name !in Names(ws[1..]) && Distinct(ws[1..])
  }

  lemma {:induction false} NameOf(ws: seq<Write>, w: Write)
    requires w in ws
    ensures w.name in Names(ws)
  {
    if w != ws[0] {
      NameOf(ws[1..], w);
    }
  }

  /** Writes to different variables: each one lands and nothing else changes. */
  lemma {:induction false} ApplyMeaning(m: map<string, string>, ws: seq<Write>)
    requires Distinct(ws)
    ensures forall w :: w in ws ==> w.name in Apply(m, ws) && Apply(m, ws)[w.name] == w.value
    ensures Apply(m, ws).Keys == m.Keys + Names(ws)
    ensures forall name :: name in m && name !in Names(ws) ==> Apply(m, ws)[name] == m[name]
    decreases |ws|
  {
    if ws != [] {
      ApplyMeaning(m[ws[0].name := ws[0].value], ws[1..]);
    }
  }

  lemma {:induction false} DirtyMeaning(m: map<string, string>, ws: seq<Write>)
    requires Distinct(ws)
    ensures Dirty(m, ws) <==> exists w :: w in ws && !w.temp && Differs(m, w)
    decreases |ws|
  {
    if ws != [] {
      var m' := m[ws[0].name := ws[0].value];
      DirtyMeaning(m', ws[1..]);
      forall w | w in ws[1..] ensures Differs(m', w) == Differs(m, w) {
        NameOf(ws[1..], w);
      }
      assert forall w :: w in ws <==> w == ws[0] || w in ws[1..];
    }
  }

  lemma {:induction false} DistinctAppend(a: seq<Write>, b: seq<Write>)
    requires Distinct(a) && Distinct(b) && Names(a) !! Names(b)
    ensures Distinct(a + b) && Names(a + b) == Names(a) + Names(b)
  {
    if a == [] {
      assert a + b == b;
    } else {
      assert (a + b)[1..] == a[1..] + b;
      DistinctAppend(a[1..], b);
    }
  }

  // ---- The writes of a form ------------------------------------------------------------------------

  function TableNames(table: seq<Setting>): set<string> {
    if table == [] then {} else {table[0].name} + TableNames(table[1..])
  }

  predicate DistinctTable(table: seq<Setting>) {
    table != [] ==> table[0].name !in TableNames(table[1..]) && DistinctTable(table[1..])
  }

  function RuleNames(n: nat): set<string>
    decreases RULES - n
  {
    if n >= RULES then {} else {RuleName(n)} + RuleNames(n + 1)
  }

  /** No name twice, and none of those that are handled apart. */
  predicate Separate(table: seq<Setting>) {
    DistinctTable(table) && TableNames(table) !! RuleNames(0) && "http_passwd" !in TableNames(table)
  }

  lemma {:induction false} FieldWritesDistinct(table: seq<Setting>, form: Form)
    requires DistinctTable(table)
    ensures Names(FieldWrites(table, form)) <= TableNames(table) && Distinct(FieldWrites(table, form))
  {
    if table != [] {
      FieldWritesDistinct(table[1..], form);
      var ws := FieldWrites(table, form);
      if table[0].name in form {
        assert ws[1..] == FieldWrites(table[1..], form);
      } else {
        assert ws == FieldWrites(table[1..], form);
      }
    }
  }

  lemma RuleNameDiffers(i: nat, j: nat)
    requires RuleName(i) == RuleName(j)
    ensures i == j
  {
    assert RuleName(i)[5..] == Unsigned(i) && RuleName(j)[5..] == Unsigned(j);
    UnsignedDigits(i);
    UnsignedDigits(j);
  }

  lemma {:induction false} RuleIn(name: string, n: nat)
    ensures name in RuleNames(n) <==> exists i :: n <= i < RULES && name == RuleName(i)
    decreases RULES - n
  {
    hide RuleName;
    if n < RULES {
      RuleIn(name, n + 1);
    }
  }

  lemma {:induction false} RuleWritesDistinct(form: Form, n: nat)
    ensures Names(RuleWrites(form, n)) <= RuleNames(n) && Distinct(RuleWrites(form, n))
    decreases RULES - n
  {
    hide RuleName;
    if n < RULES {
      RuleWritesDistinct(form, n + 1);
      var ws, name := RuleWrites(form, n), RuleName(n);
      RuleIn(name, n + 1);
      forall i | n + 1 <= i < RULES ensures name != RuleName(i) {
        if name == RuleName(i) {
          RuleNameDiffers(n, i);
        }
      }
      if name in form {
        assert ws[1..] == RuleWrites(form, n + 1);
      }
    }
  }

  lemma PasswordApart()
    ensures "http_passwd" !in RuleNames(0)
  {
    RuleIn("http_passwd", 0);
    assert forall i: nat :: RuleName(i)[0] == 'r';
  }

  lemma WritesDistinct(table: seq<Setting>, form: Form)
    requires Separate(table)
    ensures Distinct(Writes(table, form))
    ensures Names(Writes(table, form)) == Names(FieldWrites(table, form)) + Names(PasswordWrites(form)) + Names(RuleWrites(form, 0))
  {
    hide FieldWrites, RuleWrites, RuleNames, TableNames, DistinctTable;
    FieldWritesDistinct(table, form);
    RuleWritesDistinct(form, 0);
    PasswordApart();
    PasswordNames(form);
    DistinctAppend(PasswordWrites(form), RuleWrites(form, 0));
    DistinctAppend(FieldWrites(table, form), PasswordWrites(form) + RuleWrites(form, 0));
  }

  lemma PasswordNames(form: Form)
    ensures Names(PasswordWrites(form)) == if NewPassword(form) then {"http_passwd"} else {}
    ensures Distinct(PasswordWrites(form))
  {
  }

  // ---- The form and the store ----------------------------------------------------------------------

  function FieldWrite(v: Setting, form: Form): Write
    requires v.name in form
  {
    Write(v.name, Normalised(v.kind, form[v.name]), v.kind.Temp?)
  }

  lemma {:induction false} FieldWriteIn(table: seq<Setting>, form: Form, i: nat)
    requires i < |table| && table[i].name in form
    ensures FieldWrite(table[i], form) in FieldWrites(table, form)
  {
    if i > 0 {
      FieldWriteIn(table[1..], form, i - 1);
    }
  }

  lemma {:induction false} FieldWriteFrom(table: seq<Setting>, form: Form, w: Write) returns (i: nat)
    requires w in FieldWrites(table, form)
    ensures i < |table| && table[i].name in form && w == FieldWrite(table[i], form)
  {
    if table[0].name in form && w == FieldWrite(table[0], form) {
      i := 0;
    } else {
      var k := FieldWriteFrom(table[1..], form, w);
      i := k + 1;
    }
  }

  lemma {:induction false} RuleWriteIn(form: Form, n: nat, i: nat)
    requires n <= i < RULES && RuleName(i) in form
    ensures Write(RuleName(i), form[RuleName(i)], false) in RuleWrites(form, n)
    decreases i - n
  {
    hide RuleName;
    if n < i {
      RuleWriteIn(form, n + 1, i);
    }
  }

  lemma {:induction false} RuleWriteFrom(form: Form, n: nat, w: Write) returns (i: nat)
    requires w in RuleWrites(form, n)
    ensures n <= i < RULES && RuleName(i) in form && w == Write(RuleName(i), form[RuleName(i)], false)
    decreases RULES - n
  {
    hide RuleName;
    if RuleName(n) in form && w == Write(RuleName(n), form[RuleName(n)], false) {
      i := n;
    } else {
      i := RuleWriteFrom(form, n + 1, w);
    }
  }

  lemma {:induction false} InTable(table: seq<Setting>, name: string)
    ensures name in TableNames(table) <==> exists i :: 0 <= i < |table| && table[i].name == name
  {
    if table != [] {
      InTable(table[1..], name);
      if i :| 0 < i < |table| && table[i].name == name {
        assert table[1..][i - 1].name == name;
      }
    }
  }

  lemma {:induction false} SameEntry(table: seq<Setting>, i: nat, j: nat)
    requires DistinctTable(table) && i < |table| && j < |table| && table[i].name == table[j].name
    ensures i == j
  {
    InTable(table[1..], table[0].name);
    assert forall k :: 0 < k < |table| ==> table[1..][k - 1] == table[k];
    if i > 0 && j > 0 {
      SameEntry(table[1..], i - 1, j - 1);
    }
  }

  predicate IsTemporary(table: seq<Setting>, name: string) {
    exists i :: 0 <= i < |table| && table[i].name == name && table[i].kind.Temp?
  }

  /** A write is marked temporary just when its variable is. */
  lemma TempMeaning(table: seq<Setting>, form: Form, w: Write)
    requires Separate(table) && w in Writes(table, form)
    ensures w.temp <==> IsTemporary(table, w.name)
  {
    hide FieldWrites, RuleWrites, RuleNames, TableNames, DistinctTable, RuleName;
    InTable(table, w.name);
    if w in FieldWrites(table, form) {
      var i := FieldWriteFrom(table, form, w);
      if j :| 0 <= j < |table| && table[j].name == w.name && table[j].kind.Temp? {
        SameEntry(table, i, j);
      }
    } else if w in RuleWrites(form, 0) {
      var i := RuleWriteFrom(form, 0, w);
      RuleIn(w.name, 0);
    }
  }

  /** After a save every posted value is stored, in its normal form; any other
      variable is as before. */
  lemma SavedExactly(m: map<string, string>, table: seq<Setting>, form: Form)
    requires Separate(table)
    ensures var after := Apply(m, Writes(table, form));
      && (forall i :: 0 <= i < |table| && table[i].name in form ==>
            && table[i].name in after
            && after[table[i].name] == if table[i].kind.Text? then Stripped(form[table[i].name]) else form[table[i].name])
      && ("set_password_1" in form && form["set_password_1"] != "**********" ==>
            "http_passwd" in after && after["http_passwd"] == form["set_password_1"])
      && (forall n :: 0 <= n < 50 && "rrule" + Unsigned(n) in form ==>
            var name := "rrule" + Unsigned(n); name in after && after[name] == form[name])
      && (forall name :: !Asked(table, form, name) ==>
            (name in after <==> name in m) && (name in m ==> after[name] == m[name]))
  {
    hide Apply, FieldWrites, RuleWrites, RuleName, Distinct, Names, Separate, PasswordWrites, Stripped, Unsigned;
    var ws := Writes(table, form);
    WritesDistinct(table, form);
    ApplyMeaning(m, ws);
    forall i | 0 <= i < |table| && table[i].name in form ensures FieldWrite(table[i], form) in ws {
      FieldWriteIn(table, form, i);
    }
    forall n | 0 <= n < RULES && RuleName(n) in form
      ensures Write(RuleName(n), form[RuleName(n)], false) in ws
    {
      RuleWriteIn(form, 0, n);
    }
    forall n | 0 <= n < 50 && "rrule" + Unsigned(n) in form
      ensures var name := "rrule" + Unsigned(n); name in Apply(m, ws) && Apply(m, ws)[name] == form[name]
    {
      RuleIs(n);
      assert Write(RuleName(n), form[RuleName(n)], false) in ws;
    }
    PasswordIn(form);
    forall name | name in Names(ws) ensures Asked(table, form, name) {
      NamesAsked(table, form, name);
    }
  }

  /** The form is valid if and only if every value posted for a field of the table is,
      a new password is posted twice alike, and no rule is longer than 2048. */
  lemma FormValidExactly(table: seq<Setting>, form: Form, lib: Library)
    ensures FormValid(table, form, lib) <==>
      && (forall i :: 0 <= i < |table| && table[i].name in form ==> Acceptable(table[i].kind, form[table[i].name], lib))
      && ("set_password_1" in form && form["set_password_1"] != "**********" ==>
            "set_password_2" in form && form["set_password_2"] == form["set_password_1"])
      && (forall n :: 0 <= n < 50 && "rrule" + Unsigned(n) in form ==> |form["rrule" + Unsigned(n)]| <= 2048)
  {
    hide Valid, Acceptable, Unsigned, FieldsValid, RulesValid;
    FieldsExactly(table, form, lib);
    RulesExactly(form);
  }

  lemma FieldsExactly(table: seq<Setting>, form: Form, lib: Library)
    ensures FieldsValid(table, form, lib) <==>
      forall i :: 0 <= i < |table| && table[i].name in form ==> Acceptable(table[i].kind, form[table[i].name], lib)
  {
    hide Valid, Acceptable;
    forall i | 0 <= i < |table| && table[i].name in form
      ensures Acceptable(table[i].kind, form[table[i].name], lib) <==> Valid(table[i].kind, form[table[i].name], lib)
    {
      ValidExactly(table[i].kind, form[table[i].name], lib);
    }
  }

  lemma RuleIs(n: nat)
    ensures RuleName(n) == "rrule" + Unsigned(n)
  {
  }

  lemma RulesExactly(form: Form)
    ensures RulesValid(form, 0) <==>
      forall n :: 0 <= n < 50 && "rrule" + Unsigned(n) in form ==> |form["rrule" + Unsigned(n)]| <= 2048
  {
    hide RuleName, Unsigned;
    if RulesValid(form, 0) {
      forall n | 0 <= n < 50 && "rrule" + Unsigned(n) in form ensures |form["rrule" + Unsigned(n)]| <= 2048 {
        RuleIs(n);
        assert RuleName(n) in form;
      }
    } else {
      var n :| 0 <= n < RULES && RuleName(n) in form && |form[RuleName(n)]| > RULE_LENGTH;
      RuleIs(n);
      assert "rrule" + Unsigned(n) in form;
    }
  }

  /** What each kind of field asks of a value: a length that lies between two bounds,
      of a text without its carriage returns; an integer between two bounds; an
      address, or nothing where it is not required. */
  ghost predicate Acceptable(k: Kind, p: string, lib: Library) {
    && (k.Length? ==> k.lo <= |p| <= k.hi)
    && (k.Text? ==> k.lo <= |Stripped(p)| <= k.hi)
    && (k.Range? ==> exists blanks, sign, digits ::
          && IsInteger(blanks, sign, digits) && p == blanks + (sign + digits)
          && k.lo <= Clamped(if sign == "-" then -ValueOf(digits) else ValueOf(digits)) <= k.hi)
    && (k.Ip? ==> lib.ip(p) || (!k.required && p == ""))
    && (k.Ipv6? ==> lib.ipv6(p) || (!k.required && p == ""))
    && (k.Mac? ==> lib.mac(p))
  }

  lemma ValidExactly(k: Kind, p: string, lib: Library)
    ensures Valid(k, p, lib) <==> Acceptable(k, p, lib)
  {
    hide ToLong, Stripped, ValueOf, IsInteger;
    if k.Range? {
      if ToLong(p).Some? {
        var blanks, sign, digits := LongParts(p);
        LongRead(blanks, sign, digits);
      }
      if blanks, sign, digits :| IsInteger(blanks, sign, digits) && p == blanks + (sign + digits)
                               && k.lo <= Clamped(if sign == "-" then -ValueOf(digits) else ValueOf(digits)) <= k.hi {
        LongRead(blanks, sign, digits);
      }
    }
  }

  lemma PasswordIn(form: Form)
    ensures NewPassword(form) ==> Write("http_passwd", form["set_password_1"], false) in PasswordWrites(form)
  {
  }

  /** The form sets this variable. */
  predicate Asked(table: seq<Setting>, form: Form, name: string) {
    || (name in form && exists i :: 0 <= i < |table| && table[i].name == name)
    || (NewPassword(form) && name == "http_passwd")
    || (name in form && exists n :: 0 <= n < RULES && name == RuleName(n))
  }

  lemma {:induction false} WriteNamed(ws: seq<Write>, name: string) returns (w: Write)
    requires name in Names(ws)
    ensures w in ws && w.name == name
  {
    if ws[0].name == name {
      w := ws[0];
    } else {
      w := WriteNamed(ws[1..], name);
    }
  }

  lemma NamesAsked(table: seq<Setting>, form: Form, name: string)
    requires name in Names(Writes(table, form))
    ensures Asked(table, form, name)
  {
    hide FieldWrites, RuleWrites, RuleName;
    var w := WriteNamed(Writes(table, form), name);
    if w in FieldWrites(table, form) {
      var i := FieldWriteFrom(table, form, w);
    } else if w in RuleWrites(form, 0) {
      var i := RuleWriteFrom(form, 0, w);
    }
  }

  /** A save is reported dirty just when some variable that is not temporary changed. */
  lemma DirtyExactly(m: map<string, string>, table: seq<Setting>, form: Form)
    requires Separate(table)
    ensures var after := Apply(m, Writes(table, form));
      Dirty(m, Writes(table, form)) <==>
        exists name :: name in after && !IsTemporary(table, name) && (name !in m || m[name] != after[name])
  {
    hide Apply, Dirty, Writes, Distinct, Names, Separate, IsTemporary;
    var ws := Writes(table, form);
    var after := Apply(m, ws);
    WritesDistinct(table, form);
    ApplyMeaning(m, ws);
    DirtyMeaning(m, ws);
    if w :| w in ws && !w.temp && Differs(m, w) {
      TempMeaning(table, form, w);
      assert w.name in after;
    } else if name :| name in after && !IsTemporary(table, name) && (name !in m || m[name] != after[name]) {
      var w := WriteNamed(ws, name);
      TempMeaning(table, form, w);
      assert false;
    }
  }
}
