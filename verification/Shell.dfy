/** `shell_quote_arg_alloc`: an argument in single quotes, and what a POSIX shell
    makes of it. */
module Shell {
  import opened Wrappers

  const QUOTE := '\''

  function Quoted(s: string): string {
    if s == [] then [] else (if s[0] == QUOTE then ['\'', '\\', '\'', '\''] else [s[0]]) + Quoted(s[1..])
  }

  /** The size of the buffer, with both quotes and the terminator. */
  function Size(s: string): nat {
    if s == [] then 3 else (if s[0] == QUOTE then 4 else 1) + Size(s[1..])
  }

  lemma {:induction false} SizeMeaning(s: string)
    ensures Size(s) == |Quoted(s)| + 3
  {
    if s != [] {
      SizeMeaning(s[1..]);
    }
  }

  // ---- The shell -------------------------------------------------------------------------------

  /** What the shell has seen so far of a word. */
  datatype Mode = Bare | Single

  function Then(c: char, r: Option<string>): Option<string> {
    if r.None? then None else Some([c] + r.value)
  }

  /** Characters that an unquoted word may hold as they are. */
  predicate IsLiteral(c: char) {
    'a' <= c <= 'z' || 'A' <= c <= 'Z' || '0' <= c <= '9' || c == '_' || c == '-' || c == '.' || c == '/'
  }

  /** Section 2.2 of the POSIX Shell Command Language: outside quotes a backslash
      keeps the next character, a quote starts a single-quoted part, and inside it
      every character but a quote stands for itself. There is no word if it is
      unfinished or holds a character that is not taken literally. */
  function Unquoted(s: string, mode: Mode): Option<string> {
    if s == [] then if mode.Bare? then Some([]) else None
    else if mode.Single? then if s[0] == QUOTE then Unquoted(s[1..], Bare) else Then(s[0], Unquoted(s[1..], Single))
    else if s[0] == QUOTE then Unquoted(s[1..], Single)
    else if s[0] == '\\' then if |s| < 2 then None else Then(s[1], Unquoted(s[2..], Bare))
    else if IsLiteral(s[0]) then Then(s[0], Unquoted(s[1..], Bare))
    else None
  }

  /** The shell reads the quoted argument as the argument. */
  lemma {:induction false} UnquotedQuoted(s: string)
    ensures Unquoted(Quoted(s) + [QUOTE], Single) == Some(s)
  {
    if s == [] {
      assert Quoted(s) + [QUOTE] == [QUOTE];
      assert [QUOTE][1..] == [];
    } else {
      var rest := Quoted(s[1..]) + [QUOTE];
      UnquotedQuoted(s[1..]);
      assert [s[0]] + s[1..] == s;
      if s[0] == QUOTE {
        EscapedQuote(rest);
        assert Quoted(s) + [QUOTE] == ['\'', '\\', '\'', '\''] + rest;
      } else {
        assert Quoted(s) + [QUOTE] == [s[0]] + rest;
        assert ([s[0]] + rest)[1..] == rest;
      }
    }
  }

  lemma EscapedQuote(rest: string)
    ensures Unquoted(['\'', '\\', '\'', '\''] + rest, Single) == Then(QUOTE, Unquoted(rest, Single))
  {
    var a, b, c := ['\'', '\\', '\'', '\''] + rest, ['\\', '\'', '\''] + rest, [QUOTE] + rest;
    assert a[1..] == b && b[2..] == c && c[1..] == rest;
    assert Unquoted(c, Bare) == Unquoted(rest, Single);
    assert Unquoted(b, Bare) == Then(QUOTE, Unquoted(c, Bare));
  }

  /** Allocate and fill the buffer. */
  method ShellQuoteArg(src: string) returns (dst: array<char>)
    requires '\0' !in src
    ensures fresh(dst) && dst.Length == Size(src)
    ensures dst[..dst.Length - 1] == [QUOTE] + (Quoted(src) + [QUOTE]) && dst[dst.Length - 1] == '\0'
    ensures Unquoted(dst[..dst.Length - 1], Bare) == Some(src)
  {
    hide Unquoted, Quoted;
    var len := Measure(src);
    SizeMeaning(src);
    dst := new char[len](_ => '\0');
    dst[0] := QUOTE;
    var q := Fill(dst, src);
    dst[q] := QUOTE;
    q := q + 1;
    dst[q] := '\0';
    assert dst[..q] == [QUOTE] + (Quoted(src) + [QUOTE]);
    WholeWord(src);
  }

  /** The second pass, after the opening quote. */
  method Fill(dst: array<char>, src: string) returns (q: nat)
    requires dst.Length == |Quoted(src)| + 3
    modifies dst
    ensures q == |Quoted(src)| + 1 && dst[..q] == [old(dst[0])] + Quoted(src)
  {
    hide Quoted;
    q := 1;
    assert src[0..] == src;
    for p := 0 to |src|
      invariant 1 <= q && q + |Quoted(src[p..])| == |Quoted(src)| + 1
      invariant dst[..q] + Quoted(src[p..]) == [old(dst[0])] + Quoted(src)
    {
      QuotedStep(src, p);
      ghost var was, rest := dst[..q], Quoted(src[p + 1..]);
      if src[p] == QUOTE {
        dst[q], dst[q + 1], dst[q + 2], dst[q + 3] := '\'', '\\', '\'', '\'';
        q := q + 4;
        assert dst[..q] == was + ['\'', '\\', '\'', '\''];
        assert was + (['\'', '\\', '\'', '\''] + rest) == dst[..q] + rest;
      } else {
        dst[q] := src[p];
        q := q + 1;
        assert dst[..q] == was + [src[p]];
        assert was + ([src[p]] + rest) == dst[..q] + rest;
      }
    }
    QuotedEnd(src);
  }

  lemma QuotedStep(s: string, p: nat)
    requires p < |s|
    ensures Quoted(s[p..]) == (if s[p] == QUOTE then ['\'', '\\', '\'', '\''] else [s[p]]) + Quoted(s[p + 1..])
  {
  }

  lemma QuotedEnd(s: string)
    ensures Quoted(s[|s|..]) == []
  {
  }

  lemma WholeWord(s: string)
    ensures Unquoted([QUOTE] + (Quoted(s) + [QUOTE]), Bare) == Some(s)
  {
    UnquotedQuoted(s);
    assert ([QUOTE] + (Quoted(s) + [QUOTE]))[1..] == Quoted(s) + [QUOTE];
  }

  /** The first pass. */
  method Measure(src: string) returns (len: nat)
    ensures len == Size(src)
  {
    len := 3;
    assert src[0..] == src;
    for p := 0 to |src|
      invariant len + Size(src[p..]) == Size(src) + 3
    {
      assert src[p..][1..] == src[p + 1..];
      len := len + if src[p] == QUOTE then 4 else 1;
    }
  }
}
