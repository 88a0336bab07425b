/** The text backup of one quota's counters: `save_usage_to_file` and
    `load_usage_from_file`. Printing and reading an address is the C library's
    and comes in as a pair of functions. */
module Usage {
  import opened Bytes
  import opened Decimal
  import opened Tokens
  import opened Transfer
  import opened Wrappers

  const AF_INET: u32 := 2
  const AF_INET6: u32 := 10
  const WHITESPACE := ['\n', '\r', '\t', ' ']
  const WIDTH := 15

  datatype Ip6 = Ip6(w0: u32, w1: u32, w2: u32, w3: u32)

  /** `inet_ntop` and `inet_pton`. For a family other than the two it knows,
      `inet_pton` fails without setting the address; `unset` is what is then found
      there, by the number of tokens left. */
  datatype Library = Library(
    print4: u32 -> string, parse4: string -> Option<u32>,
    print6: (u32, Ip6) -> string, parse6: string -> Option<Ip6>, unset: nat -> Ip6)

  /** What the C library promises: an address is one token, and it is read back. */
  ghost predicate Faithful(lib: Library) {
    && (forall a: u32 :: IsPiece(lib.print4(a), WHITESPACE) && lib.parse4(lib.print4(a)) == Some(a))
    && (forall a: Ip6 :: IsPiece(lib.print6(AF_INET6, a), WHITESPACE) && lib.parse6(lib.print6(AF_INET6, a)) == Some(a))
  }

  // ---- Numbers as tokens ---------------------------------------------------------------------

  /** A printed number is one token and is read back. */
  lemma SignedRead(i: int)
    ensures IsPiece(Signed(i), WHITESPACE) && Scan(Signed(i)) == Some(i)
  {
    hide Signed, Scan, IsPiece;
    ScanSigned(i);
    NotEmpty(i);
    Printable(Signed(i));
  }

  lemma NotEmpty(i: int)
    ensures Signed(i) != []
  {
  }

  lemma Printable(s: string)
    requires s != [] && forall i :: 0 <= i < |s| ==> s[i] == '-' || IsDigit(s[i])
    ensures IsPiece(s, WHITESPACE)
  {
  }

  // ---- The 64-bit reinterpretation of the counter ------------------------------------------

  /** The unsigned counter as a `long long`. */
  function AsSigned(n: u64): int {
    if n < 0x8000_0000_0000_0000 then n else n - 0x1_0000_0000_0000_0000
  }

  /** A `long long` stored where the counter is. */
  function AsUnsigned(i: int): u64 {
    i % 0x1_0000_0000_0000_0000
  }

  // ---- The file ------------------------------------------------------------------------------

  /** The padding of `%-15s` and `%-15ld`. */
  function Padding(s: string): (r: string)
    ensures |s + r| == (if |s| < 15 then 15 else |s|) && forall i :: 0 <= i < |r| ==> r[i] == ' '
  {
    if |s| < WIDTH then seq(WIDTH - |s|, _ => ' ') else []
  }

  function Address(e: IpBw, lib: Library): string {
    if e.family == AF_INET then lib.print4(e.ip0) else lib.print6(e.family, Ip6(e.ip0, e.ip1, e.ip2, e.ip3))
  }

  function Line(e: IpBw, lib: Library): string {
    var ip := Address(e, lib);
    Unsigned(e.family) + "\t" + ip + Padding(ip) + "\t" + Signed(AsSigned(e.bw)) + "\n"
  }

  function Lines(data: seq<IpBw>, lib: Library): string {
    if data == [] then [] else Line(data[0], lib) + Lines(data[1..], lib)
  }

  function Text(now: int, data: seq<IpBw>, lib: Library): string {
    Signed(now) + Padding(Signed(now)) + "\n" + Lines(data, lib)
  }

  method SaveUsage(now: int, data: seq<IpBw>, lib: Library) returns (file: string)
    ensures file == Text(now, data, lib)
  {
    file := Signed(now) + Padding(Signed(now)) + "\n";
    assert data[0..] == data;
    for i := 0 to |data|
      invariant file + Lines(data[i..], lib) == Text(now, data, lib)
    {
      assert data[i..][1..] == data[i + 1..];
      LineAppended(file, data[i..], lib);
      var next := data[i];
      if next.family == AF_INET {
        var ip := lib.print4(next.ip0);
        file := file + (Unsigned(next.family) + "\t" + ip + Padding(ip) + "\t" + Signed(AsSigned(next.bw)) + "\n");
      } else {
        var ip := lib.print6(next.family, Ip6(next.ip0, next.ip1, next.ip2, next.ip3));
        file := file + (Unsigned(next.family) + "\t" + ip + Padding(ip) + "\t" + Signed(AsSigned(next.bw)) + "\n");
      }
    }
  }

  lemma LineAppended(file: string, data: seq<IpBw>, lib: Library)
    requires data != []
    ensures file + Lines(data, lib) == file + Line(data[0], lib) + Lines(data[1..], lib)
  {
  }

  // ---- The reader ------------------------------------------------------------------------------

  datatype Backup = Backup(lastBackup: int, data: seq<IpBw>)

  /** The address of a record, unless the library finds it malformed. The -1 for an
      unknown family is taken for success. */
  function ReadAddress(family: u32, token: string, left: nat, lib: Library): Option<Ip6> {
    if family == AF_INET then
      var a := lib.parse4(token);
      if a.Some? then Some(Ip6(a.value, 0, 0, 0)) else None
    else if family == AF_INET6 then lib.parse6(token)
    else Some(lib.unset(left))
  }

  function ReadFamily(token: string): u32 {
    if Scan(token).Some? then Scan(token).value % 0x1_0000_0000 else 0
  }

  /** The records in a list of tokens. A bad address costs two tokens, not three. */
  function Records(parts: seq<string>, lib: Library): (r: seq<IpBw>)
    ensures 3 * |r| <= |parts|
  {
    if |parts| < 2 then []
    else
      var family := ReadFamily(parts[0]);
      var a := ReadAddress(family, parts[1], |parts|, lib);
      if a.None? || |parts| == 2 then Records(parts[2..], lib)
      else if Scan(parts[2]).None? then Records(parts[3..], lib)
      else
        [IpBw(family, a.value.w0, a.value.w1, a.value.w2, a.value.w3, AsUnsigned(Scan(parts[2]).value))]
        + Records(parts[3..], lib)
  }

  function Loaded(parts: seq<string>, lib: Library): Backup {
    if parts == [] then Backup(0, [])
    else Backup(if Scan(parts[0]).Some? then Scan(parts[0]).value else 0, Records(parts[1..], lib))
  }

  method LoadUsage(file: string, lib: Library) returns (lastBackup: int, data: seq<IpBw>)
    ensures Backup(lastBackup, data) == Loaded(Pieces(file, WHITESPACE), lib)
  {
    var parts := SplitOnSeparators(file, WHITESPACE, -1, false);
    lastBackup := 0;
    var table := new IpBw[|parts| / 3 + 1](_ => IpBw(0, 0, 0, 0, 0, 0));
    if |parts| == 0 {
      return 0, [];
    }
    var stamp := Scan(parts[0]);
    if stamp.Some? {
      lastBackup := stamp.value;
    }
    var n := ReadRecords(parts, table, lib);
    data := table[..n];
  }

  /** The loop over the records; the table was sized before the records were read. */
  method ReadRecords(parts: seq<string>, table: array<IpBw>, lib: Library) returns (n: nat)
    requires |parts| > 0 && table.Length == |parts| / 3 + 1
    modifies table
    ensures n <= table.Length && table[..n] == Records(parts[1..], lib)
  {
    hide Scan, ReadAddress, AsUnsigned, Records;
    n := 0;
    var i := 1;
    while i < |parts|
      invariant 1 <= i <= |parts| && 3 * n < i && (i == |parts| ==> Records(parts[i..], lib) == [])
      invariant Records(parts[1..], lib) == table[..n] + Records(parts[i..], lib)
    {
      RecordsStep(parts, i, lib);
      var left := |parts| - i;
      var scanned := Scan(parts[i]);
      var family := if scanned.Some? then scanned.value % 0x1_0000_0000 else 0;
      i := i + 1;
      if i >= |parts| {
        break;
      }
      var address := ReadAddress(family, parts[i], left, lib);
      i := i + 1;
      if address.Some? && n < |parts| && i < |parts| {
        var ip := address.value;
        var bw := Scan(parts[i]);
        i := i + 1;
        if bw.Some? {
          table[n] := IpBw(family, ip.w0, ip.w1, ip.w2, ip.w3, AsUnsigned(bw.value));
          n := n + 1;
        }
      }
    }
  }

  lemma RecordsStep(parts: seq<string>, i: nat, lib: Library)
    requires i < |parts|
    ensures Records(parts[|parts|..], lib) == []
    ensures var r := Records(parts[i..], lib);
      if i + 1 >= |parts| then r == []
      else
        var family := ReadFamily(parts[i]);
        var a := ReadAddress(family, parts[i + 1], |parts| - i, lib);
        if a.None? || i + 2 >= |parts| then r == Records(parts[i + 2..], lib)
        else if Scan(parts[i + 2]).None? then r == Records(parts[i + 3..], lib)
        else r == [IpBw(family, a.value.w0, a.value.w1, a.value.w2, a.value.w3, AsUnsigned(Scan(parts[i + 2]).value))]
                + Records(parts[i + 3..], lib)
  {
  }

  // ---- What is saved is loaded -----------------------------------------------------------------

  /** What a backup keeps of an entry: all of it, except that an IPv4 address has
      one word and the others come back as zero. */
  predicate Restored(r: IpBw, e: IpBw) {
    && r.family == e.family && r.bw == e.bw && r.ip0 == e.ip0
    && (e.family == 2 ==> r.ip1 == 0 && r.ip2 == 0 && r.ip3 == 0)
    && (e.family == 10 ==> r.ip1 == e.ip1 && r.ip2 == e.ip2 && r.ip3 == e.ip3)
  }

  predicate AllRestored(rs: seq<IpBw>, data: seq<IpBw>) {
    |rs| == |data| && forall i :: 0 <= i < |data| ==> Restored(rs[i], data[i])
  }

  lemma RestoredUnique(a: seq<IpBw>, b: seq<IpBw>, data: seq<IpBw>)
    requires AllRestored(a, data) && AllRestored(b, data) && KnownFamilies(data)
    ensures a == b
  {
  }

  lemma RestoredCons(r: IpBw, rs: seq<IpBw>, data: seq<IpBw>)
    requires data != [] && Restored(r, data[0]) && AllRestored(rs, data[1..])
    ensures AllRestored([r] + rs, data)
  {
    hide Restored;
  }

  predicate KnownFamilies(data: seq<IpBw>) {
    forall i :: 0 <= i < |data| ==> data[i].family == 2 || data[i].family == 10
  }

  function Triple(e: IpBw, lib: Library): (r: seq<string>)
    ensures |r| == 3
  {
    [Unsigned(e.family), Address(e, lib), Signed(AsSigned(e.bw))]
  }

  function Triples(data: seq<IpBw>, lib: Library): (r: seq<string>)
    ensures |r| == 3 * |data|
  {
    if data == [] then [] else Triple(data[0], lib) + Triples(data[1..], lib)
  }

  /** A line, whatever gap precedes it, is its three tokens. */
  lemma LinePieces(gap: string, e: IpBw, rest: string, lib: Library)
    requires Faithful(lib) && KnownFamilies([e]) && IsGap(gap, WHITESPACE)
    ensures Pieces(gap + (Line(e, lib) + rest), WHITESPACE) == Triple(e, lib) + Pieces("\n" + rest, WHITESPACE)
  {
    hide Pieces, Unsigned, Scan, IsPiece;
    var family, ip, bw := Unsigned(e.family), Address(e, lib), Signed(AsSigned(e.bw));
    SignedRead(e.family);
    SignedRead(AsSigned(e.bw));
    assert [e][0] == e;
    assert IsPiece(ip, WHITESPACE);
    var after := "\n" + rest;
    var pad := Padding(ip) + "\t";
    PiecesNext(pad, bw, after, WHITESPACE);
    PiecesNext("\t", ip, pad + (bw + after), WHITESPACE);
    PiecesNext(gap, family, "\t" + (ip + (pad + (bw + after))), WHITESPACE);
    assert Line(e, lib) + rest == family + ("\t" + (ip + (pad + (bw + after))));
  }

  lemma {:induction false} LinesPieces(gap: string, data: seq<IpBw>, lib: Library)
    requires Faithful(lib) && KnownFamilies(data) && IsGap(gap, WHITESPACE)
    ensures Pieces(gap + Lines(data, lib), WHITESPACE) == Triples(data, lib)
    decreases |data|
  {
    hide Faithful;
    if data == [] {
      SkipGap(gap, [], WHITESPACE);
      assert gap + [] == gap;
    } else {
      hide Pieces, Line, Triple;
      assert [data[0]][0] == data[0];
      LinePieces(gap, data[0], Lines(data[1..], lib), lib);
      LinesPieces("\n", data[1..], lib);
    }
  }

  /** The tokens of a saved file. */
  lemma TextPieces(now: int, data: seq<IpBw>, lib: Library)
    requires Faithful(lib) && KnownFamilies(data)
    ensures Pieces(Text(now, data, lib), WHITESPACE) == [Signed(now)] + Triples(data, lib)
  {
    hide Pieces, Lines, Faithful, KnownFamilies, Signed, IsPiece, Scan;
    var gap := Padding(Signed(now)) + "\n";
    SignedRead(now);
    LinesPieces(gap, data, lib);
    PiecesNext([], Signed(now), gap + Lines(data, lib), WHITESPACE);
    assert Text(now, data, lib) == [] + (Signed(now) + (gap + Lines(data, lib)));
  }

  lemma TripleRead(e: IpBw, left: nat, lib: Library)
    requires Faithful(lib) && KnownFamilies([e])
    ensures ReadFamily(Unsigned(e.family)) == e.family
    ensures var a := ReadAddress(e.family, Address(e, lib), left, lib);
      a.Some? && Restored(IpBw(e.family, a.value.w0, a.value.w1, a.value.w2, a.value.w3, e.bw), e)
    ensures Scan(Signed(AsSigned(e.bw))) == Some(AsSigned(e.bw)) && AsUnsigned(AsSigned(e.bw)) == e.bw
  {
    hide Unsigned, Scan;
    SignedRead(e.family);
    SignedRead(AsSigned(e.bw));
    assert [e][0] == e;
  }

  /** Cut anywhere between two tokens, the records give every entry that is
      complete and nothing else. */
  lemma {:induction false} RecordsCut(data: seq<IpBw>, k: nat, lib: Library)
    requires Faithful(lib) && KnownFamilies(data) && k <= 3 * |data|
    ensures AllRestored(Records(Triples(data, lib)[..k], lib), data[..k / 3])
    decreases |data|
  {
    hide Faithful, Scan, ReadAddress, Signed, Unsigned, AsUnsigned, AsSigned, ReadFamily, Address, Restored;
    if k >= 2 {
      var e := data[0];
      assert [e][0] == e;
      TripleRead(e, k, lib);
      var parts := Triples(data, lib)[..k];
      assert parts[0] == Unsigned(e.family) && parts[1] == Address(e, lib);
      if k >= 3 {
        assert parts[2] == Signed(AsSigned(e.bw)) && parts[3..] == Triples(data[1..], lib)[..k - 3];
        RecordsCut(data[1..], k - 3, lib);
        var r := Records(parts, lib);
        assert data[..k / 3][1..] == data[1..][..(k - 3) / 3];
        RestoredCons(r[0], Records(parts[3..], lib), data[..k / 3]);
      }
    }
  }

  /** Loading what was saved gives the time of the backup and every counter. */
  lemma UsageRoundTrip(now: int, data: seq<IpBw>, lib: Library)
    requires Faithful(lib) && KnownFamilies(data)
    ensures var loaded := Loaded(Pieces(Text(now, data, lib), WHITESPACE), lib);
      loaded.lastBackup == now && AllRestored(loaded.data, data)
  {
    hide Pieces, Text, Records, Faithful, KnownFamilies, Signed, Scan, AllRestored;
    TextPieces(now, data, lib);
    SignedRead(now);
    var triples := Triples(data, lib);
    RecordsCut(data, |triples|, lib);
    assert triples[..|triples|] == triples && data[..|data|] == data;
    assert ([Signed(now)] + triples)[1..] == triples;
  }

  // ---- Addresses that were never set -------------------------------------------------------------

  function WithUnset(lib: Library, unset: nat -> Ip6): Library {
    lib.(unset := unset)
  }

  /** Reading on, a record of an unknown family with a readable counter is met. */
  predicate MeetsUnknown(parts: seq<string>, lib: Library)
    decreases |parts|
  {
    if |parts| < 3 then false
    else
      var family := ReadFamily(parts[0]);
      if family == AF_INET || family == AF_INET6 then
        if ReadAddress(family, parts[1], |parts|, lib).None? then MeetsUnknown(parts[2..], lib)
        else MeetsUnknown(parts[3..], lib)
      else Scan(parts[2]).Some? || MeetsUnknown(parts[3..], lib)
  }

  /** Otherwise what memory holds does not matter. */
  lemma {:induction false} UnsetIgnored(parts: seq<string>, lib: Library, unset: nat -> Ip6)
    requires !MeetsUnknown(parts, lib)
    ensures Records(parts, WithUnset(lib, unset)) == Records(parts, lib)
    decreases |parts|
  {
    hide Scan, ReadFamily;
    if |parts| >= 3 {
      var family := ReadFamily(parts[0]);
      if (family == AF_INET || family == AF_INET6) && ReadAddress(family, parts[1], |parts|, lib).None? {
        UnsetIgnored(parts[2..], lib, unset);
      } else {
        UnsetIgnored(parts[3..], lib, unset);
      }
    }
  }

  /** The same address wherever none was set. */
  function Always(w: u32): nat -> Ip6 {
    _ => Ip6(w, 0, 0, 0)
  }

  /** In such a file some stored address is whatever memory held. */
  lemma {:induction false} UnsetShows(parts: seq<string>, lib: Library)
    requires MeetsUnknown(parts, lib)
    ensures Records(parts, WithUnset(lib, Always(0))) != Records(parts, WithUnset(lib, Always(1)))
    decreases |parts|
  {
    hide Scan, ReadFamily;
    var family := ReadFamily(parts[0]);
    var r0, r1 := Records(parts, WithUnset(lib, Always(0))), Records(parts, WithUnset(lib, Always(1)));
    if family == AF_INET || family == AF_INET6 {
      if ReadAddress(family, parts[1], |parts|, lib).None? {
        UnsetShows(parts[2..], lib);
      } else {
        UnsetShows(parts[3..], lib);
        assert Scan(parts[2]).Some? ==>
          r0[1..] == Records(parts[3..], WithUnset(lib, Always(0))) && r1[1..] == Records(parts[3..], WithUnset(lib, Always(1)));
      }
    } else if Scan(parts[2]).Some? {
      assert r0[0].ip0 == 0 && r1[0].ip0 == 1;
    } else {
      UnsetShows(parts[3..], lib);
    }
  }

  /** What is loaded is free of addresses that were never set if and only if the
      tokens behind the timestamp meet no record of an unknown family. */
  lemma UnsetExact(parts: seq<string>, lib: Library)
    ensures (forall unset :: Loaded(parts, WithUnset(lib, unset)) == Loaded(parts, lib))
       <==> parts == [] || !MeetsUnknown(parts[1..], lib)
  {
    hide Records, MeetsUnknown, Scan;
    if parts != [] {
      if MeetsUnknown(parts[1..], lib) {
        UnsetShows(parts[1..], lib);
        var l0, l1 := Loaded(parts, WithUnset(lib, Always(0))), Loaded(parts, WithUnset(lib, Always(1)));
        assert l0 != l1;
      } else {
        forall unset ensures Loaded(parts, WithUnset(lib, unset)) == Loaded(parts, lib) {
          UnsetIgnored(parts[1..], lib, unset);
        }
      }
    }
  }

  /** A saved backup never is of that kind. */
  lemma SavedMeetsNone(now: int, data: seq<IpBw>, lib: Library)
    requires Faithful(lib) && KnownFamilies(data)
    ensures var parts := Pieces(Text(now, data, lib), WHITESPACE); parts != [] && !MeetsUnknown(parts[1..], lib)
  {
    hide Faithful, KnownFamilies, Loaded, MeetsUnknown, Pieces, Text, Triples, Signed, AllRestored;
    TextPieces(now, data, lib);
    var parts := Pieces(Text(now, data, lib), WHITESPACE);
    forall unset ensures Loaded(parts, WithUnset(lib, unset)) == Loaded(parts, lib) {
      SamePrinting(now, data, lib, unset);
      UsageRoundTrip(now, data, lib);
      UsageRoundTrip(now, data, WithUnset(lib, unset));
      RestoredUnique(Loaded(parts, lib).data, Loaded(parts, WithUnset(lib, unset)).data, data);
    }
    UnsetExact(parts, lib);
  }

  lemma {:induction false} SamePrinting(now: int, data: seq<IpBw>, lib: Library, unset: nat -> Ip6)
    ensures Faithful(lib) ==> Faithful(WithUnset(lib, unset))
    ensures Text(now, data, WithUnset(lib, unset)) == Text(now, data, lib)
  {
    hide Padding, Signed, Unsigned, IsPiece;
    SameLines(data, lib, unset);
  }

  lemma {:induction false} SameLines(data: seq<IpBw>, lib: Library, unset: nat -> Ip6)
    ensures Lines(data, WithUnset(lib, unset)) == Lines(data, lib)
  {
    hide Padding, Signed, Unsigned;
    if data != [] {
      SameLines(data[1..], lib, unset);
    }
  }

  /** A record of an unknown family is stored, with an address that was never set. */
  lemma UnknownFamilyStored(family: u32, token: string, bw: u64, lib: Library)
    requires family != AF_INET && family != AF_INET6
    ensures var a := lib.unset(3);
      Records([Unsigned(family), token, Signed(AsSigned(bw))], lib) == [IpBw(family, a.w0, a.w1, a.w2, a.w3, bw)]
  {
    hide Unsigned, Scan, Signed;
    SignedRead(family);
    SignedRead(AsSigned(bw));
    assert Signed(family) == Unsigned(family) by { SignedIsUnsigned(family); }
    var parts := [Unsigned(family), token, Signed(AsSigned(bw))];
    assert parts[3..] == [] && Records([], lib) == [];
  }

  lemma SignedIsUnsigned(n: nat)
    ensures Signed(n) == Unsigned(n)
  {
  }
}
