/** The binary file of bandwidth histories: counters are stored in 32 or 64
    bits, whichever suffices for the entry. */
module History {
  import opened Bytes
  import opened Wrappers

  const INT32_MAX := 0x7FFF_FFFF

  datatype Interval = Interval(resetInterval: u64, resetTime: u64, isConstant: byte)

  /** A history; times are kept as the 64-bit words they are stored in. */
  datatype History = History(
    family: u32, ip0: u32, ip1: u32, ip2: u32, ip3: u32, interval: Interval,
    firstStart: u64, firstEnd: u64, lastEnd: u64, bws: seq<u64>)

  // ---- The file format ---------------------------------------------------------------------

  predicate Fits32(bws: seq<u64>) {
    forall i :: 0 <= i < |bws| ==> bws[i] < INT32_MAX
  }

  /** The counters, `width` bytes each. */
  function Values(bws: seq<u64>, width: nat): (r: seq<byte>)
    ensures |r| == width * |bws|
  {
    if bws == [] then [] else
      assert width * |bws| == width * (|bws| - 1) + width;
      Values(bws[..|bws| - 1], width) + ToBytes(bws[|bws| - 1], width)
  }

  function Address(h: History): (r: seq<byte>)
    ensures |r| == 20
  {
    ToBytes(h.family, 4) + ToBytes(h.ip0, 4) + ToBytes(h.ip1, 4) + ToBytes(h.ip2, 4) + ToBytes(h.ip3, 4)
  }

  function Times(h: History): (r: seq<byte>)
    ensures |r| == 24
  {
    ToBytes(h.firstStart, 8) + ToBytes(h.firstEnd, 8) + ToBytes(h.lastEnd, 8)
  }

  /** The width chosen for an entry. */
  function Width(bws: seq<u64>): nat {
    if Fits32(bws) then 4 else 8
  }

  function Entry(h: History): (r: seq<byte>)
    ensures |r| >= 49
  {
    var n := Normal(h);
    Address(h) + ToBytes(|h.bws|, 4) + Times(n) + [Width(h.bws) * 8] + Values(h.bws, Width(h.bws))
  }

  /** An empty history is written without its times. */
  function Normal(h: History): History {
    if h.bws == [] then h.(firstStart := 0, firstEnd := 0, lastEnd := 0) else h
  }

  function Entries(hs: seq<History>): seq<byte> {
    if hs == [] then [] else Entries(hs[..|hs| - 1]) + Entry(hs[|hs| - 1])
  }

  function IntervalBytes(i: Interval): (r: seq<byte>)
    ensures |r| == 17
  {
    ToBytes(i.resetInterval, 8) + ToBytes(i.resetTime, 8) + [i.isConstant]
  }

  function File(hs: seq<History>): seq<byte> {
    ToBytes(|hs|, 4) + (if hs == [] then [] else IntervalBytes(hs[0].interval)) + Entries(hs)
  }

  // ---- Saving --------------------------------------------------------------------------------

  /** `save_history_to_file`: what it writes. */
  method SaveHistory(data: seq<History>) returns (out: seq<byte>)
    requires |data| < 0x1_0000_0000
    ensures out == File(data)
  {
    hide ToBytes, Entries, Entry;
    out := ToBytes(|data|, 4);
    if |data| > 0 {
      out := out + ToBytes(data[0].interval.resetInterval, 8) + ToBytes(data[0].interval.resetTime, 8) + [data[0].interval.isConstant];
    }
    ghost var head := out;
    NoEntries();
    assert data[..0] == [] && head + [] == head;
    for i := 0 to |data|
      invariant out == head + Entries(data[..i])
    {
      var e := SaveEntry(data[i]);
      EntriesMore(head, data, i);
      out := out + e;
    }
    assert data[..|data|] == data;
    FileParts(data);
  }

  lemma NoEntries()
    ensures Entries([]) == []
  {
  }

  lemma EntriesMore(head: seq<byte>, hs: seq<History>, i: nat)
    requires i < |hs|
    ensures head + Entries(hs[..i + 1]) == head + Entries(hs[..i]) + Entry(hs[i])
  {
    hide Entry;
    assert hs[..i + 1][..i] == hs[..i];
  }

  lemma FileParts(hs: seq<History>)
    ensures hs == [] ==> File(hs) == ToBytes(|hs|, 4) + Entries(hs)
    ensures hs != [] ==>
      var i := hs[0].interval;
      File(hs) == ToBytes(|hs|, 4) + ToBytes(i.resetInterval, 8) + ToBytes(i.resetTime, 8) + [i.isConstant] + Entries(hs)
  {
    hide ToBytes, Entries;
    if hs != [] {
      var i := hs[0].interval;
      Regroup(ToBytes(|hs|, 4), ToBytes(i.resetInterval, 8), ToBytes(i.resetTime, 8), [i.isConstant]);
    } else {
      assert ToBytes(|hs|, 4) + [] == ToBytes(|hs|, 4);
    }
  }

  lemma Regroup(a: seq<byte>, b: seq<byte>, c: seq<byte>, d: seq<byte>)
    ensures a + (b + c + d) == a + b + c + d
  {
  }

  method SaveEntry(next: History) returns (out: seq<byte>)
    ensures out == Entry(next)
  {
    hide ToBytes, Values, Fits32;
    out := ToBytes(next.family, 4) + (ToBytes(next.ip0, 4) + ToBytes(next.ip1, 4) + ToBytes(next.ip2, 4) + ToBytes(next.ip3, 4)) + ToBytes(|next.bws|, 4);
    ghost var first := Address(next) + ToBytes(|next.bws|, 4);
    assert out == first;
    hide Address;
    if |next.bws| == 0 {
      var dummy := 0;
      out := out + ToBytes(dummy, 8) + ToBytes(dummy, 8) + ToBytes(dummy, 8) + [32];
      NoValues(next.bws);
      assert out == first + Times(Normal(next)) + [32] + Values(next.bws, 4);
    } else {
      var bits := ChooseBits(next.bws);
      out := out + ToBytes(next.firstStart, 8) + ToBytes(next.firstEnd, 8) + ToBytes(next.lastEnd, 8) + [bits];
      assert out == first + Times(next) + [bits];
      ghost var head := out;
      NoValues(next.bws[..0]);
      for k := 0 to |next.bws|
        invariant out == head + Values(next.bws[..k], Width(next.bws))
      {
        ValuesStep(next.bws, k, Width(next.bws));
        if bits == 32 {
          out := out + ToBytes(next.bws[k], 4);
        } else {
          out := out + ToBytes(next.bws[k], 8);
        }
      }
      assert next.bws[..|next.bws|] == next.bws;
    }
  }

  lemma NoValues(bws: seq<u64>)
    requires bws == []
    ensures Fits32(bws) && Values(bws, 4) == [] && Values(bws, 8) == []
  {
  }

  lemma ValuesStep(bws: seq<u64>, k: nat, width: nat)
    requires k < |bws|
    ensures Values(bws[..k + 1], width) == Values(bws[..k], width) + ToBytes(bws[k], width)
  {
    assert bws[..k + 1][..k] == bws[..k];
  }

  /** The loop that looks for a counter that needs 64 bits. */
  method ChooseBits(bws: seq<u64>) returns (bits: byte)
    ensures bits == if Fits32(bws) then 32 else 64
    ensures bits == 32 <==> forall i :: 0 <= i < |bws| ==> bws[i] < 0x7FFF_FFFF
  {
    bits := 32;
    var k := 0;
    while k < |bws| && bits == 32
      invariant k <= |bws| && (bits == 32 || bits == 64)
      invariant bits == 32 <==> Fits32(bws[..k])
    {
      bits := if bits == 32 && bws[k] < INT32_MAX then 32 else 64;
      assert bws[..k + 1] == bws[..k] + [bws[k]];
      k := k + 1;
    }
    assert bits == 32 ==> bws[..k] == bws;
  }

  // ---- Loading -------------------------------------------------------------------------------

  function ReadValue(s: seq<byte>, at: nat, width: nat): u64
    requires (width == 4 || width == 8) && at + width <= |s|
  {
    if width == 4 then Read32(s, at) else Read64(s, at)
  }

  /** A counter is zero before it is read. What is left of it where the file ends
      within its bytes is open. */
  function ReadCounter(s: seq<byte>, at: nat, width: nat): Option<u64>
    requires width == 4 || width == 8
  {
    if at + width <= |s| then Some(ReadValue(s, at, width)) else if at < |s| then None else Some(0)
  }

  function ReadCounters(s: seq<byte>, at: nat, n: nat, width: nat): seq<Option<u64>>
    requires width == 4 || width == 8
  {
    seq(n, j requires 0 <= j => ReadCounter(s, at + width * j, width))
  }

  /** An entry as it is loaded: its head has no counters. */
  datatype Slot = Slot(head: History, counters: seq<Option<u64>>)

  function ReadHead(s: seq<byte>, at: nat, i: Interval): History
    requires at + 49 <= |s|
  {
    History(Read32(s, at), Read32(s, at + 4), Read32(s, at + 8), Read32(s, at + 12), Read32(s, at + 16), i,
            Read64(s, at + 24), Read64(s, at + 32), Read64(s, at + 40), [])
  }

  /** The entry at `at` and where the next one begins; None if the file ends before
      the counters. */
  function ReadEntry(s: seq<byte>, at: nat, i: Interval): (r: Option<(Slot, nat)>)
    ensures r.Some? ==> at + 49 <= r.value.1
  {
    if at + 49 > |s| then None else
      var n, width := Read32(s, at + 20), if s[at + 48] == 32 then 4 else 8;
      Some((Slot(ReadHead(s, at, i), ReadCounters(s, at + 49, n, width)), at + 49 + width * n))
  }

  function ReadEntries(s: seq<byte>, at: nat, n: nat, i: Interval): seq<Slot>
    decreases n
  {
    if n == 0 then [] else
      match ReadEntry(s, at, i)
      case None => []
      case Some((e, next)) => [e] + ReadEntries(s, next, n - 1, i)
  }

  function ReadInterval(s: seq<byte>, at: nat): Interval
    requires at + 17 <= |s|
  {
    Interval(Read64(s, at), Read64(s, at + 8), s[at + 16])
  }

  /** What is loaded: `count` entries, of which those in `slots` come first. The
      others are the ones of which the file does not hold everything before the
      counters; what is in them is left open. */
  datatype Loaded = Loaded(count: u32, slots: seq<Slot>)

  /** The number of entries; bytes that the file does not have are zero. */
  function ReadCount(s: seq<byte>): u32 {
    Read32(s + [0, 0, 0, 0], 0)
  }

  function Contents(s: seq<byte>): Loaded {
    var count := ReadCount(s);
    Loaded(count, if |s| < 21 then [] else ReadEntries(s, 21, count, ReadInterval(s, 4)))
  }

  /** `load_history_from_file`. */
  method LoadHistory(file: seq<byte>) returns (count: u32, slots: seq<Slot>)
    ensures Loaded(count, slots) == Contents(file)
  {
    hide ReadEntry, ReadInterval, ReadCount;
    count := ReadCount(file);
    slots := [];
    if count == 0 || |file| < 21 {
      return;
    }
    var interval := ReadInterval(file, 4);
    var at := 21;
    for k := 0 to count
      invariant Contents(file).slots == slots + ReadEntries(file, at, count - k, interval)
    {
      var r := LoadEntry(file, at, interval);
      if r.None? {
        break;
      }
      slots := slots + [r.value.0];
      at := r.value.1;
    }
  }

  method LoadEntry(file: seq<byte>, at: nat, interval: Interval) returns (r: Option<(Slot, nat)>)
    ensures r == ReadEntry(file, at, interval)
  {
    hide Read32, ReadHead;
    if at + 49 > |file| {
      return None;
    }
    var n: nat, bits := Read32(file, at + 20), file[at + 48];
    var width := if bits == 32 then 4 else 8;
    var counters := LoadCounters(file, at + 49, n, width);
    r := Some((Slot(ReadHead(file, at, interval), counters), at + 49 + width * n));
  }

  /** The loop over the counters of an entry. */
  method LoadCounters(file: seq<byte>, at: nat, n: nat, width: nat) returns (counters: seq<Option<u64>>)
    requires width == 4 || width == 8
    ensures counters == ReadCounters(file, at, n, width)
  {
    hide ReadCounter;
    counters := [];
    for j := 0 to n
      invariant counters == ReadCounters(file, at, j, width)
    {
      counters := counters + [ReadCounter(file, at + width * j, width)];
    }
  }

  // ---- Round trip ------------------------------------------------------------------------------

  predicate Storable(h: History) {
    |h.bws| < 0x1_0000_0000
  }

  /** The file holds `e` at `at`, as far as it goes. */
  ghost predicate Agrees(s: seq<byte>, at: nat, e: seq<byte>) {
    forall x :: at <= x < |s| && x < at + |e| ==> s[x] == e[x - at]
  }

  lemma AgreesParts(s: seq<byte>, at: nat, a: seq<byte>, b: seq<byte>)
    requires Agrees(s, at, a + b)
    ensures Agrees(s, at, a) && Agrees(s, at + |a|, b)
  {
  }

  lemma Word32(s: seq<byte>, at: nat, e: seq<byte>, i: nat, n: u32)
    requires Agrees(s, at, e) && i + 4 <= |e| && at + i + 4 <= |s| && e[i..i + 4] == ToBytes(n, 4)
    ensures Read32(s, at + i) == n
  {
    hide ToBytes, Read32;
    assert s[at + i..at + i + 4] == e[i..i + 4];
    Read32Back(s, at + i, n);
  }

  lemma Word64(s: seq<byte>, at: nat, e: seq<byte>, i: nat, n: u64)
    requires Agrees(s, at, e) && i + 8 <= |e| && at + i + 8 <= |s| && e[i..i + 8] == ToBytes(n, 8)
    ensures Read64(s, at + i) == n
  {
    hide ToBytes, Read64;
    assert s[at + i..at + i + 8] == e[i..i + 8];
    Read64Back(s, at + i, n);
  }

  /** Where a counter stands. */
  lemma {:induction false} ValuesAt(bws: seq<u64>, width: nat, j: nat)
    requires j < |bws|
    ensures width * j + width <= width * |bws| && Values(bws, width)[width * j..width * j + width] == ToBytes(bws[j], width)
  {
    hide ToBytes;
    var n := |bws| - 1;
    var front := Values(bws[..n], width);
    assert width * |bws| == width * n + width;
    if j < n {
      ValuesAt(bws[..n], width, j);
      assert Values(bws, width)[width * j..width * j + width] == front[width * j..width * j + width];
    }
  }

  /** What is left of a counter at `from` when only `left` bytes are there. */
  function Cut(v: u64, from: nat, width: nat, left: nat): Option<u64> {
    if from + width <= left then Some(v) else if from < left then None else Some(0)
  }

  function CutCounters(bws: seq<u64>, from: nat, width: nat, left: nat): (r: seq<Option<u64>>)
    ensures |r| == |bws|
  {
    seq(|bws|, j requires 0 <= j < |bws| => Cut(bws[j], from + width * j, width, left))
  }

  /** The width chosen never loses a value, and a counter that is not in the file is zero. */
  lemma CountersRead(s: seq<byte>, at: nat, bws: seq<u64>, width: nat)
    requires (width == 8 || (width == 4 && Fits32(bws))) && Agrees(s, at, Values(bws, width))
    ensures ReadCounters(s, at, |bws|, width) == CutCounters(bws, at, width, |s|)
  {
    hide Values, Agrees, Read32, Read64, ToBytes;
    forall j | 0 <= j < |bws|
      ensures ReadCounter(s, at + width * j, width) == Cut(bws[j], at + width * j, width, |s|)
    {
      ValuesAt(bws, width, j);
      if at + width * j + width <= |s| {
        if width == 4 {
          Word32(s, at, Values(bws, width), width * j, bws[j]);
        } else {
          Word64(s, at, Values(bws, width), width * j, bws[j]);
        }
      }
    }
  }

  /** The bytes of an entry, place by place: the three times are zero just for an
      empty history. */
  lemma EntryParts(h: History)
    ensures var e := Entry(h);
            && |e| == 49 + Width(h.bws) * |h.bws|
            && e[0..4] == ToBytes(h.family, 4) && e[4..8] == ToBytes(h.ip0, 4) && e[8..12] == ToBytes(h.ip1, 4)
            && e[12..16] == ToBytes(h.ip2, 4) && e[16..20] == ToBytes(h.ip3, 4) && e[20..24] == ToBytes(|h.bws|, 4)
            && e[24..32] == ToBytes(if h.bws == [] then 0 else h.firstStart, 8)
            && e[32..40] == ToBytes(if h.bws == [] then 0 else h.firstEnd, 8)
            && e[40..48] == ToBytes(if h.bws == [] then 0 else h.lastEnd, 8)
            && e[48] == Width(h.bws) * 8 && e == e[..49] + Values(h.bws, Width(h.bws))
  {
    hide ToBytes, Width, Values, Address, Times;
    var e, n := Entry(h), Normal(h);
    AddressParts(h);
    TimesParts(n);
    assert e[..20] == Address(h) && e[24..48] == Times(n) && e[20..24] == ToBytes(|h.bws|, 4);
    assert forall i, j :: 0 <= i <= j <= 20 ==> e[i..j] == e[..20][i..j];
    assert forall i, j :: 0 <= i <= j <= 24 ==> e[24 + i..24 + j] == e[24..48][i..j];
  }

  lemma AddressParts(h: History)
    ensures var a := Address(h);
      && a[0..4] == ToBytes(h.family, 4) && a[4..8] == ToBytes(h.ip0, 4) && a[8..12] == ToBytes(h.ip1, 4)
      && a[12..16] == ToBytes(h.ip2, 4) && a[16..20] == ToBytes(h.ip3, 4)
  {
    hide ToBytes;
  }

  lemma TimesParts(h: History)
    ensures var t := Times(h);
      t[0..8] == ToBytes(h.firstStart, 8) && t[8..16] == ToBytes(h.firstEnd, 8) && t[16..24] == ToBytes(h.lastEnd, 8)
  {
    hide ToBytes;
  }

  /** The loaded head of a history, with the interval of the file: its address, and
      its times unless it is empty, when they are zero. */
  predicate HeadOf(r: History, h: History, i: Interval) {
    && r.family == h.family && r.ip0 == h.ip0 && r.ip1 == h.ip1 && r.ip2 == h.ip2 && r.ip3 == h.ip3
    && r.interval == i
    && (h.bws != [] ==> r.firstStart == h.firstStart && r.firstEnd == h.firstEnd && r.lastEnd == h.lastEnd)
    && (h.bws == [] ==> r.firstStart == 0 && r.firstEnd == 0 && r.lastEnd == 0)
  }

  /** What is left of an entry when only `left` bytes of it are there: its head, every
      counter that is there, and zero for every one of which nothing is there. */
  ghost predicate LeftOf(slot: Slot, h: History, left: nat, i: Interval) {
    var width := Width(h.bws);
    && HeadOf(slot.head, h, i) && |slot.counters| == |h.bws|
    && forall k :: 0 <= k < |h.bws| ==>
         && (49 + width * k + width <= left ==> slot.counters[k] == Some(h.bws[k]))
         && (left <= 49 + width * k ==> slot.counters[k] == Some(0))
  }

  lemma HeadRead(s: seq<byte>, at: nat, h: History, i: Interval)
    requires at + 49 <= |s| && Agrees(s, at, Entry(h))
    ensures HeadOf(ReadHead(s, at, i), h, i)
  {
    hide Read32, Read64, ToBytes, Values, Entry, Agrees, Width;
    var e := Entry(h);
    EntryParts(h);
    Word32(s, at, e, 0, h.family);
    Word32(s, at, e, 4, h.ip0);
    Word32(s, at, e, 8, h.ip1);
    Word32(s, at, e, 12, h.ip2);
    Word32(s, at, e, 16, h.ip3);
    Word64(s, at, e, 24, if h.bws == [] then 0 else h.firstStart);
    Word64(s, at, e, 32, if h.bws == [] then 0 else h.firstEnd);
    Word64(s, at, e, 40, if h.bws == [] then 0 else h.lastEnd);
  }

  /** An entry is read back wherever it stands, as far as the file holds it. */
  lemma EntryRead(s: seq<byte>, at: nat, h: History, i: Interval)
    requires Storable(h) && at + 49 <= |s| && Agrees(s, at, Entry(h))
    ensures var r := ReadEntry(s, at, i);
      r.Some? && LeftOf(r.value.0, h, |s| - at, i) && r.value.1 == at + |Entry(h)|
  {
    hide Read32, ToBytes, Values, ReadCounters, ReadHead, Entry, Fits32, CutCounters, Agrees, HeadOf;
    var e, width := Entry(h), Width(h.bws);
    EntryParts(h);
    HeadRead(s, at, h, i);
    Word32(s, at, e, 20, |h.bws|);
    ByteAt(s, at, e, 48);
    AgreesParts(s, at, e[..49], Values(h.bws, width));
    CountersRead(s, at + 49, h.bws, width);
    CutShift(h.bws, at, width, |s|);
    CutMeaning(h.bws, width, |s| - at);
  }

  lemma CutMeaning(bws: seq<u64>, width: nat, left: nat)
    requires width > 0
    ensures forall k :: 0 <= k < |bws| ==>
      && (49 + width * k + width <= left ==> CutCounters(bws, 49, width, left)[k] == Some(bws[k]))
      && (left <= 49 + width * k ==> CutCounters(bws, 49, width, left)[k] == Some(0))
  {
  }

  lemma ByteAt(s: seq<byte>, at: nat, e: seq<byte>, i: nat)
    requires Agrees(s, at, e) && i < |e| && at + i < |s|
    ensures s[at + i] == e[i]
  {
  }

  lemma CutShift(bws: seq<u64>, at: nat, width: nat, end: nat)
    requires at <= end
    ensures CutCounters(bws, at + 49, width, end) == CutCounters(bws, 49, width, end - at)
  {
  }

  lemma {:induction false} EntriesCons(hs: seq<History>)
    requires hs != []
    ensures Entries(hs) == Entry(hs[0]) + Entries(hs[1..])
  {
    hide Entry;
    if |hs| > 1 {
      var front, last := hs[..|hs| - 1], hs[|hs| - 1];
      EntriesCons(front);
      assert front[1..] == hs[1..][..|hs| - 2];
      assert Entries(hs[1..]) == Entries(front[1..]) + Entry(last);
    } else {
      assert hs[..0] == [] && hs[1..] == [];
    }
  }

  /** Where entry `j` begins among the entries. */
  function Offset(hs: seq<History>, j: nat): nat
    requires j <= |hs|
  {
    if j == 0 then 0 else |Entry(hs[0])| + Offset(hs[1..], j - 1)
  }

  lemma {:induction false} OffsetMeaning(hs: seq<History>, j: nat)
    requires j <= |hs|
    ensures Offset(hs, j) == |Entries(hs[..j])|
    decreases j
  {
    hide Entry;
    if j > 0 {
      OffsetMeaning(hs[1..], j - 1);
      EntriesCons(hs[..j]);
      assert hs[..j][1..] == hs[1..][..j - 1];
    }
  }

  /** The slots are the entries whose first 49 bytes are there, each as far as it is there. */
  ghost predicate CutAt(slots: seq<Slot>, hs: seq<History>, left: int, i: Interval) {
    && |slots| <= |hs|
    && forall j :: 0 <= j < |hs| ==>
         && (j < |slots| <==> Offset(hs, j) + 49 <= left)
         && (j < |slots| ==> LeftOf(slots[j], hs[j], left - Offset(hs, j), i))
  }

  lemma CutCons(first: Slot, slots: seq<Slot>, hs: seq<History>, left: int, i: Interval)
    requires hs != [] && left >= 49 && LeftOf(first, hs[0], left, i) && CutAt(slots, hs[1..], left - |Entry(hs[0])|, i)
    ensures CutAt([first] + slots, hs, left, i)
  {
    hide Entry, LeftOf;
    var all := [first] + slots;
    forall j | 0 <= j < |hs|
      ensures j < |all| <==> Offset(hs, j) + 49 <= left
      ensures j < |all| ==> LeftOf(all[j], hs[j], left - Offset(hs, j), i)
    {
      if j > 0 {
        assert hs[j] == hs[1..][j - 1];
      }
    }
  }

  /** Cut at any byte, the entries give what is left of them. */
  lemma {:induction false} EntriesCut(s: seq<byte>, at: nat, hs: seq<History>, i: Interval)
    requires Agrees(s, at, Entries(hs)) && forall k :: 0 <= k < |hs| ==> Storable(hs[k])
    ensures CutAt(ReadEntries(s, at, |hs|, i), hs, |s| - at, i)
    decreases |hs|
  {
    hide ReadEntry, Entry, Entries, LeftOf, Agrees, CutAt;
    if hs == [] || at + 49 > |s| {
      NothingLeft(s, at, hs, i);
    } else {
      var first, rest := hs[0], hs[1..];
      EntriesCons(hs);
      AgreesParts(s, at, Entry(first), Entries(rest));
      EntryRead(s, at, first, i);
      EntriesCut(s, at + |Entry(first)|, rest, i);
      CutCons(ReadEntry(s, at, i).value.0, ReadEntries(s, at + |Entry(first)|, |rest|, i), hs, |s| - at, i);
    }
  }

  lemma NothingLeft(s: seq<byte>, at: nat, hs: seq<History>, i: Interval)
    requires hs == [] || at + 49 > |s|
    ensures ReadEntries(s, at, |hs|, i) == [] && CutAt([], hs, |s| - at, i)
  {
  }

  lemma HeaderRead(hs: seq<History>, k: nat)
    requires 0 < |hs| < 0x1_0000_0000 && 21 <= k <= |File(hs)|
    ensures var s := File(hs)[..k];
      ReadCount(s) == |hs| && ReadInterval(s, 4) == hs[0].interval && Agrees(s, 21, Entries(hs))
  {
    hide Entries, ToBytes, Read32, Read64;
    var f, i := File(hs), hs[0].interval;
    var s := f[..k];
    var z := s + [0, 0, 0, 0];
    assert f[0..4] == ToBytes(|hs|, 4) && f[4..12] == ToBytes(i.resetInterval, 8) && f[12..20] == ToBytes(i.resetTime, 8);
    assert z[0..4] == f[0..4] && s[4..12] == f[4..12] && s[12..20] == f[12..20];
    Read32Back(z, 0, |hs|);
    Read64Back(s, 4, i.resetInterval);
    Read64Back(s, 12, i.resetTime);
    assert s[20] == f[20] == i.isConstant;
    assert f[21..] == Entries(hs);
    assert forall x :: 21 <= x < k ==> s[x] == f[21..][x - 21];
  }

  /** A file that was cut at any byte after its header still gives its number of
      entries, and of every entry whose first 49 bytes are there what is left of it:
      the counters that are there, and zero for those that are missing. */
  lemma HistoryCut(hs: seq<History>, k: nat)
    requires 0 < |hs| < 0x1_0000_0000 && forall j :: 0 <= j < |hs| ==> Storable(hs[j])
    requires 21 <= k <= |File(hs)|
    ensures var loaded := Contents(File(hs)[..k]);
      loaded.count == |hs| && CutAt(loaded.slots, hs, k - 21, hs[0].interval)
  {
    hide ReadEntries, Entries, File, ReadCount, ReadInterval, CutAt, Agrees;
    HeaderRead(hs, k);
    EntriesCut(File(hs)[..k], 21, hs, hs[0].interval);
  }

  /** A history as it comes back from a file: nothing is lost but the times of an
      empty one and an interval other than the first. */
  ghost predicate Returns(slot: Slot, h: History, i: Interval) {
    && HeadOf(slot.head, h, i) && |slot.counters| == |h.bws|
    && forall k :: 0 <= k < |h.bws| ==> slot.counters[k] == Some(h.bws[k])
  }

  lemma CutNothing(slot: Slot, h: History, left: nat, i: Interval)
    requires left >= |Entry(h)| && LeftOf(slot, h, left, i)
    ensures Returns(slot, h, i)
  {
    hide ToBytes, Values, Width, Fits32, HeadOf;
    EntryParts(h);
    var width := Width(h.bws);
    forall j | 0 <= j < |h.bws| ensures 49 + width * j + width <= left {
      ValuesAt(h.bws, width, j);
    }
  }

  lemma {:induction false} OffsetNext(hs: seq<History>, j: nat)
    requires j < |hs|
    ensures Offset(hs, j) + |Entry(hs[j])| <= |Entries(hs)|
    decreases j
  {
    hide Entry, Entries;
    EntriesCons(hs);
    if j > 0 {
      OffsetNext(hs[1..], j - 1);
    }
  }

  /** Loading a saved file gives back the list: every address, every counter, the
      times of every history that is not empty, and the first interval for all. */
  lemma HistoryRoundTrip(hs: seq<History>)
    requires |hs| < 0x1_0000_0000 && forall k :: 0 <= k < |hs| ==> Storable(hs[k])
    ensures var loaded := Contents(File(hs));
      && loaded.count == |hs| == |loaded.slots|
      && forall j :: 0 <= j < |hs| ==> Returns(loaded.slots[j], hs[j], hs[0].interval)
  {
    hide Entries, ReadEntries, ToBytes, Read32, ReadInterval, Entry, LeftOf, Returns;
    if hs == [] {
      EmptyFile();
    } else {
      var file, slots := File(hs), Contents(File(hs)).slots;
      HistoryCut(hs, |file|);
      assert file[..|file|] == file;
      FileLength(hs);
      OffsetNext(hs, |hs| - 1);
      assert |slots| == |hs|;
      forall j | 0 <= j < |hs| ensures Returns(slots[j], hs[j], hs[0].interval) {
        OffsetNext(hs, j);
        CutNothing(slots[j], hs[j], |file| - 21 - Offset(hs, j), hs[0].interval);
      }
    }
  }

  lemma FileLength(hs: seq<History>)
    ensures hs != [] ==> |File(hs)| == 21 + |Entries(hs)|
  {
  }

  lemma EmptyFile()
    ensures Contents(File([])) == Loaded(0, [])
  {
    hide ToBytes, Read32;
    var s := File([]);
    assert s == ToBytes(0, 4);
    assert (s + [0, 0, 0, 0])[0..4] == s;
    Read32Back(s + [0, 0, 0, 0], 0, 0);
  }
}
