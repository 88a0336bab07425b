/** Handing a list of usage counters to the kernel in messages of a fixed
    size: `set_bandwidth_data` and the usage branch of `set_ip_block`. */
module Transfer {
  import opened Bytes

  const BANDWIDTH_QUERY_LENGTH := 16384
  const BANDWIDTH_MAX_ID_LENGTH := 50
  const HEADER := 3 * 4 + 2 * 1 + 8 + BANDWIDTH_MAX_ID_LENGTH
  const BLOCK := 28

  datatype IpBw = IpBw(family: u32, ip0: u32, ip1: u32, ip2: u32, ip3: u32, bw: u64)

  /** What stays the same in all messages of one call. */
  datatype Request = Request(id: CString, zeroUnset: byte, lastBackup: u64)

  // ---- The wire format --------------------------------------------------------------------

  function Block(e: IpBw): (r: seq<byte>)
    ensures |r| == BLOCK
  {
    ToBytes(e.family, 4) + ToBytes(e.ip0, 4) + ToBytes(e.ip1, 4) + ToBytes(e.ip2, 4) + ToBytes(e.ip3, 4) + ToBytes(e.bw, 8)
  }

  function Blocks(es: seq<IpBw>): (r: seq<byte>)
    ensures |r| == BLOCK * |es|
  {
    if es == [] then [] else Blocks(es[..|es| - 1]) + Block(es[|es| - 1])
  }

  function Zeros(n: nat): (r: seq<byte>)
    ensures |r| == n
  {
    seq(n, _ => 0)
  }

  /** `strncpy` into the id field, with its last byte cleared. */
  function IdField(id: CString): (r: seq<byte>)
    ensures |r| == BANDWIDTH_MAX_ID_LENGTH && r[BANDWIDTH_MAX_ID_LENGTH - 1] == 0
  {
    if |id| < BANDWIDTH_MAX_ID_LENGTH then id + Zeros(BANDWIDTH_MAX_ID_LENGTH - |id|)
    else id[..BANDWIDTH_MAX_ID_LENGTH - 1] + [0]
  }

  function Constant(req: Request): (r: seq<byte>)
    ensures |r| == HEADER - 12
  {
    [0, req.zeroUnset] + ToBytes(req.lastBackup, 8) + IdField(req.id)
  }

  /** A message that carries `chunk`, which starts at index `start` of `total` entries. */
  function Message(req: Request, total: nat, start: nat, chunk: seq<IpBw>): (r: seq<byte>)
    requires HEADER + BLOCK * |chunk| <= BANDWIDTH_QUERY_LENGTH
    ensures |r| == BANDWIDTH_QUERY_LENGTH
  {
    ToBytes(total, 4) + ToBytes(start, 4) + ToBytes(|chunk|, 4) + Constant(req) + Blocks(chunk) +
    Zeros(BANDWIDTH_QUERY_LENGTH - HEADER - BLOCK * |chunk|)
  }

  // ---- The receiver -------------------------------------------------------------------------

  function ReadBlock(s: seq<byte>, at: nat): IpBw
    requires at + BLOCK <= |s|
  {
    IpBw(Read32(s, at), Read32(s, at + 4), Read32(s, at + 8), Read32(s, at + 12), Read32(s, at + 16), Read64(s, at + 20))
  }

  function ReadBlocks(s: seq<byte>, n: nat): seq<IpBw>
    requires HEADER + BLOCK * n <= |s|
  {
    if n == 0 then [] else ReadBlocks(s, n - 1) + [ReadBlock(s, HEADER + BLOCK * (n - 1))]
  }

  /** The entries in a message by its own count field; a count that does not fit is refused. */
  function Receive(s: seq<byte>): seq<IpBw>
    requires |s| == BANDWIDTH_QUERY_LENGTH
  {
    var n := Read32(s, 8);
    if HEADER + BLOCK * n <= |s| then ReadBlocks(s, n) else []
  }

  lemma BlockRead(e: IpBw)
    ensures ReadBlock(Block(e), 0) == e
  {
    hide ToBytes, FromBytes;
    var b := Block(e);
    Read32Back(b, 0, e.family);
    Read32Back(b, 4, e.ip0);
    Read32Back(b, 8, e.ip1);
    Read32Back(b, 12, e.ip2);
    Read32Back(b, 16, e.ip3);
    Read64Back(b, 20, e.bw);
  }

  lemma ReadBlockAt(s: seq<byte>, at: nat, b: seq<byte>)
    requires at + BLOCK <= |s| && |b| == BLOCK && s[at..at + BLOCK] == b
    ensures ReadBlock(s, at) == ReadBlock(b, 0)
  {
    hide FromBytes;
    assert b[0..4] == s[at..at + 4] && b[4..8] == s[at + 4..at + 8] && b[8..12] == s[at + 8..at + 12];
    assert b[12..16] == s[at + 12..at + 16] && b[16..20] == s[at + 16..at + 20] && b[20..28] == s[at + 20..at + 28];
  }

  lemma {:induction false} ReadBlocksAll(s: seq<byte>, es: seq<IpBw>)
    requires HEADER + BLOCK * |es| <= |s| && s[HEADER..HEADER + BLOCK * |es|] == Blocks(es)
    ensures ReadBlocks(s, |es|) == es
  {
    hide Block, ReadBlock;
    if es != [] {
      var front, e := es[..|es| - 1], es[|es| - 1];
      var at := HEADER + BLOCK * |front|;
      var all := Blocks(es);
      assert s[HEADER..at] == all[..BLOCK * |front|] == Blocks(front);
      assert s[at..at + BLOCK] == all[BLOCK * |front|..] == Block(e);
      ReadBlocksAll(s, front);
      ReadBlockAt(s, at, Block(e));
      BlockRead(e);
    }
  }

  /** The receiver gets the chunk and its place in the list. */
  lemma MessageReceived(req: Request, total: u32, start: u32, chunk: seq<IpBw>)
    requires HEADER + BLOCK * |chunk| <= BANDWIDTH_QUERY_LENGTH
    ensures var m := Message(req, total, start, chunk);
            Read32(m, 0) == total && Read32(m, 4) == start && Read32(m, 8) == |chunk| && Receive(m) == chunk
  {
    hide ToBytes, FromBytes, Constant, Blocks, ReadBlocks;
    var m := Message(req, total, start, chunk);
    assert m[0..4] == ToBytes(total, 4);
    assert m[4..8] == ToBytes(start, 4);
    assert m[8..12] == ToBytes(|chunk|, 4);
    assert m[HEADER..HEADER + BLOCK * |chunk|] == Blocks(chunk);
    Read32Back(m, 0, total);
    Read32Back(m, 4, start);
    Read32Back(m, 8, |chunk|);
    ReadBlocksAll(m, chunk);
  }

  /** The message names this quota, up to 49 bytes of its id and zeros behind them,
      and carries the flag and the time of the request; it holds no history. */
  ghost predicate Addressed(m: seq<byte>, req: Request) {
    var n := if |req.id| < 50 then |req.id| else 49;
    && |m| == 16384
    && m[12] == 0 && m[13] == req.zeroUnset && Read64(m, 14) == req.lastBackup
    && m[22..22 + n] == req.id[..n]
    && forall i :: 22 + n <= i < 72 ==> m[i] == 0
  }

  lemma MessageAddressed(req: Request, total: nat, start: nat, chunk: seq<IpBw>)
    requires HEADER + BLOCK * |chunk| <= BANDWIDTH_QUERY_LENGTH
    ensures Addressed(Message(req, total, start, chunk), req)
  {
    hide ToBytes, Blocks, Read64, IdField;
    var m, id := Message(req, total, start, chunk), IdField(req.id);
    assert m[12] == 0 && m[13] == req.zeroUnset;
    assert m[14..22] == ToBytes(req.lastBackup, 8);
    Read64Back(m, 14, req.lastBackup);
    assert m[22..72] == id;
    IdRead(req.id);
    var n := if |req.id| < 50 then |req.id| else 49;
    assert m[22..22 + n] == m[22..72][..n];
    assert forall i :: 22 + n <= i < 72 ==> m[i] == m[22..72][i - 22];
  }

  lemma IdRead(id: CString)
    ensures var n := if |id| < 50 then |id| else 49;
      IdField(id)[..n] == id[..n] && forall i :: n <= i < 50 ==> IdField(id)[i] == 0
  {
  }

  // ---- The sender -----------------------------------------------------------------------------

  function Splice(s: seq<byte>, at: nat, x: seq<byte>): (r: seq<byte>)
    requires at + |x| <= |s|
    ensures |r| == |s|
  {
    s[..at] + x + s[at + |x|..]
  }

  lemma SpliceMiddle(a: seq<byte>, x: seq<byte>, y: seq<byte>, b: seq<byte>)
    requires |x| == |y|
    ensures Splice(a + x + b, |a|, y) == a + y + b
  {
  }

  /** Storing a value through a pointer into the buffer. */
  method Put(buf: array<byte>, at: nat, x: seq<byte>)
    requires at + |x| <= buf.Length
    modifies buf
    ensures buf[..] == Splice(old(buf[..]), at, x)
  {
    for k := 0 to |x|
      invariant buf[..at] == old(buf[..at]) && buf[at..at + k] == x[..k] && buf[at + k..] == old(buf[at + k..])
    {
      buf[at + k] := x[k];
    }
    assert buf[..] == buf[..at] + buf[at..at + |x|] + buf[at + |x|..];
  }

  /** `set_ip_block` for a usage entry: refuses an entry that does not fit. */
  method SetIpBlock(e: IpBw, buf: array<byte>, at: nat) returns (full: bool, next: nat)
    requires at <= buf.Length
    modifies buf
    ensures full <==> at + BLOCK > buf.Length
    ensures full ==> next == at && buf[..] == old(buf[..])
    ensures !full ==> next == at + BLOCK && buf[..] == Splice(old(buf[..]), at, Block(e))
  {
    if at + 28 > buf.Length {
      return true, at;
    }
    hide ToBytes;
    ghost var s := buf[..];
    Put(buf, at, ToBytes(e.family, 4));
    Put(buf, at + 4, ToBytes(e.ip0, 4));
    SpliceTwice(s, at, ToBytes(e.family, 4), ToBytes(e.ip0, 4));
    Put(buf, at + 8, ToBytes(e.ip1, 4));
    SpliceTwice(s, at, ToBytes(e.family, 4) + ToBytes(e.ip0, 4), ToBytes(e.ip1, 4));
    Put(buf, at + 12, ToBytes(e.ip2, 4));
    SpliceTwice(s, at, ToBytes(e.family, 4) + ToBytes(e.ip0, 4) + ToBytes(e.ip1, 4), ToBytes(e.ip2, 4));
    Put(buf, at + 16, ToBytes(e.ip3, 4));
    SpliceTwice(s, at, ToBytes(e.family, 4) + ToBytes(e.ip0, 4) + ToBytes(e.ip1, 4) + ToBytes(e.ip2, 4), ToBytes(e.ip3, 4));
    Put(buf, at + 20, ToBytes(e.bw, 8));
    SpliceTwice(s, at, ToBytes(e.family, 4) + ToBytes(e.ip0, 4) + ToBytes(e.ip1, 4) + ToBytes(e.ip2, 4) + ToBytes(e.ip3, 4), ToBytes(e.bw, 8));
    return false, at + 28;
  }

  lemma SpliceTwice(s: seq<byte>, at: nat, x: seq<byte>, y: seq<byte>)
    requires at + |x| + |y| <= |s|
    ensures Splice(Splice(s, at, x), at + |x|, y) == Splice(s, at, x + y)
  {
  }

  /** Writing the next block and the new count turns a message into the one with
      that entry added. */
  lemma MessageGrows(req: Request, total: nat, start: nat, chunk: seq<IpBw>, e: IpBw)
    requires HEADER + BLOCK * (|chunk| + 1) <= BANDWIDTH_QUERY_LENGTH
    ensures var m := Message(req, total, start, chunk);
            Splice(Splice(m, HEADER + BLOCK * |chunk|, Block(e)), 8, ToBytes(|chunk| + 1, 4)) == Message(req, total, start, chunk + [e])
  {
    hide ToBytes, Block, Constant, Blocks, Splice, Zeros, Message;
    var n := |chunk|;
    var rest := BANDWIDTH_QUERY_LENGTH - HEADER - BLOCK * (n + 1);
    var head := ToBytes(total, 4) + ToBytes(start, 4);
    MessageParts(req, total, start, chunk, BLOCK + rest);
    MessageParts(req, total, start, chunk + [e], rest);
    BlocksAppend(chunk, e);
    ZerosSplit(BLOCK, rest);
    Grow(head, ToBytes(n, 4), ToBytes(n + 1, 4), Constant(req), Blocks(chunk), Block(e), Zeros(BLOCK), Zeros(rest));
  }

  lemma MessageParts(req: Request, total: nat, start: nat, chunk: seq<IpBw>, rest: nat)
    requires HEADER + BLOCK * |chunk| + rest == BANDWIDTH_QUERY_LENGTH
    ensures Message(req, total, start, chunk) ==
            ToBytes(total, 4) + ToBytes(start, 4) + ToBytes(|chunk|, 4) + Constant(req) + Blocks(chunk) + Zeros(rest)
  {
  }

  lemma BlocksAppend(chunk: seq<IpBw>, e: IpBw)
    ensures Blocks(chunk + [e]) == Blocks(chunk) + Block(e)
  {
  }

  lemma ZerosSplit(a: nat, b: nat)
    ensures Zeros(a + b) == Zeros(a) + Zeros(b)
  {
  }

  lemma Grow(head: seq<byte>, n: seq<byte>, n': seq<byte>, c: seq<byte>, bs: seq<byte>, x: seq<byte>, z: seq<byte>, rest: seq<byte>)
    requires |n| == |n'| && |x| == |z|
    ensures Splice(Splice(head + n + c + bs + (z + rest), |head| + |n| + |c| + |bs|, x), |head|, n') == head + n' + c + (bs + x) + rest
  {
  }

  /** Setting the start index and clearing count and blocks begins the next message. */
  lemma MessageRestarts(req: Request, total: nat, start: nat, chunk: seq<IpBw>, next: nat)
    requires HEADER + BLOCK * |chunk| <= BANDWIDTH_QUERY_LENGTH
    ensures var m := Splice(Message(req, total, start, chunk), 4, ToBytes(next, 4));
            Splice(Splice(m, HEADER, Zeros(BANDWIDTH_QUERY_LENGTH - HEADER)), 8, ToBytes(0, 4)) == Message(req, total, next, [])
  {
    hide ToBytes, Constant, Blocks;
    var t, c, n := ToBytes(total, 4), Constant(req), ToBytes(|chunk|, 4);
    var body := Blocks(chunk) + Zeros(BANDWIDTH_QUERY_LENGTH - HEADER - BLOCK * |chunk|);
    var clear := Zeros(BANDWIDTH_QUERY_LENGTH - HEADER);
    assert Message(req, total, start, chunk) == t + ToBytes(start, 4) + (n + c + body);
    SpliceMiddle(t, ToBytes(start, 4), ToBytes(next, 4), n + c + body);
    var front := t + ToBytes(next, 4) + n + c;
    assert t + ToBytes(next, 4) + (n + c + body) == front + body + [];
    SpliceMiddle(front, body, clear, []);
    assert front + clear + [] == t + ToBytes(next, 4) + n + (c + clear);
    SpliceMiddle(t + ToBytes(next, 4), n, ToBytes(0, 4), c + clear);
    assert |Blocks([])| == 0;
    assert t + ToBytes(next, 4) + ToBytes(0, 4) + (c + clear) == Message(req, total, next, []);
  }

  /** The number of blocks that fit behind the header: a 583rd does not. */
  const CAPACITY := 582

  /** The `k`-th piece of the list: as many entries as fit, or what is left. */
  function Chunk(data: seq<IpBw>, k: nat): (r: seq<IpBw>)
    requires CAPACITY * k <= |data|
    ensures |r| <= CAPACITY
  {
    data[CAPACITY * k..if CAPACITY * (k + 1) <= |data| then CAPACITY * (k + 1) else |data|]
  }

  /** The first `|log|` messages of the transfer. */
  ghost predicate Sent(log: seq<seq<byte>>, req: Request, data: seq<IpBw>) {
    && (log != [] ==> CAPACITY * (|log| - 1) <= |data|)
    && forall k :: 0 <= k < |log| ==> log[k] == Message(req, |data|, CAPACITY * k, Chunk(data, k))
  }

  /** How many messages a list of `n` entries takes; an empty list takes one. */
  function MessageCount(n: nat): nat {
    if n == 0 then 1 else (n + CAPACITY - 1) / CAPACITY
  }

  /** The message loop of `set_bandwidth_data`: sends the list in order, every
      message but the last one full. */
  method SendUsage(req: Request, data: seq<IpBw>) returns (log: seq<seq<byte>>)
    requires |data| < 0x1_0000_0000
    ensures Sent(log, req, data) && |log| == MessageCount(|data|)
  {
    hide Message, Splice, ToBytes, Zeros, Block, Sent, MessageCount, Chunk;
    SentNothing(req, data);
    var buf := Prepare(req, |data|);
    var nextIpIndex, done := 0, false;
    ghost var start, chunk: seq<IpBw> := 0, [];
    log := [];
    SpliceSame(req, |data|);
    while !done
      invariant Sent(log, req, data)
      invariant HEADER + BLOCK * |chunk| <= BANDWIDTH_QUERY_LENGTH == buf.Length
      invariant buf[..] == Splice(Message(req, |data|, start, chunk), 4, ToBytes(nextIpIndex, 4))
      invariant !done ==> nextIpIndex == CAPACITY * |log| <= |data| && (log != [] ==> nextIpIndex < |data|)
      invariant done ==> |log| == MessageCount(|data|)
      decreases |data| - nextIpIndex, !done
    {
      MessageRestarts(req, |data|, start, chunk, nextIpIndex);
      Put(buf, HEADER, Zeros(BANDWIDTH_QUERY_LENGTH - HEADER));
      Put(buf, 8, ToBytes(0, 4));
      var ipIndex := FillBuffer(req, data, buf, nextIpIndex);
      start, chunk := nextIpIndex, data[nextIpIndex..ipIndex];
      done := ipIndex >= |data|;
      SentMore(log, req, data, chunk, ipIndex);
      log := log + [buf[..]];
      Put(buf, 4, ToBytes(ipIndex, 4));
      nextIpIndex := ipIndex;
    }
  }

  lemma SentNothing(req: Request, data: seq<IpBw>)
    ensures Sent([], req, data)
  {
  }

  lemma SentMore(log: seq<seq<byte>>, req: Request, data: seq<IpBw>, chunk: seq<IpBw>, next: nat)
    requires Sent(log, req, data) && CAPACITY * |log| <= |data| && (log != [] ==> CAPACITY * |log| < |data|)
    requires next == if CAPACITY * |log| + CAPACITY <= |data| then CAPACITY * |log| + CAPACITY else |data|
    requires chunk == data[CAPACITY * |log|..next]
    ensures Sent(log + [Message(req, |data|, CAPACITY * |log|, chunk)], req, data)
    ensures next == |data| ==> |log| + 1 == MessageCount(|data|)
    ensures next < |data| ==> next == CAPACITY * (|log| + 1)
  {
    hide Message;
    assert chunk == Chunk(data, |log|);
  }

  lemma SpliceSame(req: Request, total: nat)
    ensures var m := Message(req, total, 0, []);
            Splice(m, 4, ToBytes(0, 4)) == m
  {
  }

  lemma ChunkGrows(data: seq<IpBw>, first: nat, i: nat)
    requires first <= i < |data|
    ensures data[first..i] + [data[i]] == data[first..i + 1]
  {
  }

  /** The inner loop: add blocks until the buffer is full or the list ends. */
  method FillBuffer(req: Request, data: seq<IpBw>, buf: array<byte>, first: nat) returns (ipIndex: nat)
    requires buf.Length == BANDWIDTH_QUERY_LENGTH && first <= |data| < 0x1_0000_0000
    requires buf[..] == Message(req, |data|, first, [])
    modifies buf
    ensures first <= ipIndex <= |data| && ipIndex == if first + CAPACITY <= |data| then first + CAPACITY else |data|
    ensures HEADER + BLOCK * (ipIndex - first) <= BANDWIDTH_QUERY_LENGTH
    ensures buf[..] == Message(req, |data|, first, data[first..ipIndex])
  {
    hide Message, Splice, ToBytes, Zeros, Block;
    ipIndex := first;
    var bufIndex, numIpsInBuffer, bufferFull, done := HEADER, 0, false, first >= |data|;
    ghost var chunk := data[first..ipIndex];
    assert chunk == [];
    while !bufferFull && !done
      invariant first <= ipIndex <= |data| && done == (ipIndex >= |data|)
      invariant numIpsInBuffer == ipIndex - first && bufIndex == HEADER + BLOCK * numIpsInBuffer <= BANDWIDTH_QUERY_LENGTH
      invariant bufferFull ==> bufIndex + BLOCK > BANDWIDTH_QUERY_LENGTH
      invariant chunk == data[first..ipIndex] && buf[..] == Message(req, |data|, first, chunk)
      decreases |data| - ipIndex, !bufferFull
    {
      bufferFull, bufIndex := SetIpBlock(data[ipIndex], buf, bufIndex);
      if !bufferFull {
        MessageGrows(req, |data|, first, chunk, data[ipIndex]);
        ChunkGrows(data, first, ipIndex);
        chunk := chunk + [data[ipIndex]];
        ipIndex := ipIndex + 1;
        numIpsInBuffer := numIpsInBuffer + 1;
        Put(buf, 8, ToBytes(numIpsInBuffer, 4));
      }
      done := ipIndex >= |data|;
    }
  }

  /** The fields of the header that `set_bandwidth_data` sets once. */
  method Prepare(req: Request, total: nat) returns (buf: array<byte>)
    ensures fresh(buf) && buf[..] == Message(req, total, 0, [])
  {
    hide ToBytes;
    buf := new byte[BANDWIDTH_QUERY_LENGTH](_ => 0);
    ghost var s := buf[..];
    ghost var h := ToBytes(total, 4);
    Put(buf, 0, ToBytes(total, 4));
    Put(buf, 4, ToBytes(0, 4));
    SpliceTwice(s, 0, h, ToBytes(0, 4));
    h := h + ToBytes(0, 4);
    Put(buf, 8, ToBytes(0, 4));
    SpliceTwice(s, 0, h, ToBytes(0, 4));
    h := h + ToBytes(0, 4);
    Put(buf, 12, [0]);
    SpliceTwice(s, 0, h, [0]);
    h := h + [0];
    Put(buf, 13, [req.zeroUnset]);
    SpliceTwice(s, 0, h, [req.zeroUnset]);
    h := h + [req.zeroUnset];
    Put(buf, 14, ToBytes(req.lastBackup, 8));
    SpliceTwice(s, 0, h, ToBytes(req.lastBackup, 8));
    h := h + ToBytes(req.lastBackup, 8);
    Put(buf, 22, IdField(req.id));
    SpliceTwice(s, 0, h, IdField(req.id));
    HeaderParts(req, total, s, h + IdField(req.id));
  }

  lemma HeaderParts(req: Request, total: nat, s: seq<byte>, h: seq<byte>)
    requires |s| == BANDWIDTH_QUERY_LENGTH && forall k :: 0 <= k < |s| ==> s[k] == 0
    requires h == ToBytes(total, 4) + ToBytes(0, 4) + ToBytes(0, 4) + [0] + [req.zeroUnset] + ToBytes(req.lastBackup, 8) + IdField(req.id)
    ensures Splice(s, 0, h) == Message(req, total, 0, [])
  {
  }

  // ---- End to end -------------------------------------------------------------------------------

  ghost function ReceiveAll(log: seq<seq<byte>>): seq<IpBw>
    requires FullSize(log)
  {
    if log == [] then [] else ReceiveAll(log[..|log| - 1]) + Receive(log[|log| - 1])
  }

  lemma SentPrefix(log: seq<seq<byte>>, req: Request, data: seq<IpBw>)
    requires Sent(log, req, data) && log != []
    ensures Sent(log[..|log| - 1], req, data)
    ensures CAPACITY * (|log| - 1) <= |data| && log[|log| - 1] == Message(req, |data|, CAPACITY * (|log| - 1), Chunk(data, |log| - 1))
  {
  }

  ghost predicate FullSize(log: seq<seq<byte>>) {
    forall k :: 0 <= k < |log| ==> |log[k]| == BANDWIDTH_QUERY_LENGTH
  }

  lemma {:induction false} SentReceived(log: seq<seq<byte>>, req: Request, data: seq<IpBw>)
    requires Sent(log, req, data) && |data| < 0x1_0000_0000
    ensures FullSize(log)
    ensures ReceiveAll(log) == data[..if CAPACITY * |log| <= |data| then CAPACITY * |log| else |data|]
  {
    hide Message, Receive, Sent;
    if log != [] {
      var front, k := log[..|log| - 1], |log| - 1;
      SentPrefix(log, req, data);
      SentReceived(front, req, data);
      MessageReceived(req, |data|, CAPACITY * k, Chunk(data, k));
    }
  }

  /** The header fields of a message agree with what it carries. */
  ghost predicate Labelled(m: seq<byte>, total: nat, start: nat) {
    && |m| == BANDWIDTH_QUERY_LENGTH
    && Read32(m, 0) == total && Read32(m, 4) == start && Read32(m, 8) == |Receive(m)|
    && forall i :: 72 + 28 * |Receive(m)| <= i < |m| ==> m[i] == 0
  }

  lemma MessageCleared(req: Request, total: nat, start: nat, chunk: seq<IpBw>)
    requires HEADER + BLOCK * |chunk| <= BANDWIDTH_QUERY_LENGTH
    ensures forall i :: 72 + 28 * |chunk| <= i < BANDWIDTH_QUERY_LENGTH ==> Message(req, total, start, chunk)[i] == 0
  {
    hide ToBytes, Blocks, Constant;
  }

  lemma SentLabelled(log: seq<seq<byte>>, req: Request, data: seq<IpBw>, k: nat)
    requires Sent(log, req, data) && |data| < 0x1_0000_0000 && k < |log|
    ensures Labelled(log[k], |data|, CAPACITY * k) && Addressed(log[k], req)
  {
    hide Message, Receive, Addressed;
    MessageReceived(req, |data|, CAPACITY * k, Chunk(data, k));
    MessageAddressed(req, |data|, CAPACITY * k, Chunk(data, k));
    MessageCleared(req, |data|, CAPACITY * k, Chunk(data, k));
  }

  /** The transfer is lossless: the messages' blocks, in order, are the list; the
      start indices are consecutive, every count field is right, and every message
      names the quota. */
  lemma TransferLossless(log: seq<seq<byte>>, req: Request, data: seq<IpBw>)
    requires Sent(log, req, data) && |log| == MessageCount(|data|) && |data| < 0x1_0000_0000
    ensures FullSize(log) && ReceiveAll(log) == data
    ensures forall k :: 0 <= k < |log| ==> Labelled(log[k], |data|, CAPACITY * k) && Addressed(log[k], req)
  {
    hide Message, Receive, Sent, Labelled, Addressed;
    SentReceived(log, req, data);
    forall k | 0 <= k < |log| ensures Labelled(log[k], |data|, CAPACITY * k) && Addressed(log[k], req) {
      SentLabelled(log, req, data, k);
    }
  }
}
