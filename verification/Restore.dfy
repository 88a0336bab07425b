/** Restoring a quota: the backup is read and its counters are handed to the
    kernel while any number of other processes do the same. */
module Restore {
  import opened Bytes
  import opened Semaphore
  import opened Tokens
  import opened Transfer
  import opened Usage

  /** The messages that the `k`-th call to get the lock was started with. */
  function JobMessages(steps: seq<Step<seq<byte>>>, k: nat): seq<seq<byte>>
    requires k < |Granted(steps)| && Granted(steps)[k] < |steps|
  {
    steps[Granted(steps)[k]].job.msgs
  }

  /** Call `k` got the lock and is over, and it was started with the messages of a
      transfer of `data`. */
  ghost predicate CallDone(steps: seq<Step<seq<byte>>>, k: nat, req: Request, data: seq<IpBw>) {
    && k < |Granted(steps)| && Granted(steps)[k] < |steps| && (k < |Granted(steps)| - 1 || Run(steps).owner.None?)
    && Sent(JobMessages(steps, k), req, data) && |JobMessages(steps, k)| == MessageCount(|data|)
  }

  /** The messages of call `k` stand together in the kernel's log, after those of
      the calls before it; all of them name this quota, and the kernel reads `data`
      from them. */
  ghost predicate Delivered(s: State<seq<byte>>, k: nat, req: Request, data: seq<IpBw>) {
    && k < |s.calls|
    && var at := |Flatten(s.calls[..k])|;
       var end := at + MessageCount(|data|);
       && end <= |s.log| && FullSize(s.log[at..end]) && ReceiveAll(s.log[at..end]) == data
       && forall i :: at <= i < end ==> Addressed(s.log[i], req)
  }

  /** In every interleaving every call that is over delivers its counters. */
  lemma CallDelivers(steps: seq<Step<seq<byte>>>, k: nat, req: Request, data: seq<IpBw>)
    requires CallDone(steps, k, req, data) && |data| < 0x1_0000_0000
    ensures Delivered(Run(steps), k, req, data)
  {
    hide Run, Flatten, ReceiveAll, Sent, Granted, Addressed, Labelled, MessageCount;
    var s := Run(steps);
    RunGrants(steps);
    var before, msgs := Flatten(s.calls[..k]), s.calls[k].msgs;
    assert msgs == JobMessages(steps, k);
    CallContiguous(steps, k);
    var at, end := |before|, |before| + |msgs|;
    assert s.log[at..end] == msgs;
    TransferLossless(msgs, req, data);
    forall i | at <= i < end ensures Addressed(s.log[i], req) {
      assert s.log[i] == msgs[i - at];
    }
  }

  /** Such a call is always possible: whatever has happened, a process that starts
      it while nobody holds the lock, and is then left alone, completes it. */
  lemma CallPossible(steps: seq<Step<seq<byte>>>, p: int, wait: nat, msgs: seq<seq<byte>>, req: Request, data: seq<IpBw>)
    requires Run(steps).owner.None? && Run(steps).At(p).Idle?
    requires Sent(msgs, req, data) && |msgs| == MessageCount(|data|)
    ensures exists more: seq<Step<seq<byte>>>, k: nat :: CallDone(steps + more, k, req, data)
  {
    hide Run, Sent, MessageCount, Granted;
    var job := Job(wait, msgs);
    var more := seq(CallLength(Run(steps).At(p).known, msgs), _ => Step(p, job, false));
    SoloCompletes(steps, p, job);
    RunGrants(steps + more);
    var k := |Run(steps).calls|;
    assert Run(steps + more).calls[k] == Call(p, msgs);
    assert CallDone(steps + more, k, req, data);
  }

  /** A restore delivers the counters that the backup saved. */
  lemma RestoreDelivers(steps: seq<Step<seq<byte>>>, k: nat, req: Request, now: int, data: seq<IpBw>, lib: Library)
    requires Faithful(lib) && KnownFamilies(data) && |data| < 0x1_0000_0000
    requires CallDone(steps, k, req, Loaded(Pieces(Text(now, data, lib), WHITESPACE), lib).data)
    ensures exists restored: seq<IpBw> :: AllRestored(restored, data) && Delivered(Run(steps), k, req, restored)
  {
    hide Run, CallDone, Delivered, Loaded, Text, AllRestored, KnownFamilies;
    UsageRoundTrip(now, data, lib);
    var restored := Loaded(Pieces(Text(now, data, lib), WHITESPACE), lib).data;
    RestoredLength(restored, data);
    CallDelivers(steps, k, req, restored);
  }

  lemma RestoredLength(restored: seq<IpBw>, data: seq<IpBw>)
    requires AllRestored(restored, data)
    ensures |restored| == |data|
  {
  }
}
