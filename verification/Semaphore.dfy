/** The System V semaphore that serialises bulk transfers to the kernel: any
    number of processes create, initialise, lock and unlock it in any
    interleaving of their system calls. */
module Semaphore {
  import opened Wrappers

  /** One `set_bandwidth_data` call: how long it will wait for the lock and the
      messages it will hand to the kernel. */
  datatype Job<M> = Job(wait: nat, msgs: seq<M>)

  /** What a process does next. Only system calls are steps. */
  datatype Proc<M> =
    | Idle(known: bool)              // not in a call; `known`: has the semaphore id
    | Creating(job: Job<M>)          // semget with IPC_CREAT|IPC_EXCL
    | Initialising(job: Job<M>)      // created it; SETVAL 1
    | Opening(job: Job<M>)           // semget of an existing one
    | Reading(job: Job<M>)           // lock_sem: GETVAL
    | Downing(job: Job<M>)           // lock_sem: semop -1
    | Holding(msgs: seq<M>, sent: nat) // setsockopt, or done sending
    | Releasing                      // unlock_sem: GETVAL
    | Upping                         // unlock_sem: semop +1

  datatype Sem = Absent | Present(value: nat)

  datatype Call<M> = Call(pid: int, msgs: seq<M>)

  /** The kernel's semaphore and message log, the processes, and as history the
      calls that got the lock, in that order, and who owns the semaphore. */
  datatype State<M> = State(sem: Sem, procs: map<int, Proc<M>>, log: seq<M>, calls: seq<Call<M>>, owner: Option<int>) {
    function At(p: int): Proc<M> {
      if p in procs then procs[p] else Idle(false)
    }

    function Go(p: int, next: Proc<M>): State<M> {
      this.(procs := procs[p := next])
    }
  }

  function Initial<M>(): State<M> {
    State(Absent, map[], [], [], None)
  }

  /** One step of process `p`; `job` is used when it starts a call, and `fault`
      lets a semget fail for a reason of its own. */
  datatype Step<M> = Step(p: int, job: Job<M>, fault: bool)

  function Next<M>(s: State<M>, step: Step<M>): State<M> {
    var p := step.p;
    match s.At(p)
    case Idle(known) => s.Go(p, if known then Reading(step.job) else Creating(step.job))
    case Creating(job) =>
      if s.sem.Present? || step.fault then s.Go(p, Opening(job))
      else s.(sem := Present(0), owner := Some(p)).Go(p, Initialising(job))
    case Initialising(job) => s.(sem := Present(1), owner := None).Go(p, Reading(job))
    case Opening(job) => s.Go(p, if s.sem.Absent? || step.fault then Idle(false) else Reading(job))
    case Reading(job) => s.Go(p, if s.sem.Present? && s.sem.value > 0 then Downing(job) else AfterMiss(job))
    case Downing(job) =>
      if s.sem.Present? && s.sem.value > 0 then
        s.(sem := Present(s.sem.value - 1), owner := Some(p), calls := s.calls + [Call(p, job.msgs)]).Go(p, Holding(job.msgs, 0))
      else s.Go(p, AfterMiss(job))
    case Holding(msgs, sent) =>
      if sent < |msgs| then s.(log := s.log + [msgs[sent]]).Go(p, Holding(msgs, sent + 1)) else s.Go(p, Releasing)
    case Releasing => s.Go(p, if s.sem.Present? && s.sem.value == 0 then Upping else Idle(true))
    case Upping =>
      s.(sem := if s.sem.Present? then Present(s.sem.value + 1) else s.sem, owner := None).Go(p, Idle(true))
  }

  /** The loop of `lock` after an attempt that failed. */
  function AfterMiss<M>(job: Job<M>): Proc<M> {
    if job.wait > 25 then Reading(job.(wait := job.wait - 25)) else Idle(true)
  }

  // ---- Mutual exclusion ------------------------------------------------------------------

  /** The semaphore counts for this process: it initialises it or has taken it. */
  predicate Owns<M>(proc: Proc<M>) {
    proc.Initialising? || Holds(proc)
  }

  /** Between a successful `lock` and the end of `unlock`. */
  predicate Holds<M>(proc: Proc<M>) {
    proc.Holding? || proc.Releasing? || proc.Upping?
  }

  predicate UsesId<M>(proc: Proc<M>) {
    !(proc.Idle? && !proc.known) && !proc.Creating? && !proc.Opening?
  }

  /** The value and the owner always add up to one, from creation on; nobody
      uses a semaphore that does not exist. */
  ghost predicate Exclusive<M>(s: State<M>) {
    && (forall p :: Owns(s.At(p)) <==> s.owner == Some(p))
    && (s.sem.Absent? ==> s.owner == None && forall p :: !UsesId(s.At(p)))
    && (s.sem.Present? ==> s.sem.value == if s.owner.None? then 1 else 0)
  }

  lemma StepExclusive<M>(s: State<M>, step: Step<M>)
    requires Exclusive(s)
    ensures Exclusive(Next(s, step))
  {
    hide Next, Owns, UsesId;
    var p, t := step.p, Next(s, step);
    assert Owns(s.At(p)) <==> s.owner == Some(p);
    assert UsesId(s.At(p)) ==> s.sem.Present?;
    StepOwner(s, step);
    forall q ensures Owns(t.At(q)) <==> t.owner == Some(q) {
      OthersStay(s, step, q);
    }
    if t.sem.Absent? {
      forall q ensures !UsesId(t.At(q)) {
        OthersStay(s, step, q);
      }
    }
  }

  lemma OthersStay<M>(s: State<M>, step: Step<M>, q: int)
    ensures q != step.p ==> Next(s, step).At(q) == s.At(q)
  {
  }

  /** What one step does to the semaphore and its owner. */
  lemma StepOwner<M>(s: State<M>, step: Step<M>)
    requires Owns(s.At(step.p)) <==> s.owner == Some(step.p)
    requires UsesId(s.At(step.p)) ==> s.sem.Present?
    requires s.sem.Absent? ==> s.owner == None
    requires s.sem.Present? ==> s.sem.value == if s.owner.None? then 1 else 0
    ensures var p, t := step.p, Next(s, step);
      && (Owns(t.At(p)) <==> t.owner == Some(p))
      && (t.owner == s.owner || ((t.owner == None || t.owner == Some(p)) && (s.owner == None || s.owner == Some(p))))
      && (t.sem.Absent? ==> s.sem.Absent? && t.owner == None && !UsesId(t.At(p)))
      && (t.sem.Present? ==> t.sem.value == if t.owner.None? then 1 else 0)
  {
  }

  // ---- Serialised transfers ----------------------------------------------------------------

  function Flatten<M>(calls: seq<Call<M>>): seq<M> {
    if calls == [] then [] else Flatten(calls[..|calls| - 1]) + calls[|calls| - 1].msgs
  }

  /** The log is the calls in lock order, each one whole, except that the call
      now holding the lock may not have sent everything yet. */
  ghost predicate Serialised<M>(s: State<M>) {
    match s.owner
    case Some(p) =>
      if s.At(p).Holding? then
        && s.calls != [] && s.calls[|s.calls| - 1] == Call(p, s.At(p).msgs) && s.At(p).sent <= |s.At(p).msgs|
        && s.log == Flatten(s.calls[..|s.calls| - 1]) + s.At(p).msgs[..s.At(p).sent]
      else s.log == Flatten(s.calls)
    case None => s.log == Flatten(s.calls)
  }

  lemma StepSerialised<M>(s: State<M>, step: Step<M>)
    requires Exclusive(s) && Serialised(s)
    ensures Serialised(Next(s, step))
  {
    if s.At(step.p).Holding? {
      HolderSends(s, step);
    } else {
      OthersWait(s, step);
    }
  }

  lemma HolderSends<M>(s: State<M>, step: Step<M>)
    requires Exclusive(s) && Serialised(s) && s.At(step.p).Holding?
    ensures Serialised(Next(s, step))
  {
    hide Flatten;
    var p := step.p;
    var msgs, sent := s.At(p).msgs, s.At(p).sent;
    assert Owns(s.At(p));
    if sent < |msgs| {
      assert msgs[..sent] + [msgs[sent]] == msgs[..sent + 1];
    } else {
      assert msgs[..sent] == msgs;
      FlattenLast(s.calls);
    }
  }

  lemma FlattenLast<M>(calls: seq<Call<M>>)
    requires calls != []
    ensures Flatten(calls) == Flatten(calls[..|calls| - 1]) + calls[|calls| - 1].msgs
  {
  }

  lemma OthersWait<M>(s: State<M>, step: Step<M>)
    requires Exclusive(s) && Serialised(s) && !s.At(step.p).Holding?
    ensures Serialised(Next(s, step))
  {
    hide Flatten, Next, Exclusive;
    var p, t := step.p, Next(s, step);
    OwnerMoves(s, step);
    SilentStep(s, step);
    if t.At(p).Holding? {
      assert t.calls[..|t.calls| - 1] == s.calls && t.At(p).msgs[..0] == [];
    } else if s.owner.Some? {
      OthersStay(s, step, s.owner.value);
    }
  }

  lemma OwnerMoves<M>(s: State<M>, step: Step<M>)
    requires Exclusive(s)
    ensures var p, t := step.p, Next(s, step);
            t.owner == s.owner || ((t.owner == None || t.owner == Some(p)) && (s.owner == None || s.owner == Some(p)))
  {
    hide Next, Owns, UsesId;
    var p := step.p;
    assert Owns(s.At(p)) <==> s.owner == Some(p);
    assert UsesId(s.At(p)) ==> s.sem.Present?;
    StepOwner(s, step);
  }

  /** A step of a process that is not sending adds nothing to the log, and a call
      only when it takes the lock. */
  lemma SilentStep<M>(s: State<M>, step: Step<M>)
    requires !s.At(step.p).Holding?
    ensures var p, t := step.p, Next(s, step);
      && t.log == s.log
      && if t.At(p).Holding? then t.owner == Some(p) && t.At(p).sent == 0 && t.calls == s.calls + [Call(p, t.At(p).msgs)]
         else t.calls == s.calls
  {
  }

  function Run<M>(steps: seq<Step<M>>): State<M> {
    if steps == [] then Initial() else Next(Run(steps[..|steps| - 1]), steps[|steps| - 1])
  }

  /** In every interleaving of any number of processes. */
  lemma {:induction false} RunSafe<M>(steps: seq<Step<M>>)
    ensures Exclusive(Run(steps)) && Serialised(Run(steps))
  {
    if steps != [] {
      RunSafe(steps[..|steps| - 1]);
      StepExclusive(Run(steps[..|steps| - 1]), steps[|steps| - 1]);
      StepSerialised(Run(steps[..|steps| - 1]), steps[|steps| - 1]);
    }
  }

  /** Mutual exclusion, and that the value and the holders never exceed one. */
  lemma AtMostOneHolder<M>(steps: seq<Step<M>>, p: int, q: int)
    requires Holds(Run(steps).At(p))
    ensures Holds(Run(steps).At(q)) ==> p == q
    ensures Run(steps).sem == Present(0)
  {
    RunSafe(steps);
  }

  /** A holder's `unlock` always finds the semaphore at 0 and raises it. */
  lemma UnlockRaises<M>(steps: seq<Step<M>>, step: Step<M>)
    requires Run(steps).At(step.p).Releasing?
    ensures Next(Run(steps), step).At(step.p) == Upping
  {
    RunSafe(steps);
  }

  /** The messages of every call that is over stand in the log as one block. */
  lemma CallContiguous<M>(steps: seq<Step<M>>, k: nat)
    requires var s := Run(steps); k < |s.calls| && (k < |s.calls| - 1 || s.owner == None)
    ensures var s := Run(steps);
            Flatten(s.calls[..k]) + s.calls[k].msgs <= s.log
  {
    hide Run, Exclusive, Flatten;
    RunSafe(steps);
    var s := Run(steps);
    if s.log == Flatten(s.calls) {
      FlattenPrefix(s.calls, k);
    } else {
      var front := s.calls[..|s.calls| - 1];
      FlattenPrefix(front, k);
      assert front[..k] == s.calls[..k];
    }
  }

  lemma {:induction false} FlattenPrefix<M>(calls: seq<Call<M>>, k: nat)
    requires k < |calls|
    ensures Flatten(calls[..k]) + calls[k].msgs <= Flatten(calls)
    decreases |calls|
  {
    hide Flatten;
    var front := calls[..|calls| - 1];
    FlattenLast(calls);
    if k < |calls| - 1 {
      FlattenPrefix(front, k);
      assert front[..k] == calls[..k];
    }
  }

  // ---- The call behind every entry -----------------------------------------------------------

  /** The step with which process `p` started the call it is in, or was last in:
      the last one it took while idle. */
  function StartOf<M>(steps: seq<Step<M>>, p: int): (r: Option<nat>)
    ensures r.Some? ==> r.value < |steps| && steps[r.value].p == p
  {
    if steps == [] then None
    else
      var front, step := steps[..|steps| - 1], steps[|steps| - 1];
      if step.p == p && Run(front).At(p).Idle? then Some(|front|) else StartOf(front, p)
  }

  /** It was idle there. */
  lemma {:induction false} StartOfIdle<M>(steps: seq<Step<M>>, p: int)
    ensures StartOf(steps, p).Some? ==> Run(steps[..StartOf(steps, p).value]).At(p).Idle?
  {
    hide Run;
    if steps != [] {
      var front := steps[..|steps| - 1];
      StartOfIdle(front, p);
      if StartOf(front, p).Some? {
        assert front[..StartOf(front, p).value] == steps[..StartOf(front, p).value];
      }
    }
  }

  /** A process is busy with the job it started its call with; only the time it is
      still ready to wait has become less, by the steps of the waiting loop. */
  ghost predicate BusyWith<M>(proc: Proc<M>, job: Job<M>) {
    match proc
    case Idle(_) => true
    case Creating(j) => j == job
    case Initialising(j) => j == job
    case Opening(j) => j == job
    case Reading(j) => j.msgs == job.msgs && j.wait <= job.wait && (job.wait - j.wait) % 25 == 0
    case Downing(j) => j.msgs == job.msgs && j.wait <= job.wait && (job.wait - j.wait) % 25 == 0
    case Holding(msgs, sent) => msgs == job.msgs && sent <= |job.msgs|
    case Releasing => true
    case Upping => true
  }

  lemma StepBusy<M>(s: State<M>, step: Step<M>, job: Job<M>)
    requires BusyWith(s.At(step.p), job)
    ensures BusyWith(Next(s, step).At(step.p), if s.At(step.p).Idle? then step.job else job)
  {
  }

  /** In every run, every process that is not idle works on the job of the step that
      started its call. */
  lemma {:induction false} RunBusy<M>(steps: seq<Step<M>>, p: int)
    ensures !Run(steps).At(p).Idle? ==> StartOf(steps, p).Some? && BusyWith(Run(steps).At(p), steps[StartOf(steps, p).value].job)
  {
    hide BusyWith, Next;
    if steps != [] {
      var front, step := steps[..|steps| - 1], steps[|steps| - 1];
      RunBusy(front, p);
      var before := Run(front);
      if step.p != p {
        OthersStay(before, step, p);
      } else if before.At(p).Idle? {
        IdleBusy(before.At(p), step.job);
        StepBusy(before, step, step.job);
      } else {
        StepBusy(before, step, front[StartOf(front, p).value].job);
      }
    }
  }

  lemma IdleBusy<M>(proc: Proc<M>, job: Job<M>)
    requires proc.Idle?
    ensures BusyWith(proc, job)
  {
  }

  /** The calls that got the lock, in that order, each by the step that started it:
      read off the run without looking at its history. */
  function Granted<M>(steps: seq<Step<M>>): seq<nat> {
    if steps == [] then []
    else
      var front, p := steps[..|steps| - 1], steps[|steps| - 1].p;
      var start := StartOf(front, p);
      Granted(front) + if !Holds(Run(front).At(p)) && Holds(Run(steps).At(p)) && start.Some? then [start.value] else []
  }

  function CallAt<M>(steps: seq<Step<M>>, i: nat): Call<M>
    requires i < |steps|
  {
    Call(steps[i].p, steps[i].job.msgs)
  }

  /** The recorded calls are those of the jobs with which the processes started. */
  ghost predicate Recorded<M>(calls: seq<Call<M>>, steps: seq<Step<M>>, granted: seq<nat>) {
    && |calls| == |granted|
    && forall k :: 0 <= k < |granted| ==> granted[k] < |steps| && calls[k] == CallAt(steps, granted[k])
  }

  lemma RecordedMore<M>(calls: seq<Call<M>>, steps: seq<Step<M>>, step: Step<M>, granted: seq<nat>)
    requires Recorded(calls, steps, granted)
    ensures Recorded(calls, steps + [step], granted)
  {
  }

  lemma RecordedCall<M>(calls: seq<Call<M>>, steps: seq<Step<M>>, granted: seq<nat>, i: nat)
    requires Recorded(calls, steps, granted) && i < |steps|
    ensures Recorded(calls + [CallAt(steps, i)], steps, granted + [i])
  {
  }

  /** The only step that records a call is the one that takes the lock. */
  lemma StepGrants<M>(s: State<M>, step: Step<M>)
    ensures var p, t := step.p, Next(s, step);
      if !Holds(s.At(p)) && Holds(t.At(p)) then s.At(p).Downing? && t.At(p).Holding? && t.calls == s.calls + [Call(p, t.At(p).msgs)]
      else t.calls == s.calls
  {
  }

  lemma {:induction false} RunGrants<M>(steps: seq<Step<M>>)
    ensures Recorded(Run(steps).calls, steps, Granted(steps))
  {
    hide Next, BusyWith, Holds, Recorded;
    if steps == [] {
      NothingRecorded<M>();
    } else {
      var front, step := steps[..|steps| - 1], steps[|steps| - 1];
      var p := step.p;
      RunGrants(front);
      StepGrants(Run(front), step);
      assert steps == front + [step];
      RecordedMore(Run(front).calls, front, step, Granted(front));
      if !Holds(Run(front).At(p)) && Holds(Run(steps).At(p)) {
        RunBusy(front, p);
        RunBusy(steps, p);
        var i := StartOf(front, p).value;
        assert StartOf(steps, p) == Some(i) && steps[i] == front[i];
        HoldingBusy(Run(steps).At(p), steps[i].job);
        RecordedCall(Run(front).calls, steps, Granted(front), i);
      } else {
        assert Granted(front) + [] == Granted(front);
      }
    }
  }

  lemma NothingRecorded<M>()
    ensures Recorded<M>([], [], [])
  {
  }

  lemma HoldingBusy<M>(proc: Proc<M>, job: Job<M>)
    requires BusyWith(proc, job) && proc.Holding?
    ensures proc.msgs == job.msgs
  {
  }

  // ---- A process that is left alone ----------------------------------------------------------

  /** `n` times the same step. */
  function Solo<M>(s: State<M>, step: Step<M>, n: nat): State<M> {
    if n == 0 then s else Next(Solo(s, step, n - 1), step)
  }

  lemma {:induction false} SoloRuns<M>(steps: seq<Step<M>>, step: Step<M>, n: nat)
    ensures Run(steps + seq(n, _ => step)) == Solo(Run(steps), step, n)
  {
    hide Next;
    var more := seq(n, _ => step);
    if n == 0 {
      assert steps + more == steps;
    } else {
      var fewer := seq(n - 1, _ => step);
      SoloRuns(steps, step, n - 1);
      assert more == fewer + [step];
      assert (steps + more)[..|steps + more| - 1] == steps + fewer;
    }
  }

  lemma {:induction false} SoloAdds<M>(s: State<M>, step: Step<M>, m: nat, n: nat)
    ensures Solo(Solo(s, step, m), step, n) == Solo(s, step, m + n)
    decreases n
  {
    hide Next;
    if n > 0 {
      SoloAdds(s, step, m, n - 1);
    }
  }

  lemma {:induction false} SoloSends<M>(s: State<M>, step: Step<M>, msgs: seq<M>, n: nat)
    requires s.At(step.p) == Holding(msgs, 0) && n <= |msgs|
    ensures Solo(s, step, n) == s.(log := s.log + msgs[..n]).Go(step.p, Holding(msgs, n))
  {
    hide Next;
    if n == 0 {
      assert s.procs[step.p := Holding(msgs, 0)] == s.procs;
    } else {
      SoloSends(s, step, msgs, n - 1);
      SendsOne(s.(log := s.log + msgs[..n - 1]), step, msgs, n - 1);
      assert s.log + msgs[..n - 1] + [msgs[n - 1]] == s.log + msgs[..n];
    }
  }

  lemma SendsOne<M>(s: State<M>, step: Step<M>, msgs: seq<M>, sent: nat)
    requires sent < |msgs|
    ensures Next(s.Go(step.p, Holding(msgs, sent)), step)
         == s.(log := s.log + [msgs[sent]]).Go(step.p, Holding(msgs, sent + 1))
  {
    SameProc(s, step.p, Holding(msgs, sent), Holding(msgs, sent + 1));
  }

  /** How many system calls a call takes that nobody disturbs. */
  function CallLength<M>(known: bool, msgs: seq<M>): nat {
    (if known then 1 else 3) + 2 + |msgs| + 3
  }

  /** Whatever has happened before: a process that starts a call while nobody holds
      the lock, and then runs alone, delivers all its messages and gives the lock back. */
  lemma SoloCompletes<M>(steps: seq<Step<M>>, p: int, job: Job<M>)
    requires Run(steps).owner.None? && Run(steps).At(p).Idle?
    ensures var s := Run(steps);
      Run(steps + seq(CallLength(s.At(p).known, job.msgs), _ => Step(p, job, false)))
      == State(Present(1), s.procs[p := Idle(true)], s.log + job.msgs, s.calls + [Call(p, job.msgs)], None)
  {
    hide Run, Solo;
    RunSafe(steps);
    var s, step := Run(steps), Step(p, job, false);
    var n := if s.At(p).known then 1 else 3;
    SoloRuns(steps, step, CallLength(s.At(p).known, job.msgs));
    SoloStarts(s, step);
    var ready := s.(sem := Present(1)).Go(p, Reading(job));
    SoloTakes(ready, step, job);
    SoloAdds(s, step, n, 2);
    var held := ready.(sem := Present(0), owner := Some(p), calls := s.calls + [Call(p, job.msgs)]).Go(p, Holding(job.msgs, 0));
    SoloSends(held, step, job.msgs, |job.msgs|);
    SoloAdds(s, step, n + 2, |job.msgs|);
    var sent := held.(log := s.log + job.msgs).Go(p, Holding(job.msgs, |job.msgs|));
    assert job.msgs[..|job.msgs|] == job.msgs;
    SoloReleases(sent, step, job.msgs);
    SoloAdds(s, step, n + 2 + |job.msgs|, 3);
    assert sent.procs[p := Idle(true)] == s.procs[p := Idle(true)];
  }

  lemma SoloThree<M>(s: State<M>, step: Step<M>)
    ensures Solo(s, step, 1) == Next(s, step)
    ensures Solo(s, step, 2) == Next(Next(s, step), step)
    ensures Solo(s, step, 3) == Next(Next(Next(s, step), step), step)
  {
    hide Next;
    assert Solo(s, step, 0) == s;
    assert Solo(s, step, 1) == Next(s, step);
    assert Solo(s, step, 2) == Next(Next(s, step), step);
  }

  lemma SoloStarts<M>(s: State<M>, step: Step<M>)
    requires Exclusive(s) && s.owner == None && s.At(step.p).Idle? && !step.fault
    ensures Solo(s, step, if s.At(step.p).known then 1 else 3) == s.(sem := Present(1)).Go(step.p, Reading(step.job))
  {
    hide Solo;
    SoloThree(s, step);
    var p, job := step.p, step.job;
    assert UsesId(s.At(p)) ==> s.sem.Present?;
    if s.At(p).known {
      assert s.sem == Present(1);
    } else {
      var s1 := s.Go(p, Creating(job));
      assert Next(s, step) == s1;
      var s2 := if s.sem.Present? then s1.Go(p, Opening(job)) else s1.(sem := Present(0), owner := Some(p)).Go(p, Initialising(job));
      assert Next(s1, step) == s2;
      assert s2.procs[p := Reading(job)] == s.procs[p := Reading(job)];
    }
  }

  lemma SoloTakes<M>(s: State<M>, step: Step<M>, job: Job<M>)
    requires s.sem == Present(1) && s.At(step.p) == Reading(job)
    ensures Solo(s, step, 2)
         == s.(sem := Present(0), owner := Some(step.p), calls := s.calls + [Call(step.p, job.msgs)]).Go(step.p, Holding(job.msgs, 0))
  {
    hide Solo;
    SoloThree(s, step);
    var s1 := s.Go(step.p, Downing(job));
    assert Next(s, step) == s1;
    assert s1.procs[step.p := Holding(job.msgs, 0)] == s.procs[step.p := Holding(job.msgs, 0)];
  }

  lemma SoloReleases<M>(s: State<M>, step: Step<M>, msgs: seq<M>)
    requires s.sem == Present(0) && s.At(step.p) == Holding(msgs, |msgs|)
    ensures Solo(s, step, 3) == s.(sem := Present(1), owner := None).Go(step.p, Idle(true))
  {
    hide Solo;
    SoloThree(s, step);
    var s1 := s.Go(step.p, Releasing);
    assert Next(s, step) == s1;
    var s2 := s1.Go(step.p, Upping);
    assert Next(s1, step) == s2;
    assert s2.procs[step.p := Idle(true)] == s.procs[step.p := Idle(true)];
  }

  // ---- The waiting loop ----------------------------------------------------------------------

  /** The attempts `lock` makes when none succeeds. */
  function Attempts(wait: nat): nat {
    if wait <= 25 then 1 else 1 + Attempts(wait - 25)
  }

  lemma {:induction false} AttemptsExact(wait: nat)
    ensures Attempts(wait) == if wait == 0 then 1 else (wait + 24) / 25
  {
    if wait > 25 {
      AttemptsExact(wait - 25);
    }
  }

  /** While another process holds the lock a call reads the value exactly that often,
      25 ms apart, and then gives up without having sent anything. */
  lemma {:induction false} WaitsExactly<M>(s: State<M>, step: Step<M>, job: Job<M>, n: nat)
    requires s.sem == Present(0) && s.At(step.p) == Reading(job) && n <= Attempts(job.wait)
    ensures n < Attempts(job.wait) ==> 25 * n <= job.wait
    ensures Solo(s, step, n)
         == s.Go(step.p, if n < Attempts(job.wait) then Reading(Job(job.wait - 25 * n, job.msgs)) else Idle(true))
  {
    hide Attempts, Next;
    AttemptsExact(job.wait);
    if n == 0 {
      assert s.procs[step.p := Reading(job)] == s.procs;
    } else {
      WaitsExactly(s, step, job, n - 1);
      var before, left := Solo(s, step, n - 1), job.wait - 25 * (n - 1);
      LastAttempt(job.wait, n);
      MissedAttempt(before, step, Job(left, job.msgs));
      SameProc(s, step.p, Reading(Job(left, job.msgs)), Next(before, step).At(step.p));
    }
  }

  /** An attempt that finds the value at 0, or that another process has come before
      since the value was read. */
  lemma MissedAttempt<M>(s: State<M>, step: Step<M>, job: Job<M>)
    requires s.sem == Present(0) && (s.At(step.p) == Reading(job) || s.At(step.p) == Downing(job))
    ensures var next := if job.wait > 25 then Reading(Job(job.wait - 25, job.msgs)) else Idle(true);
      Next(s, step).At(step.p) == next && Next(s, step) == s.Go(step.p, next)
  {
  }

  lemma SameProc<M>(s: State<M>, p: int, a: Proc<M>, b: Proc<M>)
    ensures s.Go(p, a).Go(p, b) == s.Go(p, b)
  {
    assert s.procs[p := a][p := b] == s.procs[p := b];
  }

  lemma LastAttempt(wait: nat, n: nat)
    requires 0 < n <= Attempts(wait)
    ensures 25 * (n - 1) <= wait && (n == Attempts(wait) <==> wait - 25 * (n - 1) <= 25)
  {
    hide Attempts;
    AttemptsExact(wait);
  }

  /** The loop of `lock`, where `tries(k)` tells whether attempt `k` succeeds. */
  method Lock(maxWait: nat, tries: nat -> bool) returns (locked: bool, attempts: nat, slept: nat)
    ensures 1 <= attempts <= Attempts(maxWait)
    ensures forall k :: 0 <= k < attempts - 1 ==> !tries(k)
    ensures locked <==> tries(attempts - 1)
    ensures !locked ==> attempts == Attempts(maxWait)
    ensures slept == 25 * (attempts - 1)
  {
    var wait := maxWait;
    attempts, slept := 0, 0;
    while true
      invariant attempts + Attempts(wait) == Attempts(maxWait)
      invariant forall k :: 0 <= k < attempts ==> !tries(k)
      invariant slept == 25 * attempts
      decreases wait
    {
      locked := tries(attempts);
      attempts := attempts + 1;
      if !locked && wait > 25 {
        slept := slept + 25;
      }
      wait := if wait > 25 then wait - 25 else 0;
      if locked || wait == 0 {
        break;
      }
    }
  }
}
