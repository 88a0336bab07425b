/** The hotplug daemon's main loop: events wait in a bounded backlog while too
    many children run, and children are reaped asynchronously by the SIGCHLD
    handler between any two steps. */
module Hotplug {
  import opened ChildList
  import opened Wrappers

  const HOTPLUG2_MSG_BACKLOG := 64

  /** A kernel event as far as the loop looks at it. */
  datatype Event = Event(id: int, seqnum: Option<int>, isAdd: bool, hasModalias: bool)

  datatype Config = Config(dumb: bool, maxChild: nat)

  /** Where the loop is: at its top, with an event in hand (fresh from the socket
      or taken from the backlog), or past the throttle test and about to fork. */
  datatype Pc = Top | Held(event: Event, isNew: bool) | Forking(event: Event)

  /** The daemon's state with the history of what became of every event. */
  datatype State = State(
    pc: Pc, children: seq<int>, childC: int, backlog: seq<Event>, nBacklog: int, highest: int,
    received: seq<Event>, dispatched: seq<Event>, discarded: seq<Event>, queued: seq<Event>, dequeued: seq<Event>)

  /** The steps of the main loop, and the handler's reaping of one child. */
  datatype Action =
    | Dequeue
    | Receive(event: Event)
    | Examine
    | Spawn(pid: int)
    | ForkFails
    | Reap(pid: int)

  const INITIAL := State(Top, [], 0, [], 0, 0, [], [], [], [], [])

  predicate Enabled(cfg: Config, s: State, a: Action) {
    match a
    case Dequeue => s.pc.Top? && s.nBacklog > 0 && s.childC < cfg.maxChild
    case Receive(e) => s.pc.Top? && !(s.nBacklog > 0 && s.childC < cfg.maxChild) && s.nBacklog < HOTPLUG2_MSG_BACKLOG
    case Examine => s.pc.Held?
    case Spawn(pid) => s.pc.Forking?
    case ForkFails => s.pc.Forking?
    case Reap(pid) => true
  }

  predicate Passes(cfg: Config, e: Event) {
    (cfg.dumb && e.isAdd && e.hasModalias) || !cfg.dumb
  }

  function Next(cfg: Config, s: State, a: Action): State {
    match a
    case Dequeue =>
      if s.backlog == [] then s
      else s.(pc := Held(s.backlog[0], false), backlog := s.backlog[1..], nBacklog := s.nBacklog - 1,
              dequeued := s.dequeued + [s.backlog[0]])
    case Receive(e) => s.(pc := Held(e, true), received := s.received + [e])
    case Examine => if s.pc.Held? then Examined(cfg, s, s.pc.event) else s
    case Spawn(pid) =>
      if s.pc.Forking?
      then s.(pc := Top, children := s.children + [pid], childC := s.childC + 1, dispatched := s.dispatched + [s.pc.event])
      else s
    case ForkFails => if s.pc.Forking? then s.(pc := Top, discarded := s.discarded + [s.pc.event]) else s
    case Reap(pid) =>
      var left := Without(s.children, pid);
      s.(children := left, childC := s.childC - (|s.children| - |left|))
  }

  /** The body of the loop between having an event and forking for it. */
  function Examined(cfg: Config, s: State, e: Event): State {
    if e.seqnum.None? then s.(pc := Top, discarded := s.discarded + [e])
    else
      var s := s.(highest := if e.seqnum.value > s.highest then e.seqnum.value else s.highest);
      if !Passes(cfg, e) then s.(pc := Top, discarded := s.discarded + [e])
      else if s.childC >= cfg.maxChild then
        s.(pc := Top, backlog := s.backlog + [e], nBacklog := s.nBacklog + 1, queued := s.queued + [e])
      else s.(pc := Forking(e))
  }

  // ---- What every run keeps --------------------------------------------------------------

  /** The event in hand, if any. */
  function InHand(pc: Pc): multiset<Event> {
    if pc.Top? then multiset{} else multiset{pc.event}
  }

  /** Where every event is. */
  function Places(backlog: multiset<Event>, dispatched: multiset<Event>, discarded: multiset<Event>, hand: multiset<Event>): multiset<Event> {
    backlog + dispatched + discarded + hand
  }

  predicate Conserved(s: State) {
    multiset(s.received) == Places(multiset(s.backlog), multiset(s.dispatched), multiset(s.discarded), InHand(s.pc))
  }

  predicate Bounded(cfg: Config, s: State) {
    && s.childC == |s.children| <= cfg.maxChild
    && s.nBacklog == |s.backlog| <= HOTPLUG2_MSG_BACKLOG
    && (!s.pc.Top? ==> s.nBacklog < HOTPLUG2_MSG_BACKLOG)
    && (s.pc.Forking? || (s.pc.Held? && !s.pc.isNew) ==> s.childC < cfg.maxChild)
  }

  predicate Invariant(cfg: Config, s: State) {
    Bounded(cfg, s) && Conserved(s) && s.queued == s.dequeued + s.backlog
  }

  lemma {:induction false} WithoutLength(pids: seq<int>, pid: int)
    ensures |Without(pids, pid)| == if pid in pids then |pids| - 1 else |pids|
  {
    if pids != [] {
      WithoutLength(pids[..|pids| - 1], pid);
      assert pids == pids[..|pids| - 1] + [pids[|pids| - 1]];
    }
  }

  lemma StepKeepsBounds(cfg: Config, s: State, a: Action)
    requires Bounded(cfg, s) && Enabled(cfg, s, a)
    ensures Bounded(cfg, Next(cfg, s, a))
  {
    if a.Reap? {
      WithoutLength(s.children, a.pid);
    }
  }

  /** An event may pass from the hand to any of the other places. */
  lemma Move(a: multiset<Event>, b: multiset<Event>, c: multiset<Event>, e: Event)
    ensures Places(a + multiset{e}, b, c, multiset{}) == Places(a, b, c, multiset{e})
    ensures Places(a, b + multiset{e}, c, multiset{}) == Places(a, b, c, multiset{e})
    ensures Places(a, b, c + multiset{e}, multiset{}) == Places(a, b, c, multiset{e})
    ensures Places(a, b, c, multiset{}) + multiset{e} == Places(a, b, c, multiset{e})
  {
  }

  lemma Bag(s: seq<Event>, e: Event)
    ensures multiset(s + [e]) == multiset(s) + multiset{e}
    ensures multiset([e] + s) == multiset(s) + multiset{e}
  {
  }

  /** Appending the event in hand to any of the lists. */
  lemma PutDown(backlog: seq<Event>, out: seq<Event>, dropped: seq<Event>, e: Event)
    ensures var places := Places(multiset(backlog), multiset(out), multiset(dropped), multiset{e});
            && Places(multiset(backlog + [e]), multiset(out), multiset(dropped), multiset{}) == places
            && Places(multiset(backlog), multiset(out + [e]), multiset(dropped), multiset{}) == places
            && Places(multiset(backlog), multiset(out), multiset(dropped + [e]), multiset{}) == places
            && Places(multiset([e] + backlog), multiset(out), multiset(dropped), multiset{}) == places
            && Places(multiset(backlog), multiset(out), multiset(dropped), multiset{}) + multiset{e} == places
  {
    hide Places;
    Bag(backlog, e);
    Bag(out, e);
    Bag(dropped, e);
    Move(multiset(backlog), multiset(out), multiset(dropped), e);
  }

  lemma StepConserves(cfg: Config, s: State, a: Action)
    requires Bounded(cfg, s) && Conserved(s) && Enabled(cfg, s, a)
    ensures Conserved(Next(cfg, s, a))
  {
    hide Places;
    if a.Dequeue? {
      DequeueConserves(cfg, s);
    } else if a.Receive? {
      ReceiveConserves(cfg, s, a.event);
    } else if !a.Reap? {
      PutDown(s.backlog, s.dispatched, s.discarded, s.pc.event);
    }
  }

  lemma DequeueConserves(cfg: Config, s: State)
    requires Bounded(cfg, s) && Conserved(s) && Enabled(cfg, s, Dequeue)
    ensures Conserved(Next(cfg, s, Dequeue))
  {
    hide Places;
    assert s.backlog == [s.backlog[0]] + s.backlog[1..];
    PutDown(s.backlog[1..], s.dispatched, s.discarded, s.backlog[0]);
  }

  lemma ReceiveConserves(cfg: Config, s: State, e: Event)
    requires Conserved(s) && s.pc.Top?
    ensures Conserved(Next(cfg, s, Receive(e)))
  {
  }

  lemma StepKeepsOrder(cfg: Config, s: State, a: Action)
    requires Bounded(cfg, s) && s.queued == s.dequeued + s.backlog && Enabled(cfg, s, a)
    ensures var t := Next(cfg, s, a); t.queued == t.dequeued + t.backlog
  {
  }

  lemma StepKeepsInvariant(cfg: Config, s: State, a: Action)
    requires Invariant(cfg, s) && Enabled(cfg, s, a)
    ensures Invariant(cfg, Next(cfg, s, a))
  {
    hide Bounded, Conserved, Enabled, Next;
    StepKeepsBounds(cfg, s, a);
    StepConserves(cfg, s, a);
    StepKeepsOrder(cfg, s, a);
  }

  /** A run: every action is enabled where it happens. */
  ghost predicate IsRun(cfg: Config, states: seq<State>, actions: seq<Action>) {
    && |states| == |actions| + 1 && states[0] == INITIAL
    && forall i :: 0 <= i < |actions| ==> Enabled(cfg, states[i], actions[i]) && states[i + 1] == Next(cfg, states[i], actions[i])
  }

  /** In every state of every run, with reaping between any two steps: the
      counters agree with the lists, neither limit is exceeded, every event
      received is in exactly one place, and the backlog is first in, first out. */
  lemma {:induction false} RunKeepsInvariant(cfg: Config, states: seq<State>, actions: seq<Action>, n: nat)
    requires IsRun(cfg, states, actions) && n < |states|
    ensures Invariant(cfg, states[n])
  {
    if n > 0 {
      RunKeepsInvariant(cfg, states, actions, n - 1);
      StepKeepsInvariant(cfg, states[n - 1], actions[n - 1]);
    }
  }

  /** An event taken from the backlog never goes back to it. */
  lemma NoRequeue(cfg: Config, states: seq<State>, actions: seq<Action>, n: nat)
    requires IsRun(cfg, states, actions) && n < |actions|
    requires states[n].pc.Held? && !states[n].pc.isNew && actions[n].Examine?
    ensures states[n + 1].backlog == states[n].backlog && states[n + 1].queued == states[n].queued
  {
    RunKeepsInvariant(cfg, states, actions, n);
  }

  /** The main loop has nothing to do just while the backlog is full and no more
      children may run; then the end of any child lets it take an event from the backlog. */
  lemma OnlyFullWaits(cfg: Config, states: seq<State>, actions: seq<Action>, n: nat, pid: int)
    requires IsRun(cfg, states, actions) && n < |states|
    ensures var s := states[n];
      var waits := s.pc.Top? && |s.backlog| == 64 && |s.children| == cfg.maxChild;
      && ((forall a :: Enabled(cfg, s, a) ==> a.Reap?) <==> waits)
      && (waits && pid in s.children ==> Enabled(cfg, Next(cfg, s, Reap(pid)), Dequeue))
  {
    hide IsRun;
    RunKeepsInvariant(cfg, states, actions, n);
    var s := states[n];
    WithoutLength(s.children, pid);
    var a := if s.pc.Held? then Examine else if s.pc.Forking? then ForkFails
      else if s.nBacklog > 0 && s.childC < cfg.maxChild then Dequeue else Receive(Event(0, None, false, false));
    assert !(s.pc.Top? && |s.backlog| == 64 && |s.children| == cfg.maxChild) ==> Enabled(cfg, s, a);
  }

  // ---- What becomes of an event ---------------------------------------------------------------

  /** An event to run a child for: it has a sequence number, and in dumb mode it adds
      a device with a module alias. */
  predicate Wanted(cfg: Config, e: Event) {
    e.seqnum.Some? && (cfg.dumb ==> e.isAdd && e.hasModalias)
  }

  /** Examining the event in hand drops it if it is not wanted, puts it at the end of
      the backlog if no more children may run, and goes on to fork otherwise. */
  lemma ExamineExact(cfg: Config, s: State)
    requires s.pc.Held?
    ensures var t, e := Next(cfg, s, Examine), s.pc.event;
      && (!Wanted(cfg, e) ==> t.pc == Top && t.discarded == s.discarded + [e] && t.backlog == s.backlog && t.queued == s.queued)
      && (Wanted(cfg, e) && s.childC >= cfg.maxChild ==>
            t.pc == Top && t.discarded == s.discarded && t.backlog == s.backlog + [e] && t.queued == s.queued + [e])
      && (Wanted(cfg, e) && s.childC < cfg.maxChild ==>
            t.pc == Forking(e) && t.discarded == s.discarded && t.backlog == s.backlog && t.queued == s.queued)
      && t.dispatched == s.dispatched && t.children == s.children && t.received == s.received
  {
  }

  /** The event that this step fails to fork for. */
  predicate FailsFor(s: State, a: Action, e: Event) {
    a.ForkFails? && s.pc == Forking(e)
  }

  ghost predicate Explained(cfg: Config, states: seq<State>, actions: seq<Action>, n: nat, e: Event) {
    !Wanted(cfg, e) || exists i :: 0 <= i < n && i < |states| && i < |actions| && FailsFor(states[i], actions[i], e)
  }

  /** Children run for wanted events only, only wanted events wait, and an event is
      dropped only if it is not wanted or its fork failed. */
  ghost predicate Outcomes(cfg: Config, states: seq<State>, actions: seq<Action>, n: nat)
    requires n < |states|
  {
    var s := states[n];
    && (forall e :: e in s.dispatched ==> Wanted(cfg, e))
    && (forall e :: e in s.backlog ==> Wanted(cfg, e))
    && (s.pc.Forking? ==> Wanted(cfg, s.pc.event))
    && (forall e :: e in s.discarded ==> Explained(cfg, states, actions, n, e))
  }

  lemma {:induction false} RunOutcomes(cfg: Config, states: seq<State>, actions: seq<Action>, n: nat)
    requires IsRun(cfg, states, actions) && n < |states|
    ensures Outcomes(cfg, states, actions, n)
  {
    hide Explained, Next, Wanted;
    if n > 0 {
      RunOutcomes(cfg, states, actions, n - 1);
      var s, a, t := states[n - 1], actions[n - 1], states[n];
      StepLists(cfg, s, a);
      forall e | e in t.discarded ensures Explained(cfg, states, actions, n, e) {
        if e in s.discarded {
          StaysExplained(cfg, states, actions, n - 1, e);
        } else {
          NewlyExplained(cfg, states, actions, n - 1, e);
        }
      }
    }
  }

  /** Where events move in one step. */
  lemma StepLists(cfg: Config, s: State, a: Action)
    requires Enabled(cfg, s, a)
    ensures var t := Next(cfg, s, a);
      && (forall e :: e in t.dispatched ==> e in s.dispatched || s.pc == Forking(e))
      && (forall e :: e in t.backlog ==> e in s.backlog || Wanted(cfg, e))
      && (t.pc.Forking? ==> t.pc == s.pc || Wanted(cfg, t.pc.event))
      && (forall e :: e in t.discarded && e !in s.discarded ==> !Wanted(cfg, e) || FailsFor(s, a, e))
  {
    if a.Examine? {
      ExamineExact(cfg, s);
    }
  }

  lemma StaysExplained(cfg: Config, states: seq<State>, actions: seq<Action>, n: nat, e: Event)
    requires Explained(cfg, states, actions, n, e)
    ensures Explained(cfg, states, actions, n + 1, e)
  {
  }

  lemma NewlyExplained(cfg: Config, states: seq<State>, actions: seq<Action>, n: nat, e: Event)
    requires n < |states| && n < |actions| && (!Wanted(cfg, e) || FailsFor(states[n], actions[n], e))
    ensures Explained(cfg, states, actions, n + 1, e)
  {
  }

  /** No sequence number that was examined is larger than the one kept, and that one
      is 0 or was received. */
  ghost predicate HighestIs(s: State) {
    && (forall e :: e in s.dispatched || e in s.discarded || e in s.backlog ==> e.seqnum.Some? ==> e.seqnum.value <= s.highest)
    && (s.pc.Forking? || (s.pc.Held? && !s.pc.isNew) ==> s.pc.event.seqnum.Some? ==> s.pc.event.seqnum.value <= s.highest)
    && s.highest >= 0 && (s.highest > 0 ==> exists e :: e in s.received && e.seqnum == Some(s.highest))
  }

  lemma StepHighest(cfg: Config, s: State, a: Action)
    requires Enabled(cfg, s, a) && HighestIs(s) && (s.pc.Held? ==> s.pc.event in s.received)
    ensures HighestIs(Next(cfg, s, a))
  {
    var t := Next(cfg, s, a);
    if s.highest > 0 {
      var e :| e in s.received && e.seqnum == Some(s.highest);
      assert e in t.received;
    }
  }

  /** In every state of every run. */
  lemma {:induction false} RunHighest(cfg: Config, states: seq<State>, actions: seq<Action>, n: nat)
    requires IsRun(cfg, states, actions) && n < |states|
    ensures HighestIs(states[n])
  {
    hide Next, HighestIs;
    if n == 0 {
      NoneExamined();
    } else {
      RunHighest(cfg, states, actions, n - 1);
      RunKeepsInvariant(cfg, states, actions, n - 1);
      HandReceived(states[n - 1]);
      StepHighest(cfg, states[n - 1], actions[n - 1]);
    }
  }

  lemma NoneExamined()
    ensures HighestIs(INITIAL)
  {
  }

  lemma HandReceived(s: State)
    requires Conserved(s)
    ensures !s.pc.Top? ==> s.pc.event in s.received
  {
    if !s.pc.Top? {
      assert s.pc.event in multiset(s.received);
    }
  }

  // ---- The daemon on the heap ---------------------------------------------------------------

  /** An event with the link that the backlog uses. */
  class EventNode {
    const event: Event
    var next: EventNode?

    constructor (event: Event)
      ensures this.event == event
    {
      this.event := event;
    }
  }

  /** The nodes form a singly linked queue from `head` to `tail`. */
  ghost predicate Queued(queue: seq<EventNode>, head: EventNode?, tail: EventNode?)
    reads queue
  {
    && (forall i, j :: 0 <= i < j < |queue| ==> queue[i] != queue[j])
    && (forall i {:trigger queue[i].next} :: 0 <= i < |queue| ==> queue[i].next == if i == |queue| - 1 then null else queue[i + 1])
    && head == (if queue == [] then null else queue[0])
    && tail == (if queue == [] then null else queue[|queue| - 1])
  }

  ghost function Events(queue: seq<EventNode>): (r: seq<Event>)
    ensures |r| == |queue|
  {
    seq(|queue|, i requires 0 <= i < |queue| => queue[i].event)
  }

  /** The list of children shows their process ids. */
  ghost predicate ShowsChildren(nodes: seq<Child>, child: Child?, pids: seq<int>)
    reads nodes
  {
    Linked(nodes) && PointsAt(nodes, child, |nodes| - 1) && pids == Pids(nodes)
  }

  /** The linked backlog shows the events. */
  ghost predicate ShowsBacklog(queue: seq<EventNode>, head: EventNode?, tail: EventNode?, events: seq<Event>)
    reads queue
  {
    Queued(queue, head, tail) && events == Events(queue)
  }

  class Daemon {
    const dumb: bool
    const maxChildC: nat
    var child: Child?
    var childC: int
    var backlog: EventNode?
    var backlogTail: EventNode?
    var nBacklog: int
    var highestSeqnum: int
    var tmpevent: EventNode?
    ghost var nodes: seq<Child>
    ghost var queue: seq<EventNode>
    ghost var state: State

    function Cfg(): Config {
      Config(dumb, maxChildC)
    }

    /** The heap shows the abstract state. */
    ghost predicate Valid()
      reads this, nodes, queue
    {
      && ShowsChildren(nodes, child, state.children) && state.childC == childC
      && ShowsBacklog(queue, backlog, backlogTail, state.backlog) && state.nBacklog == nBacklog
      && state.highest == highestSeqnum
      && (!state.pc.Top? ==> tmpevent != null && tmpevent !in queue && tmpevent.event == state.pc.event)
      && Invariant(Cfg(), state)
    }

    constructor (dumb: bool, maxChildC: nat)
      ensures Valid() && state == INITIAL && Cfg() == Config(dumb, maxChildC)
      ensures nodes == [] && queue == []
    {
      this.dumb, this.maxChildC := dumb, maxChildC;
      child, childC, backlog, backlogTail, nBacklog, highestSeqnum, tmpevent := null, 0, null, null, 0, 0, null;
      nodes, queue, state := [], [], INITIAL;
    }

    /** Take the oldest event from the backlog. */
    method DequeueBacklog()
      requires Valid() && Enabled(Cfg(), state, Dequeue)
      modifies this
      ensures Valid() && state == Next(Cfg(), old(state), Dequeue)
      ensures nodes == old(nodes) && queue == old(queue)[1..] && tmpevent == old(backlog)
    {
      hide Invariant, ShowsChildren, Queued, Next, Enabled, Events;
      StepKeepsInvariant(Cfg(), state, Dequeue);
      DequeueEffect(Cfg(), state);
      QueueRest(queue, backlog, backlogTail);
      state := Next(Cfg(), state, Dequeue);
      tmpevent := backlog;
      backlog := backlog.next;
      nBacklog := nBacklog - 1;
      if backlogTail == tmpevent {
        backlogTail := null;
      }
      queue := queue[1..];
    }

    /** Read a new event from the socket. */
    method ReadEvent(e: Event)
      requires Valid() && Enabled(Cfg(), state, Receive(e))
      modifies this
      ensures Valid() && state == Next(Cfg(), old(state), Receive(e))
      ensures nodes == old(nodes) && queue == old(queue) && fresh(tmpevent)
    {
      hide Invariant, ShowsChildren, ShowsBacklog, Enabled;
      StepKeepsInvariant(Cfg(), state, Receive(e));
      state := Next(Cfg(), state, Receive(e));
      tmpevent := new EventNode(e);
    }

    /** Drop the event in hand, put it at the end of the backlog, or go on to fork. */
    method ExamineEvent() returns (fork: bool)
      requires Valid() && Enabled(Cfg(), state, Examine)
      modifies this, queue, tmpevent
      ensures Valid() && state == Next(Cfg(), old(state), Examine)
      ensures nodes == old(nodes) && (queue == old(queue) || queue == old(queue) + [old(tmpevent)])
      ensures fork <==> state.pc.Forking?
    {
      hide Invariant, ShowsChildren, Queued, Next, Enabled, Examined, Events;
      StepKeepsInvariant(Cfg(), state, Examine);
      ExamineEffect(Cfg(), state);
      var e := tmpevent.event;
      state := Next(Cfg(), state, Examine);
      if e.seqnum.None? {
        return false;
      }
      if e.seqnum.value > highestSeqnum {
        highestSeqnum := e.seqnum.value;
      }
      if (dumb && e.isAdd && e.hasModalias) || !dumb {
        if childC >= maxChildC {
          Append();
          nBacklog := nBacklog + 1;
          return false;
        }
        return true;
      }
      return false;
    }

    /** Link the event in hand behind the tail. */
    method Append()
      requires Queued(queue, backlog, backlogTail) && tmpevent != null && tmpevent !in queue
      modifies this`backlog, this`backlogTail, this`queue, queue, tmpevent
      ensures queue == old(queue) + [tmpevent] && Queued(queue, backlog, backlogTail)
      ensures Events(queue) == old(Events(queue)) + [tmpevent.event]
    {
      if backlogTail != null {
        backlogTail.next := tmpevent;
      } else {
        backlog := tmpevent;
      }
      tmpevent.next := null;
      backlogTail := tmpevent;
      queue := queue + [tmpevent];
    }

    /** `fork` succeeded in the parent, with SIGCHLD blocked; or it failed. */
    method ForkDone(forked: bool, pid: int)
      requires Valid() && state.pc.Forking?
      modifies this, nodes
      ensures Valid() && state == Next(Cfg(), old(state), if forked then Spawn(pid) else ForkFails)
      ensures queue == old(queue)
      ensures if forked then |nodes| == |old(nodes)| + 1 && nodes[..|old(nodes)|] == old(nodes) && fresh(nodes[|nodes| - 1])
              else nodes == old(nodes)
    {
      hide Invariant, Linked, ShowsBacklog, Next, Pids;
      ghost var a := if forked then Spawn(pid) else ForkFails;
      assert Enabled(Cfg(), state, a);
      StepKeepsInvariant(Cfg(), state, a);
      ForkEffect(Cfg(), state, pid);
      state := Next(Cfg(), state, a);
      if forked {
        var curSeqnum := if tmpevent.event.seqnum.Some? then tmpevent.event.seqnum.value else 0;
        child := AddChild(child, pid, curSeqnum, nodes, |nodes| - 1);
        childC := childC + 1;
        nodes := nodes + [child];
      }
    }

    /** The SIGCHLD handler reaps one child, at any point of the loop. */
    method ReapChild(pid: int)
      requires Valid()
      modifies this, nodes
      ensures Valid() && state == Next(Cfg(), old(state), Reap(pid))
      ensures queue == old(queue) && tmpevent == old(tmpevent) && forall n :: n in nodes ==> n in old(nodes)
    {
      hide Invariant, Linked, ShowsBacklog, Without, Enabled, Next, Pids;
      ReapEffect(Cfg(), state, pid);
      StepKeepsInvariant(Cfg(), state, Reap(pid));
      ghost var pids := Pids(nodes);
      WholeWithout(pids, pid);
      state := Next(Cfg(), state, Reap(pid));
      child, childC, nodes := RemoveChild(child, pid, childC, nodes, |nodes| - 1);
      assert Pids(nodes) == Without(pids, pid);
    }
  }

  // What each step does to the parts of the state that live on the heap.

  lemma DequeueEffect(cfg: Config, s: State)
    requires Invariant(cfg, s) && Enabled(cfg, s, Dequeue)
    ensures s.backlog != []
    ensures var t := Next(cfg, s, Dequeue);
            && t.pc == Held(s.backlog[0], false) && t.children == s.children && t.childC == s.childC
            && t.backlog == s.backlog[1..] && t.nBacklog == s.nBacklog - 1 && t.highest == s.highest
  {
  }

  lemma ExamineEffect(cfg: Config, s: State)
    requires Enabled(cfg, s, Examine)
    ensures s.pc.Held?
    ensures var t, e := Next(cfg, s, Examine), s.pc.event;
            var throttled := e.seqnum.Some? && Passes(cfg, e) && s.childC >= cfg.maxChild;
            && t.children == s.children && t.childC == s.childC
            && t.highest == (if e.seqnum.Some? && e.seqnum.value > s.highest then e.seqnum.value else s.highest)
            && t.backlog == (if throttled then s.backlog + [e] else s.backlog)
            && t.nBacklog == (if throttled then s.nBacklog + 1 else s.nBacklog)
            && t.pc == if e.seqnum.Some? && Passes(cfg, e) && !throttled then Forking(e) else Top
  {
  }

  lemma ForkEffect(cfg: Config, s: State, pid: int)
    requires s.pc.Forking?
    ensures var t := Next(cfg, s, Spawn(pid));
            && t.pc == Top && t.children == s.children + [pid] && t.childC == s.childC + 1
            && t.backlog == s.backlog && t.nBacklog == s.nBacklog && t.highest == s.highest
    ensures var t := Next(cfg, s, ForkFails);
            && t.pc == Top && t.children == s.children && t.childC == s.childC
            && t.backlog == s.backlog && t.nBacklog == s.nBacklog && t.highest == s.highest
  {
  }

  lemma ReapEffect(cfg: Config, s: State, pid: int)
    ensures Enabled(cfg, s, Reap(pid))
    ensures var t := Next(cfg, s, Reap(pid));
            && t.pc == s.pc && t.children == Without(s.children, pid)
            && t.childC == s.childC - (|s.children| - |Without(s.children, pid)|)
            && t.backlog == s.backlog && t.nBacklog == s.nBacklog && t.highest == s.highest
  {
  }

  lemma WholeWithout(pids: seq<int>, pid: int)
    ensures |pids| > 0 ==> Without(pids[..|pids| - 1 + 1], pid) + pids[|pids| - 1 + 1..] == Without(pids, pid)
    ensures pids == [] ==> Without(pids, pid) == []
  {
    assert pids[..|pids|] == pids;
  }

  lemma QueueRest(queue: seq<EventNode>, head: EventNode?, tail: EventNode?)
    requires Queued(queue, head, tail) && queue != []
    ensures head == queue[0] && head !in queue[1..]
    ensures Queued(queue[1..], head.next, if tail == head then null else tail)
    ensures Events(queue[1..]) == Events(queue)[1..] && Events(queue)[0] == head.event
  {
  }
}
