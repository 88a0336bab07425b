/** The list of running children: heap nodes doubly linked from left to right,
    addressed by a pointer to the rightmost one. */
module ChildList {

  class Child {
    var pid: int
    var seqnum: int
    var prev: Child?
    var next: Child?

    constructor (pid: int, seqnum: int, prev: Child?)
      ensures this.pid == pid && this.seqnum == seqnum && this.prev == prev && this.next == null
    {
      this.pid, this.seqnum, this.prev, this.next := pid, seqnum, prev, null;
    }
  }

  /** The nodes from left to right form a well-formed doubly linked list. */
  ghost predicate Linked(nodes: seq<Child>)
    reads nodes
  {
    && (forall i, j :: 0 <= i < j < |nodes| ==> nodes[i] != nodes[j])
    && (forall i {:trigger nodes[i].prev} :: 0 <= i < |nodes| ==> nodes[i].prev == if i == 0 then null else nodes[i - 1])
    && (forall i {:trigger nodes[i].next} :: 0 <= i < |nodes| ==> nodes[i].next == if i == |nodes| - 1 then null else nodes[i + 1])
  }

  /** `child` is node `at` of the list; null stands for the empty list. */
  ghost predicate PointsAt(nodes: seq<Child>, child: Child?, at: int) {
    if nodes == [] then child == null else 0 <= at < |nodes| && child == nodes[at]
  }

  ghost function Pids(nodes: seq<Child>): (r: seq<int>)
    reads nodes
    ensures |r| == |nodes|
  {
    seq(|nodes|, i requires 0 <= i < |nodes| reads nodes => nodes[i].pid)
  }

  /** `add_child`: walk to the rightmost node and append. */
  method AddChild(child: Child?, pid: int, seqnum: int, ghost nodes: seq<Child>, ghost at: int) returns (r: Child)
    requires Linked(nodes) && PointsAt(nodes, child, at)
    modifies nodes
    ensures fresh(r) && r.pid == pid && r.seqnum == seqnum
    ensures Linked(nodes + [r])
    ensures Pids(nodes + [r]) == old(Pids(nodes)) + [pid]
  {
    if child == null {
      r := new Child(pid, seqnum, null);
    } else {
      var c := Rightmost(child, nodes, at);
      r := new Child(pid, seqnum, c);
      c.next := r;
    }
  }

  /** The walk along `next`. */
  method Rightmost(child: Child, ghost nodes: seq<Child>, ghost at: nat) returns (c: Child)
    requires Linked(nodes) && at < |nodes| && child == nodes[at]
    ensures c == nodes[|nodes| - 1]
  {
    c := child;
    ghost var k := at;
    while c.next != null
      invariant k < |nodes| && c == nodes[k]
      decreases |nodes| - k
    {
      c, k := c.next, k + 1;
    }
  }

  /** The sequence without its last occurrence of `pid`. */
  function Without(pids: seq<int>, pid: int): (r: seq<int>) {
    if pids == [] then []
    else if pids[|pids| - 1] == pid then pids[..|pids| - 1]
    else Without(pids[..|pids| - 1], pid) + [pids[|pids| - 1]]
  }

  lemma {:induction false} WithoutAbsent(pids: seq<int>, pid: int)
    requires pid !in pids
    ensures Without(pids, pid) == pids
  {
    if pids != [] {
      WithoutAbsent(pids[..|pids| - 1], pid);
    }
  }

  lemma {:induction false} WithoutAt(pids: seq<int>, pid: int, k: nat)
    requires k < |pids| && pids[k] == pid && forall i :: k < i < |pids| ==> pids[i] != pid
    ensures Without(pids, pid) == pids[..k] + pids[k + 1..]
  {
    var front := pids[..|pids| - 1];
    if k < |pids| - 1 {
      WithoutAt(front, pid, k);
      assert front[..k] == pids[..k] && front[k + 1..] + [pids[|pids| - 1]] == pids[k + 1..];
    }
  }

  lemma LastUpTo(pids: seq<int>, at: nat, k: nat, pid: int)
    requires k <= at < |pids| && pids[k] == pid && forall i :: k < i <= at ==> pids[i] != pid
    ensures Without(pids[..at + 1], pid) + pids[at + 1..] == pids[..k] + pids[k + 1..]
  {
    var p := pids[..at + 1];
    WithoutAt(p, pid, k);
    assert p[..k] == pids[..k] && p[k + 1..] + pids[at + 1..] == pids[k + 1..];
  }

  lemma NoneUpTo(pids: seq<int>, at: nat, pid: int)
    requires at < |pids| && forall i :: 0 <= i <= at ==> pids[i] != pid
    ensures Without(pids[..at + 1], pid) + pids[at + 1..] == pids
  {
    WithoutAbsent(pids[..at + 1], pid);
  }

  /** `remove_child_by_pid`: search to the left, unlink, and return the
      rightmost node of what is left. */
  method RemoveChild(child: Child?, pid: int, childC: int, ghost nodes: seq<Child>, ghost at: int)
    returns (r: Child?, newChildC: int, ghost left: seq<Child>)
    requires Linked(nodes) && PointsAt(nodes, child, at)
    modifies nodes
    ensures Linked(left) && |left| <= |nodes| && (forall n :: n in left ==> n in nodes)
    ensures |left| < |nodes| ==> PointsAt(left, r, |left| - 1)
    ensures |left| == |nodes| ==> left == nodes && r == child
    ensures nodes != [] ==> Pids(left) == Without(old(Pids(nodes))[..at + 1], pid) + old(Pids(nodes))[at + 1..]
    ensures newChildC == childC - (|nodes| - |left|)
  {
    hide Without, Linked, Pids;
    if child == null {
      return null, childC, nodes;
    }
    var c, k := FindLeft(child, pid, nodes, at);
    if c.pid != pid {
      NotFound(nodes, at, pid);
      return child, childC, nodes;
    }
    Found(nodes, at, k, pid);
    Unlink(c, nodes, k);
    left := nodes[..k] + nodes[k + 1..];
    r := Repoint(child, c, nodes, k, at);
    newChildC := childC - 1;
  }

  lemma NotFound(nodes: seq<Child>, at: nat, pid: int)
    requires at < |nodes| && forall i :: 0 <= i <= at ==> nodes[i].pid != pid
    ensures Without(Pids(nodes)[..at + 1], pid) + Pids(nodes)[at + 1..] == Pids(nodes)
  {
    NoneUpTo(Pids(nodes), at, pid);
  }

  lemma Found(nodes: seq<Child>, at: nat, k: nat, pid: int)
    requires k <= at < |nodes| && Linked(nodes) && nodes[k].pid == pid && forall i :: k < i <= at ==> nodes[i].pid != pid
    ensures Without(Pids(nodes)[..at + 1], pid) + Pids(nodes)[at + 1..] == Pids(nodes)[..k] + Pids(nodes)[k + 1..]
    ensures nodes[k] == nodes[at] <==> k == at
    ensures nodes[k].prev == if k == 0 then null else nodes[k - 1]
    ensures nodes[k].next == if k == |nodes| - 1 then null else nodes[k + 1]
  {
    LastUpTo(Pids(nodes), at, k, pid);
  }

  /** Where the pointer goes once node `k` is gone. */
  method Repoint(child: Child, c: Child, ghost nodes: seq<Child>, ghost k: nat, ghost at: nat) returns (r: Child?)
    requires k < |nodes| && at < |nodes| && nodes[k] == c && nodes[at] == child && Linked(nodes[..k] + nodes[k + 1..])
    requires c.prev == if k == 0 then null else nodes[k - 1]
    requires c.next == if k == |nodes| - 1 then null else nodes[k + 1]
    requires c == child <==> k == at
    ensures PointsAt(nodes[..k] + nodes[k + 1..], r, |nodes| - 2)
  {
    ghost var left := nodes[..k] + nodes[k + 1..];
    var tmp: Child? := child;
    ghost var i := if at > k then at - 1 else at;
    if c == tmp {
      if c.next != null {
        tmp := c.next;
      } else if c.prev != null {
        tmp, i := c.prev, at - 1;
      } else {
        return null;
      }
    }
    r := Rightmost(tmp, left, i);
  }

  /** The search along `prev`: the nearest node with this pid, else the leftmost node. */
  method FindLeft(child: Child, pid: int, ghost nodes: seq<Child>, ghost at: nat) returns (c: Child, ghost k: nat)
    requires Linked(nodes) && at < |nodes| && child == nodes[at]
    ensures k <= at && c == nodes[k]
    ensures forall i :: k < i <= at ==> nodes[i].pid != pid
    ensures c.pid != pid ==> k == 0
    ensures c.pid == pid || pid !in Pids(nodes[..at + 1])
  {
    c, k := child, at;
    while c.prev != null && c.pid != pid
      invariant k <= at && c == nodes[k]
      invariant forall i :: k < i <= at ==> nodes[i].pid != pid
      decreases k
    {
      c, k := c.prev, k - 1;
    }
  }

  /** The relinking of the neighbours of node `k`. */
  method Unlink(c: Child, ghost nodes: seq<Child>, ghost k: nat)
    requires k < |nodes| && nodes[k] == c && Linked(nodes)
    modifies nodes
    ensures Linked(nodes[..k] + nodes[k + 1..])
    ensures Pids(nodes[..k] + nodes[k + 1..]) == old(Pids(nodes))[..k] + old(Pids(nodes))[k + 1..]
    ensures c.prev == old(c.prev) && c.next == old(c.next)
  {
    if c.prev != null {
      c.prev.next := c.next;
    }
    if c.next != null {
      c.next.prev := c.prev;
    }
    LinkedAround(nodes, k);
    PidsAround(nodes, k);
    assert Pids(nodes) == old(Pids(nodes));
  }

  /** A list in which the neighbours of node `k` point past it. */
  lemma LinkedAround(nodes: seq<Child>, k: nat)
    requires k < |nodes|
    requires forall i, j :: 0 <= i < j < |nodes| ==> nodes[i] != nodes[j]
    requires forall i {:trigger nodes[i].prev} :: 0 <= i < |nodes| && i != k ==> nodes[i].prev == Before(nodes, k, i)
    requires forall i {:trigger nodes[i].next} :: 0 <= i < |nodes| && i != k ==> nodes[i].next == Behind(nodes, k, i)
    ensures Linked(nodes[..k] + nodes[k + 1..])
  {
    var left := nodes[..k] + nodes[k + 1..];
    forall i | 0 <= i < |left| ensures left[i] == nodes[if i < k then i else i + 1] {
    }
  }

  /** The node left of node `i` when node `k` is passed over. */
  ghost function Before(nodes: seq<Child>, k: nat, i: nat): Child?
    requires i < |nodes| && i != k
  {
    var j := if i == k + 1 then k - 1 else i - 1;
    if j < 0 then null else nodes[j]
  }

  ghost function Behind(nodes: seq<Child>, k: nat, i: nat): Child?
    requires i < |nodes| && i != k
  {
    var j := if i + 1 == k then k + 1 else i + 1;
    if j >= |nodes| then null else nodes[j]
  }

  lemma PidsAround(nodes: seq<Child>, k: nat)
    requires k < |nodes|
    ensures Pids(nodes[..k] + nodes[k + 1..]) == Pids(nodes)[..k] + Pids(nodes)[k + 1..]
  {
  }
}
