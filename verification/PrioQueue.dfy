/** The priority queues of kernel/proc.c: singly linked lists of list_proc nodes, one per priority. */
module PrioQueue {
  import opened Prelude
  import opened PrioSpec
  import S = Sched

  class Node {
    var p: nat
    var next: Node?

    constructor (p: nat)
      ensures this.p == p && next == null
    {
      this.p := p;
      next := null;
    }
  }

  /** The list from h has the nodes ns, which hold the processes q. */
  ghost predicate Chain(h: Node?, ns: seq<Node>, q: seq<nat>)
    reads ns
  {
    && |ns| == |q|
    && h == At(ns, 0)
    && (forall k :: 0 <= k < |ns| ==> Linked(ns, q, k))
    && (forall k, l :: 0 <= k < l < |ns| ==> ns[k] != ns[l])
  }

  ghost function At(ns: seq<Node>, k: nat): Node? { if k < |ns| then ns[k] else null }

  /** Node k holds the process q[k] and points to the next node. */
  ghost predicate Linked(ns: seq<Node>, q: seq<nat>, k: nat)
    requires k < |ns| == |q|
    reads ns
  {
    ns[k].p == q[k] && ns[k].next == At(ns, k + 1)
  }

  lemma AppendChain(h: Node?, ns: seq<Node>, q: seq<nat>, n: Node, p: nat)
    requires |ns| == |q| && (ns != [] ==> h == ns[0]) && (ns == [] ==> h == n)
    requires forall k :: 0 <= k < |ns| - 1 ==> Linked(ns, q, k)
    requires forall k, l :: 0 <= k < l < |ns| ==> ns[k] != ns[l]
    requires ns != [] ==> ns[|ns| - 1].next == n && ns[|ns| - 1].p == q[|q| - 1]
    requires n !in ns && n.p == p && n.next == null
    ensures Chain(h, ns + [n], q + [p])
  {
    forall k | 0 <= k < |ns + [n]| ensures Linked(ns + [n], q + [p], k) {
      if k < |ns| - 1 {
        assert Linked(ns, q, k);
      }
    }
  }

  /** The last node of a non-empty list. */
  method Last(h: Node, ghost ns: seq<Node>, ghost q: seq<nat>) returns (last: Node)
    requires Chain(h, ns, q)
    ensures ns != [] && last == ns[|ns| - 1]
  {
    last := h;
    ghost var k := 0;
    while last.next != null
      invariant 0 <= k < |ns| && last == ns[k]
      decreases |ns| - k
    {
      assert Linked(ns, q, k);
      last := last.next;
      k := k + 1;
    }
    assert Linked(ns, q, k);
  }

  method Append(h: Node?, p: nat, ghost ns: seq<Node>, ghost q: seq<nat>) returns (head: Node, added: Node)
    requires Chain(h, ns, q)
    modifies ns
    ensures fresh(added) && Chain(head, ns + [added], q + [p])
  {
    added := new Node(p);
    if h == null {
      head := added;
    } else {
      head := h;
      var last := Last(h, ns, q);
      assert Linked(ns, q, |ns| - 1);
      last.next := added;
      forall k | 0 <= k < |ns| - 1 ensures Linked(ns, q, k) { assert old(Linked(ns, q, k)); }
    }
    AppendChain(head, ns, q, added, p);
  }

  /** Without its node k, the list is still a list. */
  lemma UnlinkChain(ns: seq<Node>, q: seq<nat>, k: nat, head: Node?)
    requires k < |ns| == |q| && head == if k == 0 then At(ns, 1) else ns[0]
    requires forall l :: 0 <= l < |ns| && l + 1 != k ==> Linked(ns, q, l)
    requires k > 0 ==> ns[k - 1].next == At(ns, k + 1) && ns[k - 1].p == q[k - 1]
    requires forall l, m :: 0 <= l < m < |ns| ==> ns[l] != ns[m]
    ensures Chain(head, ns[..k] + ns[k + 1..], q[..k] + q[k + 1..])
  {
    var ms, r := ns[..k] + ns[k + 1..], q[..k] + q[k + 1..];
    forall l | 0 <= l < |ms| ensures Linked(ms, r, l) {
      var was := if l < k then l else l + 1;
      assert ms[l] == ns[was] && (was + 1 != k ==> Linked(ns, q, was));
    }
  }

  /** The node of the first p, and the one before it. */
  method FindNode(h: Node?, p: nat, ghost ns: seq<Node>, ghost q: seq<nat>)
    returns (cur: Node?, prev: Node?, ghost k: nat)
    requires Chain(h, ns, q)
    ensures cur == At(ns, k) && (0 < k <= |ns| ==> prev == ns[k - 1])
    ensures if cur == null then p !in q else FirstAt(q, p, k)
  {
    cur, prev, k := h, null, 0;
    while cur != null
      invariant 0 <= k <= |ns| && cur == At(ns, k) && (k > 0 ==> prev == ns[k - 1]) && p !in q[..k]
      decreases |ns| - k
    {
      assert Linked(ns, q, k);
      if cur.p == p {
        return;
      }
      prev, cur, k := cur, cur.next, k + 1;
    }
    assert q[..k] == q;
  }

  method Unlink(h: Node?, p: nat, ghost ns: seq<Node>, ghost q: seq<nat>) returns (head: Node?, ghost ms: seq<Node>)
    requires Chain(h, ns, q)
    modifies ns
    ensures Chain(head, ms, S.Removed(q, p)) && forall n :: n in ms ==> n in ns
  {
    ghost var k;
    var cur, prev;
    cur, prev, k := FindNode(h, p, ns, q);
    head, ms := h, ns;
    if cur == null {
      RemovedNone(q, p);
    } else {
      assert Linked(ns, q, k);
      assert k > 0 ==> Linked(ns, q, k - 1);
      if cur == h {
        head := cur.next;
      } else {
        prev.next := cur.next;
      }
      forall l | 0 <= l < |ns| && l + 1 != k ensures Linked(ns, q, l) { assert old(Linked(ns, q, l)); }
      UnlinkChain(ns, q, k, head);
      RemovedAt(q, p, k);
      ms := ns[..k] + ns[k + 1..];
    }
  }

  ghost predicate Disjoint(a: seq<Node>, b: seq<Node>) { forall n :: n in a ==> n !in b }

  class Queues {
    var proc: seq<Slot>
    var prio: seq<Node?>
    ghost var nodes: seq<seq<Node>>
    ghost var queue: seq<seq<nat>>
    ghost var repr: set<Node>

    ghost predicate Valid()
      reads this, repr
    {
      && |prio| == NPRIO && |nodes| == NPRIO && |queue| == NPRIO
      && (forall i, n :: 0 <= i < NPRIO && n in nodes[i] ==> n in repr)
      && (forall i :: 0 <= i < NPRIO ==> Chain(prio[i], nodes[i], queue[i]))
      && (forall i, j :: 0 <= i < NPRIO && 0 <= j < NPRIO && i != j ==> Disjoint(nodes[i], nodes[j]))
      && (forall i, k :: 0 <= i < NPRIO && 0 <= k < |queue[i]| ==> queue[i][k] < |proc|)
      && (forall p :: 0 <= p < |proc| ==> proc[p].priority < NPRIO)
    }

    constructor (proc: seq<Slot>)
      requires forall p :: 0 <= p < |proc| ==> proc[p].priority < NPRIO
      ensures Valid() && fresh(repr) && this.proc == proc && queue == seq(NPRIO, i => [])
    {
      this.proc := proc;
      prio := seq(NPRIO, i => null);
      nodes := seq(NPRIO, i => []);
      queue := seq(NPRIO, i => []);
      repr := {};
    }

    /** insert_into_prio_queue: p goes to the end of the queue of its priority. */
    method Insert(p: nat)
      requires Valid() && p < |proc|
      modifies this`prio, this`nodes, this`queue, this`repr, repr
      ensures Valid() && fresh(repr - old(repr))
      ensures queue == old(queue)[proc[p].priority := old(queue)[proc[p].priority] + [p]]
    {
      var i := proc[p].priority;
      var head, added := Append(prio[i], p, nodes[i], queue[i]);
      forall j: nat | j < NPRIO && j != i
        ensures Chain(prio[j], nodes[j], queue[j]) && Disjoint(nodes[j], nodes[i] + [added])
        ensures Disjoint(nodes[i] + [added], nodes[j])
      {
        assert Disjoint(nodes[j], nodes[i]) && Disjoint(nodes[i], nodes[j]) && old(Chain(prio[j], nodes[j], queue[j]));
        forall k: nat | k < |nodes[j]| ensures Linked(nodes[j], queue[j], k) {
          assert old(Linked(nodes[j], queue[j], k)) && nodes[j][k] in nodes[j];
        }
      }
      prio := prio[i := head];
      nodes := nodes[i := nodes[i] + [added]];
      queue := queue[i := queue[i] + [p]];
      repr := repr + {added};
    }

    /** remove_from_prio_queue: the first entry of p leaves the queue of its priority. */
    method Remove(p: nat)
      requires Valid() && p < |proc|
      modifies this`prio, this`nodes, this`queue, repr
      ensures Valid()
      ensures queue == old(queue)[proc[p].priority := S.Removed(old(queue)[proc[p].priority], p)]
    {
      var i := proc[p].priority;
      ghost var ns;
      var head;
      head, ns := Unlink(prio[i], p, nodes[i], queue[i]);
      forall j: nat | j < NPRIO && j != i
        ensures Chain(prio[j], nodes[j], queue[j]) && Disjoint(nodes[j], ns) && Disjoint(ns, nodes[j])
      {
        assert Disjoint(nodes[j], nodes[i]) && Disjoint(nodes[i], nodes[j]) && old(Chain(prio[j], nodes[j], queue[j]));
        forall k: nat | k < |nodes[j]| ensures Linked(nodes[j], queue[j], k) {
          assert old(Linked(nodes[j], queue[j], k)) && nodes[j][k] in nodes[j];
        }
      }
      RemovedBelow(queue[i], p, |proc|);
      prio := prio[i := head];
      nodes := nodes[i := ns];
      queue := queue[i := S.Removed(queue[i], p)];
    }

    /** pick_highest_priority_runnable_proc: the first RUNNABLE process of the first queue that has one. */
    method Pick() returns (r: Option<nat>)
      requires Valid()
      ensures r == Picked(queue, proc)
    {
      var i := 0;
      while i < NPRIO
        invariant 0 <= i <= NPRIO && PickQueue(queue, proc, 0) == PickQueue(queue, proc, i)
      {
        var found, p;
        ghost var k;
        found, p, k := PickFrom(i);
        if found {
          return Some(p);
        }
        i := i + 1;
      }
      r := None;
    }

    /** The first RUNNABLE process of queue i. */
    method PickFrom(i: nat) returns (found: bool, p: nat, ghost k: nat)
      requires Valid() && i < NPRIO
      ensures found <==> !NoneReady(queue[i], proc)
      ensures found ==> FirstReady(queue[i], proc) < |queue[i]| && p == queue[i][FirstReady(queue[i], proc)]
    {
      var cur := prio[i];
      ghost var ns, q := nodes[i], queue[i];
      k, p := 0, 0;
      while cur != null
        invariant 0 <= k <= |ns| && cur == At(ns, k) && forall l :: 0 <= l < k ==> !Ready(proc, q[l])
        decreases |ns| - k
      {
        assert Chain(prio[i], ns, q) && Linked(ns, q, k);
        if proc[cur.p].st == S.Runnable {
          p, found := cur.p, true;
          assert Ready(proc, q[k]);
          return;
        }
        cur := cur.next;
        k := k + 1;
      }
      found := false;
    }

    /** What the scheduler does with the queues in one round: pick, mark RUNNING, move to the end of its queue. */
    method Schedule(ghost live: set<nat>) returns (r: Option<nat>)
      requires Valid() && Placed(proc, queue, live)
      modifies this, repr
      ensures Valid() && r == Picked(old(queue), old(proc)) && queue == AfterPick(old(queue), old(proc))
      ensures Placed(proc, queue, live)
      ensures proc ==
                match r
                case None => old(proc)
                case Some(p) => if p < |old(proc)| then old(proc)[p := old(proc)[p].(st := S.Running)] else old(proc)
    {
      r := Pick();
      if r.Some? {
        var p := r.value;
        PickedPlace(p, live);
        RotateKeeps(proc, queue, live, p);
        SlotKeeps(proc, AfterPick(queue, proc), live, p, proc[p].(st := S.Running));
        proc := proc[p := proc[p].(st := S.Running)];
        Remove(p);
        Insert(p);
      }
    }

    lemma PickedPlace(p: nat, live: set<nat>)
      requires Valid() && Placed(proc, queue, live) && Picked(queue, proc) == Some(p)
      ensures p in live && p < |proc| && proc[p].priority == PickQueue(queue, proc, 0)
      ensures AfterPick(queue, proc) == Inserted(proc, RemovedFrom(proc, queue, p), p)
    {
      var i := PickQueue(queue, proc, 0);
      var k := FirstReady(queue[i], proc);
      assert multiset(queue[i])[p] > 0;
      assert PlacedAt(proc, queue, live, i, p);
    }

    /** nice: the first process with the pid moves to the queue of the new priority. */
    method Nice(pid: nat, priority: nat) returns (r: int, ghost at: nat)
      requires Valid() && priority < NPRIO
      modifies this, repr
      ensures Valid() && (r == 1 <==> exists i :: 0 <= i < |old(proc)| && old(proc)[i].pid == pid) && (r == 0 || r == 1)
      ensures r == 1 ==>
                && at < |old(proc)| && old(proc)[at].pid == pid && (forall i :: 0 <= i < at ==> old(proc)[i].pid != pid)
                && (proc, queue) == Niced(old(proc), old(queue), at, priority)
      ensures r == 0 ==> proc == old(proc) && queue == old(queue)
    {
      at := 0;
      var i := 0;
      while i < |proc|
        invariant 0 <= i <= |proc| && unchanged(this) && Valid() && forall j :: 0 <= j < i ==> proc[j].pid != pid
        invariant fresh(repr - old(repr))
      {
        if proc[i].pid == pid {
          Remove(i);
          proc := proc[i := proc[i].(priority := priority)];
          Insert(i);
          at := i;
          return 1, at;
        }
        i := i + 1;
      }
      r := 0;
    }
  }
}
