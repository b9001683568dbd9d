/** The priority queues of kernel/proc.c as values: which process a pick chooses, what queue operations keep, round
    robin. */
module PrioSpec {
  import opened Prelude
  import S = Sched

  const NPRIO := S.NPRIO

  /** The position of the first p. */
  ghost predicate FirstAt(q: seq<nat>, p: nat, k: nat) { k < |q| && q[k] == p && p !in q[..k] }

  lemma {:induction false} RemovedAt(q: seq<nat>, p: nat, k: nat)
    requires FirstAt(q, p, k)
    ensures S.Removed(q, p) == q[..k] + q[k + 1..]
  {
    if k > 0 {
      assert q[0] == q[..k][0] && q[..k][1..] == q[1..][..k - 1];
      RemovedAt(q[1..], p, k - 1);
      assert q[..k] + q[k + 1..] == [q[0]] + (q[1..][..k - 1] + q[1..][k..]);
    }
  }

  lemma {:induction false} RemovedNone(q: seq<nat>, p: nat)
    requires p !in q
    ensures S.Removed(q, p) == q
  {
    if q != [] {
      RemovedNone(q[1..], p);
    }
  }

  lemma {:induction false} RemovedBelow(q: seq<nat>, p: nat, n: nat)
    requires forall k :: 0 <= k < |q| ==> q[k] < n
    ensures forall k :: 0 <= k < |S.Removed(q, p)| ==> S.Removed(q, p)[k] < n
  {
    if q != [] {
      RemovedBelow(q[1..], p, n);
    }
  }

  /** Process table entries as far as the queues go. */
  datatype Slot = Slot(pid: nat, priority: nat, st: S.PState)

  predicate Ready(proc: seq<Slot>, p: nat) { p < |proc| && proc[p].st == S.Runnable }

  // ---------------------------------------------------------------- every queued process is once in its queue

  ghost predicate Tables(proc: seq<Slot>, queue: seq<seq<nat>>) {
    |queue| == NPRIO && forall p :: 0 <= p < |proc| ==> proc[p].priority < NPRIO
  }

  ghost predicate PlacedAt(proc: seq<Slot>, queue: seq<seq<nat>>, live: set<nat>, i: nat, p: nat)
    requires |queue| == NPRIO
  {
    i < NPRIO ==> multiset(queue[i])[p] == if p in live && p < |proc| && proc[p].priority == i then 1 else 0
  }

  /** The live processes are each once in the queue of their priority and in no other; no other process is in a
      queue. */
  ghost predicate Placed(proc: seq<Slot>, queue: seq<seq<nat>>, live: set<nat>) {
    Tables(proc, queue) && forall i, p :: PlacedAt(proc, queue, live, i, p)
  }

  function Inserted(proc: seq<Slot>, queue: seq<seq<nat>>, p: nat): seq<seq<nat>>
    requires p < |proc| && proc[p].priority < |queue|
  {
    queue[proc[p].priority := queue[proc[p].priority] + [p]]
  }

  function RemovedFrom(proc: seq<Slot>, queue: seq<seq<nat>>, p: nat): seq<seq<nat>>
    requires p < |proc| && proc[p].priority < |queue|
  {
    queue[proc[p].priority := S.Removed(queue[proc[p].priority], p)]
  }

  lemma InsertKeeps(proc: seq<Slot>, queue: seq<seq<nat>>, live: set<nat>, p: nat)
    requires Placed(proc, queue, live) && p < |proc| && p !in live
    ensures Placed(proc, Inserted(proc, queue, p), live + {p})
  {
    forall i: nat, x: nat ensures PlacedAt(proc, Inserted(proc, queue, p), live + {p}, i, x) {
      assert PlacedAt(proc, queue, live, i, x);
    }
  }

  lemma RemoveKeeps(proc: seq<Slot>, queue: seq<seq<nat>>, live: set<nat>, p: nat)
    requires Placed(proc, queue, live) && p < |proc|
    ensures Placed(proc, RemovedFrom(proc, queue, p), live - {p})
  {
    forall i: nat, x: nat ensures PlacedAt(proc, RemovedFrom(proc, queue, p), live - {p}, i, x) {
      assert PlacedAt(proc, queue, live, i, x);
      S.RemovedCount(queue[proc[p].priority], p);
    }
  }

  /** The entry of a process in no queue may change as it likes. */
  lemma SlotKeeps(proc: seq<Slot>, queue: seq<seq<nat>>, live: set<nat>, p: nat, slot: Slot)
    requires Placed(proc, queue, live) && p < |proc| && slot.priority < NPRIO
    requires p in live ==> slot.priority == proc[p].priority
    ensures Placed(proc[p := slot], queue, live)
  {
    var proc1 := proc[p := slot];
    forall i: nat, x: nat ensures PlacedAt(proc1, queue, live, i, x) { assert PlacedAt(proc, queue, live, i, x); }
  }

  lemma RotateKeeps(proc: seq<Slot>, queue: seq<seq<nat>>, live: set<nat>, p: nat)
    requires Placed(proc, queue, live) && p < |proc| && p in live
    ensures Placed(proc, Inserted(proc, RemovedFrom(proc, queue, p), p), live)
  {
    RemoveKeeps(proc, queue, live, p);
    InsertKeeps(proc, RemovedFrom(proc, queue, p), live - {p}, p);
    assert live - {p} + {p} == live;
  }

  /** What nice does to the process it finds. */
  function Niced(proc: seq<Slot>, queue: seq<seq<nat>>, p: nat, priority: nat): (r: (seq<Slot>, seq<seq<nat>>))
    requires Tables(proc, queue) && p < |proc| && priority < NPRIO
  {
    (proc[p := proc[p].(priority := priority)], S.Requeued(queue, proc[p].priority, priority, p))
  }

  /** The processes of the scheduler's machine that are between insertion and removal. */
  ghost function Live(s: S.State): set<nat> { set p | 0 <= p < |s.proc| && s.proc[p].life == S.Queued }

  /** In the scheduler's machine, the queues are exact exactly when its live processes are placed. */
  lemma ExactIffPlaced(s: S.State, proc: seq<Slot>)
    requires S.Shape(s) && |proc| == |s.proc|
    requires forall p :: 0 <= p < |proc| ==> proc[p].priority == s.proc[p].prio < NPRIO
    ensures S.Exact(s) <==> Placed(proc, s.queue, Live(s))
  {
    forall i: nat, p: nat ensures S.OkQueue(s, i, p) <==> PlacedAt(proc, s.queue, Live(s), i, p) {
    }
    if S.Exact(s) {
      forall i: nat, p: nat ensures PlacedAt(proc, s.queue, Live(s), i, p) { assert S.OkQueue(s, i, p); }
    }
    if Placed(proc, s.queue, Live(s)) {
      forall i: nat, p: nat ensures S.OkQueue(s, i, p) { assert PlacedAt(proc, s.queue, Live(s), i, p); }
    }
  }

  /** nice keeps every live process, and nothing else, in its queue exactly when the process it finds is live: on a slot
      that is UNUSED or ZOMBIE, as with pid 0, it puts a dead process in a queue. */
  lemma NiceKeepsIff(proc: seq<Slot>, queue: seq<seq<nat>>, live: set<nat>, p: nat, priority: nat)
    requires Placed(proc, queue, live) && p < |proc| && priority < NPRIO
    ensures var (proc1, queue1) := Niced(proc, queue, p, priority); Placed(proc1, queue1, live) <==> p in live
    ensures var (proc1, queue1) := Niced(proc, queue, p, priority); Placed(proc1, queue1, live + {p})
  {
    var slot := proc[p].(priority := priority);
    var proc1, queue0 := proc[p := slot], RemovedFrom(proc, queue, p);
    RemoveKeeps(proc, queue, live, p);
    SlotKeeps(proc, queue0, live - {p}, p, slot);
    InsertKeeps(proc1, queue0, live - {p}, p);
    assert live - {p} + {p} == live + {p};
    var queue1 := Inserted(proc1, queue0, p);
    assert queue1 == Niced(proc, queue, p, priority).1;
    assert PlacedAt(proc1, queue1, live + {p}, priority, p);
    if Placed(proc1, queue1, live) {
      assert PlacedAt(proc1, queue1, live, priority, p);
    } else {
      assert live + {p} != live;
    }
  }

  // ---------------------------------------------------------------- which process a pick chooses

  function FirstReady(q: seq<nat>, proc: seq<Slot>): (k: nat)
    ensures k <= |q| && (k < |q| ==> Ready(proc, q[k])) && forall l :: 0 <= l < k ==> !Ready(proc, q[l])
  {
    if q == [] || Ready(proc, q[0]) then 0 else 1 + FirstReady(q[1..], proc)
  }

  predicate NoneReady(q: seq<nat>, proc: seq<Slot>) { forall k :: 0 <= k < |q| ==> !Ready(proc, q[k]) }

  /** The first queue from i on with a ready process. */
  function PickQueue(queue: seq<seq<nat>>, proc: seq<Slot>, i: nat): (r: nat)
    requires i <= |queue|
    ensures i <= r <= |queue| && (r < |queue| ==> !NoneReady(queue[r], proc))
    ensures forall j :: i <= j < r ==> NoneReady(queue[j], proc)
    decreases |queue| - i
  {
    if i == |queue| then i else if !NoneReady(queue[i], proc) then i else PickQueue(queue, proc, i + 1)
  }

  /** The process the scheduler picks. */
  function Picked(queue: seq<seq<nat>>, proc: seq<Slot>): Option<nat> {
    var i := PickQueue(queue, proc, 0);
    if i == |queue| then None else Some(queue[i][FirstReady(queue[i], proc)])
  }

  /** The scheduler moves the process it picks to the end of the queue it was in. */
  function AfterPick(queue: seq<seq<nat>>, proc: seq<Slot>): seq<seq<nat>> {
    var i := PickQueue(queue, proc, 0);
    if i == |queue| then queue
    else
      var p := queue[i][FirstReady(queue[i], proc)];
      queue[i := S.Removed(queue[i], p) + [p]]
  }

  // ---------------------------------------------------------------- round robin

  datatype Event = Pick(proc: seq<Slot>) | Join(i: nat, x: nat) | Leave(i: nat, x: nat)

  function After(queue: seq<seq<nat>>, e: Event): (r: seq<seq<nat>>)
    ensures |r| == |queue|
  {
    match e
    case Pick(proc) => AfterPick(queue, proc)
    case Join(i, x) => if i < |queue| then queue[i := queue[i] + [x]] else queue
    case Leave(i, x) => if i < |queue| then queue[i := S.Removed(queue[i], x)] else queue
  }

  function Picks(evs: seq<Event>): nat {
    if evs == [] then 0 else (if evs[0].Pick? then 1 else 0) + Picks(evs[1..])
  }

  /** Through all the events p stays queued, and at every pick it is RUNNABLE and no queue before i has a RUNNABLE
      process. */
  ghost predicate Waiting(queue: seq<seq<nat>>, evs: seq<Event>, i: nat, p: nat)
    decreases evs
  {
    evs != [] ==>
    && (match evs[0]
        case Pick(proc) => Ready(proc, p) && (forall j :: 0 <= j < i && j < |queue| ==> NoneReady(queue[j], proc))
        case Join(_, x) => x != p
        case Leave(_, x) => x != p)
    && Waiting(After(queue, evs[0]), evs[1..], i, p)
  }

  ghost predicate PickedIn(queue: seq<seq<nat>>, evs: seq<Event>, p: nat)
    decreases evs
  {
    && evs != []
    && ((evs[0].Pick? && Picked(queue, evs[0].proc) == Some(p)) || PickedIn(After(queue, evs[0]), evs[1..], p))
  }

  /** Taking x out from before p moves p one place forward; from behind p, or an x that is not there, leaves p in its
      place. */
  lemma {:induction false} RemovedFirst(q: seq<nat>, x: nat, p: nat, k: nat)
    requires FirstAt(q, p, k) && x != p
    ensures FirstAt(S.Removed(q, x), p, if x in q[..k] then k - 1 else k)
  {
    if q[0] != x {
      if k > 0 {
        assert q[..k] == [q[0]] + q[1..][..k - 1];
        RemovedFirst(q[1..], x, p, k - 1);
        var r, l := S.Removed(q[1..], x), if x in q[1..][..k - 1] then k - 2 else k - 1;
        assert ([q[0]] + r)[..l + 1] == [q[0]] + r[..l];
      }
    } else {
      assert q[..k] == [q[0]] + q[1..][..k - 1];
    }
  }

  lemma AppendFirst(q: seq<nat>, x: nat, p: nat, k: nat)
    requires FirstAt(q, p, k)
    ensures FirstAt(q + [x], p, k)
  {
    assert (q + [x])[..k] == q[..k];
  }

  /** A pick that passes p over moves p one place forward. */
  lemma PickAdvances(queue: seq<seq<nat>>, proc: seq<Slot>, i: nat, p: nat, k: nat)
    requires i < |queue| && FirstAt(queue[i], p, k) && Ready(proc, p)
    requires forall j :: 0 <= j < i ==> NoneReady(queue[j], proc)
    requires Picked(queue, proc) != Some(p)
    ensures k > 0 && FirstAt(AfterPick(queue, proc)[i], p, k - 1)
  {
    var q := queue[i];
    assert Ready(proc, q[k]);
    var j := PickQueue(queue, proc, 0);
    assert j == i;
    var m := FirstReady(q, proc);
    assert m < k && q[m] == q[..k][m];
    RemovedFirst(q, q[m], p, k);
    AppendFirst(S.Removed(q, q[m]), q[m], p, k - 1);
  }

  /** A process that stays RUNNABLE at position k of queue i, while no queue before i has a RUNNABLE process, is picked
      within k + 1 picks, whoever else joins and leaves. */
  lemma {:induction false} RoundRobin(queue: seq<seq<nat>>, evs: seq<Event>, i: nat, p: nat, k: nat)
    requires i < |queue| && FirstAt(queue[i], p, k) && Waiting(queue, evs, i, p) && Picks(evs) > k
    ensures PickedIn(queue, evs, p)
    decreases evs
  {
    match evs[0]
    case Pick(proc) =>
      if Picked(queue, proc) != Some(p) {
        PickAdvances(queue, proc, i, p, k);
        RoundRobin(After(queue, evs[0]), evs[1..], i, p, k - 1);
      }
    case Join(j, x) =>
      AppendFirst(queue[i], x, p, k);
      RoundRobin(After(queue, evs[0]), evs[1..], i, p, k);
    case Leave(j, x) =>
      RemovedFirst(queue[i], x, p, k);
      RoundRobin(After(queue, evs[0]), evs[1..], i, p, if j == i && x in queue[i][..k] then k - 1 else k);
  }
}
