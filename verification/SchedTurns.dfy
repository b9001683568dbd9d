/** Round robin over the runs of the scheduler (kernel/proc.c): how many processes are dispatched before one that
    waits. */
module SchedTurns {
  import opened Prelude
  import opened Sched
  import opened SchedSteps
  import opened SchedRuns

  // ---------------------------------------------------------------- places in a queue

  /** Taking x out from before p moves p one place forward; from behind p, it leaves p in its place. */
  lemma {:induction false} PlaceRemoved(q: seq<nat>, x: nat, p: nat)
    requires p in q && x != p
    ensures Place(Removed(q, x), p) == if Place(q, x) < Place(q, p) then Place(q, p) - 1 else Place(q, p)
    ensures p in Removed(q, x)
  {
    if q[0] != x && q[0] != p {
      PlaceRemoved(q[1..], x, p);
    }
  }

  lemma {:induction false} PlaceAppend(q: seq<nat>, x: nat, p: nat)
    ensures Place(q + [x], p) == if p in q || x == p then Place(q, p) else |q| + 1
  {
    if q == [] {
      assert q + [x] == [x];
    } else if q[0] != p {
      assert (q + [x])[1..] == q[1..] + [x];
      PlaceAppend(q[1..], x, p);
    }
  }

  /** The place of a process that stays in the queue, after nice has moved another. */
  lemma PlaceRequeued(queue: seq<seq<nat>>, from: nat, to: nat, x: nat, p: nat, i: nat)
    requires from < |queue| && to < |queue| && i < |queue| && p in queue[i] && x != p
    ensures var gone := from == i && Place(queue[i], x) < Place(queue[i], p);
            Place(Requeued(queue, from, to, x)[i], p) == if gone then Place(queue[i], p) - 1 else Place(queue[i], p)
  {
    var q := if from == i then Removed(queue[i], x) else queue[i];
    if from == i {
      PlaceRemoved(queue[i], x, p);
    }
    PlaceAppend(q, x, p);
  }

  // ---------------------------------------------------------------- a process that waits

  /** p is RUNNABLE and in the queue of priority i. */
  ghost predicate Ready(s: State, p: nat, i: nat) {
    Shape(s) && p < |s.proc| && s.proc[p].st == Runnable && s.proc[p].life == Queued && s.proc[p].prio == i < NPRIO
  }

  /** x is of a later queue than p, which is in queue i, or behind p in it. */
  predicate Behind(s: State, x: nat, p: nat, i: nat)
    requires Shape(s) && i < NPRIO
  {
    x < |s.proc| && (s.proc[x].prio > i || (s.proc[x].prio == i && Place(s.queue[i], x) > Place(s.queue[i], p)))
  }

  /** A CPU at pc has passed p over: it looks further on, or has picked a process from there. */
  predicate Beyond(s: State, pc: Pc, p: nat, i: nat)
    requires Shape(s) && i < NPRIO
  {
    match pc
    case Scan(j, pos) => j > i || (j == i && pos > Place(s.queue[i], p))
    case PickWant(x) => Behind(s, x, p, i)
    case Picked(x) => Behind(s, x, p, i)
    case _ => false
  }

  /** The CPU with prio_lock has. */
  predicate Passed(s: State, p: nat, i: nat)
    requires Shape(s) && i < NPRIO
  {
    s.prioLock.Some? && s.prioLock.value < |s.cpu| && Beyond(s, s.cpu[s.prioLock.value].pc, p, i)
  }

  /** A process of queue i, or of a later one, is dispatched. */
  predicate Serves(s: State, a: Action, i: nat) {
    a.Step? && a.c < |s.cpu| && s.cpu[a.c].pc.Picked? && s.cpu[a.c].pc.p < |s.proc| && s.proc[s.cpu[a.c].pc.p].prio >= i
  }

  /** The scheduler is picking x. */
  predicate Picking(s: State, x: nat) {
    && s.prioLock.Some? && s.prioLock.value < |s.cpu|
    && (s.cpu[s.prioLock.value].pc == PickWant(x) || s.cpu[s.prioLock.value].pc == Picked(x))
  }

  /** nice moves the process that the scheduler is picking to queue i or a later one, ... */
  predicate Sinks(s: State, a: Action, i: nat) { a.Nice? && a.k >= i && Picking(s, a.q) }

  /** ... from an earlier queue. */
  predicate Demotes(s: State, a: Action, i: nat) {
    Sinks(s, a, i) && a.q < |s.proc| && s.proc[a.q].prio < i
  }

  /** How many processes may still be dispatched before p. */
  function Turn(s: State, p: nat, i: nat): nat
    requires Shape(s) && i < NPRIO
  {
    Place(s.queue[i], p) + if Passed(s, p, i) then 1 else 0
  }

  lemma InQueue(s: State, p: nat, i: nat)
    requires Inv(s) && Ready(s, p, i)
    ensures p in s.queue[i]
  {
    assert OkQueue(s, i, p);
  }

  /** A step of p's neighbours through the queues. */
  ghost predicate Waits(s: State, a: Action, p: nat, i: nat) {
    && Inv(s) && Enabled(s, a) && Tame(s, a) && Ready(s, p, i) && Ready(Next(s, a), p, i)
    && !(a.Nice? && a.q == p)
  }

  lemma ChooseTurn(s: State, a: Action, p: nat, i: nat)
    requires Waits(s, a, p, i) && a.Choose?
    ensures Turn(Next(s, a), p, i) == Turn(s, p, i) && (Passed(Next(s, a), p, i) <==> Passed(s, p, i))
  {
    assert OkCpu(s, a.c);
  }

  lemma ScanTurn(s: State, a: Action, p: nat, i: nat)
    requires Waits(s, a, p, i) && a.Step? && (s.cpu[a.c].pc.Idle? || s.cpu[a.c].pc.Scan?)
    ensures Passed(Next(s, a), p, i) ==> Passed(s, p, i)
    ensures Turn(Next(s, a), p, i) <= Turn(s, p, i)
  {
    InQueue(s, p, i);
    var pc := s.cpu[a.c].pc;
    assert OkCpu(s, a.c);
    if pc.Scan? && pc.i < NPRIO && pc.pos < |s.queue[pc.i]| {
      var x := s.queue[pc.i][pc.pos];
      assert multiset(s.queue[pc.i])[x] > 0;
      assert OkQueue(s, pc.i, x);
      OncePlace(s.queue[pc.i], pc.pos);
    }
  }

  /** An entry that is in the queue once is at its place. */
  lemma {:induction false} OncePlace(q: seq<nat>, k: nat)
    requires k < |q| && multiset(q)[q[k]] == 1
    ensures Place(q, q[k]) == k
  {
    assert q == q[..k] + q[k..] && q[k..][0] == q[k];
    assert q[k] !in q[..k];
  }

  /** The places of two processes in queue i keep their order while nice moves a third. */
  lemma OrderKept(queue: seq<seq<nat>>, from: nat, to: nat, x: nat, p: nat, y: nat, i: nat)
    requires from < |queue| && to < |queue| && i < |queue| && p in queue[i] && x != p && x != y
    requires y in queue[i]
    ensures var q := Requeued(queue, from, to, x)[i];
            Place(q, y) > Place(q, p) <==> Place(queue[i], y) > Place(queue[i], p)
  {
    PlaceRequeued(queue, from, to, x, p, i);
    PlaceRequeued(queue, from, to, x, y, i);
  }

  /** nice puts a process behind every other of its new queue. */
  lemma LastPlace(queue: seq<seq<nat>>, from: nat, to: nat, x: nat, p: nat)
    requires from < |queue| && to < |queue| && p in queue[to] && x != p
    requires multiset(queue[to])[x] == if from == to then 1 else 0
    ensures var q := Requeued(queue, from, to, x)[to]; Place(q, x) > Place(q, p)
  {
    PlaceRequeued(queue, from, to, x, p, to);
    RemovedCount(queue[from], x);
    var q: seq<nat> := if from == to then Removed(queue[to], x) else queue[to];
    if from == to {
      PlaceRemoved(queue[to], x, p);
    }
    assert multiset(q)[x] == 0;
    assert x !in q;
    PlaceAppend(q, x, x);
  }

  /** nice on the process that the scheduler is picking. */
  lemma NicePicked(s: State, a: Action, p: nat, i: nat)
    requires Waits(s, a, p, i) && a.Nice? && Picking(s, a.q)
    ensures Passed(Next(s, a), p, i) <==> a.k >= i
  {
    InQueue(s, p, i);
    if a.k == i {
      assert OkQueue(s, i, a.q);
      LastPlace(s.queue, s.proc[a.q].prio, i, a.q, p);
    }
  }

  /** A scan that follows its node stays on its side of p. */
  lemma SideKept(queue: seq<seq<nat>>, from: nat, to: nat, x: nat, p: nat, i: nat, pc: Pc)
    requires from < |queue| && to < |queue| && i < |queue| && p in queue[i] && x != p && pc.Scan?
    ensures var q, next := Requeued(queue, from, to, x)[i], Followed(pc, from, Place(queue[from], x));
            next.i == pc.i && (pc.i == i ==> (next.pos > Place(q, p) <==> pc.pos > Place(queue[i], p)))
  {
    PlaceRequeued(queue, from, to, x, p, i);
  }

  /** nice on another, during a scan, ... */
  lemma NiceScanned(s: State, a: Action, p: nat, i: nat, d: nat)
    requires Waits(s, a, p, i) && a.Nice? && s.prioLock == Some(d) && d < |s.cpu| && s.cpu[d].pc.Scan?
    ensures Passed(Next(s, a), p, i) <==> Passed(s, p, i)
  {
    InQueue(s, p, i);
    var from := s.proc[a.q].prio;
    SideKept(s.queue, from, a.k, a.q, p, i, s.cpu[d].pc);
    assert Next(s, a).cpu[d].pc == Followed(s.cpu[d].pc, from, Place(s.queue[from], a.q));
  }

  /** ... or with y picked. */
  lemma NiceAside(s: State, a: Action, p: nat, i: nat, y: nat)
    requires Waits(s, a, p, i) && a.Nice? && Picking(s, y) && a.q != y
    ensures Passed(Next(s, a), p, i) <==> Passed(s, p, i)
  {
    InQueue(s, p, i);
    assert OkPick(s, s.prioLock.value) && OkQueue(s, i, y) && OkCpu(s, s.prioLock.value);
    if s.proc[y].prio == i {
      OrderKept(s.queue, s.proc[a.q].prio, a.k, a.q, p, y, i);
    }
  }

  lemma NiceOther(s: State, a: Action, p: nat, i: nat)
    requires Waits(s, a, p, i) && a.Nice? && !Picking(s, a.q)
    ensures Passed(Next(s, a), p, i) <==> Passed(s, p, i)
  {
    if s.prioLock.Some? && s.prioLock.value < |s.cpu| {
      match s.cpu[s.prioLock.value].pc
      case Scan(_, _) => NiceScanned(s, a, p, i, s.prioLock.value);
      case PickWant(y) => NiceAside(s, a, p, i, y);
      case Picked(y) => NiceAside(s, a, p, i, y);
      case _ =>
    }
  }

  lemma NicePlace(s: State, a: Action, p: nat, i: nat)
    requires Waits(s, a, p, i) && a.Nice?
    ensures Place(Next(s, a).queue[i], p) <= Place(s.queue[i], p)
    ensures s.proc[a.q].prio == i && Place(s.queue[i], a.q) < Place(s.queue[i], p) ==>
              Place(Next(s, a).queue[i], p) == Place(s.queue[i], p) - 1
  {
    InQueue(s, p, i);
    PlaceRequeued(s.queue, s.proc[a.q].prio, a.k, a.q, p, i);
  }

  /** A picked process that has not been picked from beyond p is before it or in an earlier queue. */
  lemma PickedBefore(s: State, p: nat, i: nat, x: nat)
    requires Inv(s) && Ready(s, p, i) && Picking(s, x) && x != p && !Passed(s, p, i)
    ensures x < |s.proc| && (s.proc[x].prio < i || (s.proc[x].prio == i && Place(s.queue[i], x) < Place(s.queue[i], p)))
  {
    InQueue(s, p, i);
    assert OkCpu(s, s.prioLock.value);
  }

  lemma NiceTurn(s: State, a: Action, p: nat, i: nat)
    requires Waits(s, a, p, i) && a.Nice?
    ensures Passed(Next(s, a), p, i) <==> Sinks(s, a, i) || (!Picking(s, a.q) && Passed(s, p, i))
    ensures Turn(Next(s, a), p, i) <= Turn(s, p, i) + if Demotes(s, a, i) then 1 else 0
  {
    NicePlace(s, a, p, i);
    if Picking(s, a.q) {
      NicePicked(s, a, p, i);
      if !Passed(s, p, i) {
        PickedBefore(s, p, i, a.q);
      }
    } else {
      NiceOther(s, a, p, i);
    }
  }

  /** A step without prio_lock leaves the queues and what the scheduler has picked as they are. */
  lemma ApartTurn(s: State, a: Action, p: nat, i: nat)
    requires Waits(s, a, p, i) && a.Step? && Steps(s.cpu[a.c].pc) && !HasPrio(s.cpu[a.c].pc)
    ensures Passed(Next(s, a), p, i) ==> Passed(s, p, i)
    ensures Turn(Next(s, a), p, i) <= Turn(s, p, i)
  {
    var r := Subject(s.cpu[a.c].pc);
    assert OkCpu(s, a.c) && OkLink(s, a.c, r);
    if s.prioLock.Some? && s.prioLock.value < |s.cpu| {
      assert OkPick(s, s.prioLock.value) && OkCpu(s, s.prioLock.value) && OkLink(s, s.prioLock.value, r);
    }
  }

  /** A step with it that takes the lock of a process. */
  lemma LockTurn(s: State, a: Action, p: nat, i: nat)
    requires Waits(s, a, p, i) && a.Step? && (s.cpu[a.c].pc.PickWant? || s.cpu[a.c].pc.ExitLock?)
    ensures Passed(Next(s, a), p, i) ==> Passed(s, p, i)
    ensures Turn(Next(s, a), p, i) <= Turn(s, p, i)
  {
    assert OkCpu(s, a.c);
  }

  /** What a step that changes a queue under prio_lock does to it: all three release the lock. */
  lemma QueueStep(s: State, a: Action)
    requires Inv(s) && Enabled(s, a) && a.Step?
    requires s.cpu[a.c].pc.Picked? || s.cpu[a.c].pc.ExitRemove? || s.cpu[a.c].pc.ForkInsert?
    ensures var pc, t := s.cpu[a.c].pc, Next(s, a);
            var x := Subject(pc);
            && x < |s.proc| && s.proc[x].prio < NPRIO && s.prioLock == Some(a.c) && t.prioLock.None?
            && (!pc.ForkInsert? ==> t.proc[x].st == Running) && (pc.ForkInsert? ==> s.proc[x].life == Fresh)
            && var k := s.proc[x].prio;
               t.queue == s.queue[k := QueueAfter(s.queue[k], x,
                                         if pc.Picked? then Rotate else if pc.ExitRemove? then Remove else Append)]
  {
    var x := Subject(s.cpu[a.c].pc);
    assert OkCpu(s, a.c) && OkLink(s, a.c, x);
  }

  /** The place of p after a change of its queue that concerns another. */
  lemma PlaceAfter(q: seq<nat>, x: nat, p: nat, op: QueueOp)
    requires p in q && x != p
    ensures var gone := (op.Remove? || op.Rotate?) && Place(q, x) < Place(q, p);
            Place(QueueAfter(q, x, op), p) == if gone then Place(q, p) - 1 else Place(q, p)
  {
    PlaceRemoved(q, x, p);
    PlaceAppend(Removed(q, x), x, p);
    PlaceAppend(q, x, p);
  }

  /** The dispatch of a process: one before p goes behind it, and one from further on was picked after p was passed. */
  lemma DispatchTurn(s: State, a: Action, p: nat, i: nat)
    requires Waits(s, a, p, i) && a.Step? && s.cpu[a.c].pc.Picked?
    ensures !Passed(Next(s, a), p, i)
    ensures Turn(Next(s, a), p, i) + (if Serves(s, a, i) then 1 else 0) <= Turn(s, p, i)
  {
    var x := s.cpu[a.c].pc.p;
    InQueue(s, p, i);
    QueueStep(s, a);
    PlaceAfter(s.queue[i], x, p, Rotate);
  }

  /** exit takes a process out, or fork puts one in at the end. */
  lemma MemberTurn(s: State, a: Action, p: nat, i: nat)
    requires Waits(s, a, p, i) && a.Step? && (s.cpu[a.c].pc.ExitRemove? || s.cpu[a.c].pc.ForkInsert?)
    ensures !Passed(Next(s, a), p, i)
    ensures Turn(Next(s, a), p, i) <= Turn(s, p, i)
  {
    var x := Subject(s.cpu[a.c].pc);
    InQueue(s, p, i);
    QueueStep(s, a);
    PlaceAfter(s.queue[i], x, p, if s.cpu[a.c].pc.ExitRemove? then Remove else Append);
  }

  /** Every step: only nice on the process being picked lets the scheduler pass p over, and only a process of an earlier
      queue that it moves there adds to those dispatched before p. */
  lemma StepTurn(s: State, a: Action, p: nat, i: nat)
    requires Waits(s, a, p, i)
    ensures Passed(Next(s, a), p, i) ==> Passed(s, p, i) || Sinks(s, a, i)
    ensures Sinks(s, a, i) ==> Passed(Next(s, a), p, i)
    ensures var t := Next(s, a);
            Turn(t, p, i) + (if Serves(s, a, i) then 1 else 0) <= Turn(s, p, i) + if Demotes(s, a, i) then 1 else 0
  {
    match a
    case Choose(_, _) => ChooseTurn(s, a, p, i);
    case Nice(_, _, _) => NiceTurn(s, a, p, i);
    case Step(c, _) =>
      var pc := s.cpu[c].pc;
      if pc.Idle? || pc.Scan? {
        ScanTurn(s, a, p, i);
      } else if !HasPrio(pc) {
        ApartTurn(s, a, p, i);
      } else if pc.Picked? {
        DispatchTurn(s, a, p, i);
      } else if pc.ExitRemove? || pc.ForkInsert? {
        MemberTurn(s, a, p, i);
      } else {
        LockTurn(s, a, p, i);
      }
  }

  // ---------------------------------------------------------------- a run

  /** How many processes of queue i and later ones are dispatched. */
  function Dispatches(ss: seq<State>, acts: seq<Action>, i: nat): nat
    requires |ss| == |acts| + 1
  {
    if acts == [] then 0
    else (if Serves(ss[0], acts[0], i) then 1 else 0) + Dispatches(ss[1..], acts[1..], i)
  }

  /** How many are moved there from earlier ones by nice while they are being picked. */
  function Demotions(ss: seq<State>, acts: seq<Action>, i: nat): nat
    requires |ss| == |acts| + 1
  {
    if acts == [] then 0
    else (if Demotes(ss[0], acts[0], i) then 1 else 0) + Demotions(ss[1..], acts[1..], i)
  }

  /** p is RUNNABLE in queue i throughout, and nice is not called on it. */
  ghost predicate WaitsThrough(ss: seq<State>, acts: seq<Action>, p: nat, i: nat) {
    && (forall j :: 0 <= j < |ss| ==> Ready(ss[j], p, i))
    && (forall j :: 0 <= j < |acts| ==> !(acts[j].Nice? && acts[j].q == p))
  }

  lemma {:induction false} TurnsLeft(ss: seq<State>, acts: seq<Action>, p: nat, i: nat)
    requires Leads(ss, acts) && TameRun(ss, acts) && Inv(ss[0]) && WaitsThrough(ss, acts, p, i)
    ensures Dispatches(ss, acts, i) <= Turn(ss[0], p, i) + Demotions(ss, acts, i)
    decreases |acts|
  {
    assert Ready(ss[0], p, i);
    if acts != [] {
      assert StepsTo(ss[0], acts[0], ss[1]) && Tame(ss[0], acts[0]) && Ready(ss[1], p, i);
      StepTurn(ss[0], acts[0], p, i);
      StepInv(ss[0], acts[0]);
      LeadsRest(ss, acts);
      TurnsLeft(ss[1..], acts[1..], p, i);
    }
  }

  /** Round robin: while a RUNNABLE process waits at place k of its queue, at most k processes of its own or a later
      queue are dispatched, and one more if a scan had passed it over when it began to wait; every one that nice moves
      from an earlier queue while it is being picked may add one. */
  lemma RoundRobin(ss: seq<State>, acts: seq<Action>, p: nat, i: nat)
    requires Leads(ss, acts) && TameRun(ss, acts) && Inv(ss[0]) && WaitsThrough(ss, acts, p, i)
    ensures Shape(ss[0]) && i < NPRIO && p in ss[0].queue[i]
    ensures var k := Place(ss[0].queue[i], p);
            Dispatches(ss, acts, i) <= k + (if Passed(ss[0], p, i) then 1 else 0) + Demotions(ss, acts, i)
  {
    assert Ready(ss[0], p, i);
    InQueue(ss[0], p, i);
    TurnsLeft(ss, acts, p, i);
  }
}
