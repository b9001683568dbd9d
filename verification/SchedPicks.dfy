/** What the scheduler on one CPU finds when it is left alone (kernel/proc.c): the RUNNABLE process that the queues
    name. */
module SchedPicks {
  import opened Prelude
  import opened Sched
  import opened SchedSteps
  import opened SchedRuns
  import P = PrioSpec

  /** The process table as far as the queues go. */
  function Slots(s: State): seq<P.Slot> {
    seq(|s.proc|, p requires 0 <= p < |s.proc| => P.Slot(0, s.proc[p].prio, s.proc[p].st))
  }

  /** The state s, but for CPU c, which has prio_lock and is at pc. */
  function Seen(s: State, c: nat, pc: Pc): State
    requires c < |s.cpu|
  {
    s.(prioLock := Some(c), cpu := s.cpu[c := Cpu(pc, None)])
  }

  /** The steps of a scan of the first i queues. */
  function Looks(queue: seq<seq<nat>>, i: nat): nat
    requires i <= |queue|
  {
    if i == 0 then 0 else Looks(queue, i - 1) + |queue[i - 1]| + 1
  }

  /** CPU c is in its scheduler, about to look, and may. */
  ghost predicate Ready(s: State, c: nat) {
    Safe(s) && c < |s.cpu| && s.cpu[c] == Cpu(Idle, None) && s.prioLock.None?
  }

  /** Whatever is in a queue is a process. */
  lemma InTable(s: State, i: nat, pos: nat)
    requires Safe(s) && i < NPRIO && pos < |s.queue[i]|
    ensures InRange(s, s.queue[i][pos])
  {
    var x := s.queue[i][pos];
    assert multiset(s.queue[i])[x] > 0;
    assert OkEntry(s, i, x) && OkProc(s, x);
  }

  /** Where a scan goes from an entry. */
  function Onward(s: State, i: nat, pos: nat): Pc
    requires Shape(s) && i < NPRIO
  {
    if pos >= |s.queue[i]| then Scan(i + 1, 0)
    else if P.Ready(Slots(s), s.queue[i][pos]) then PickWant(s.queue[i][pos])
    else Scan(i, pos + 1)
  }

  lemma Look(s: State, c: nat, i: nat, pos: nat)
    requires Ready(s, c) && i < NPRIO
    ensures var t := Seen(s, c, Scan(i, pos));
            Shape(t) && Enabled(t, Step(c, false)) && Next(t, Step(c, false)) == Seen(s, c, Onward(s, i, pos))
  {
    if pos < |s.queue[i]| {
      InTable(s, i, pos);
    }
    var t, pc := Seen(s, c, Scan(i, pos)), Onward(s, i, pos);
    assert t.cpu[c := Cpu(pc, None)] == s.cpu[c := Cpu(pc, None)];
  }

  /** Where a scan stands after n steps. */
  function Scanned(s: State, n: nat): Pc
    requires Shape(s)
  {
    if n == 0 then Scan(0, 0)
    else
      var pc := Scanned(s, n - 1);
      if pc.Scan? && pc.i < NPRIO then Onward(s, pc.i, pc.pos) else pc
  }

  /** CPU c, left alone, goes through the scan. */
  lemma {:induction false} AloneScans(s: State, c: nat, n: nat)
    requires Ready(s, c) && (n > 0 ==> var pc := Scanned(s, n - 1); pc.Scan? && pc.i < NPRIO)
    ensures Alone(s, c, n + 1) == Some(Seen(s, c, Scanned(s, n)))
  {
    if n == 0 {
      LookFirst(s, c);
    } else {
      AloneScans(s, c, n - 1);
      var pc := Scanned(s, n - 1);
      Look(s, c, pc.i, pc.pos);
      AloneNext(s, c, n, Seen(s, c, pc));
    }
  }

  lemma LookFirst(s: State, c: nat)
    requires Ready(s, c)
    ensures Alone(s, c, 1) == Some(Seen(s, c, Scan(0, 0)))
  {
    AloneNext(s, c, 0, s);
  }

  lemma {:induction false} LookTo(s: State, n: nat, i: nat, k: nat)
    requires Shape(s) && Scanned(s, n) == Scan(i, 0)
    requires i < NPRIO && k <= |s.queue[i]| && forall l :: 0 <= l < k ==> !P.Ready(Slots(s), s.queue[i][l])
    ensures Scanned(s, n + k) == Scan(i, k)
  {
    if k > 0 {
      LookTo(s, n, i, k - 1);
    }
  }

  /** The scan passes over queues without a RUNNABLE process. */
  lemma {:induction false} LookPast(s: State, i: nat)
    requires Shape(s) && i <= NPRIO && forall j :: 0 <= j < i ==> P.NoneReady(s.queue[j], Slots(s))
    ensures Scanned(s, Looks(s.queue, i)) == Scan(i, 0)
  {
    if i > 0 {
      LookPast(s, i - 1);
      assert P.NoneReady(s.queue[i - 1], Slots(s));
      LookTo(s, Looks(s.queue, i - 1), i - 1, |s.queue[i - 1]|);
    }
  }

  /** Behind the last queue the scheduler gives up. */
  lemma LookLast(s: State, c: nat, n: nat)
    requires Ready(s, c) && Alone(s, c, n) == Some(Seen(s, c, Scan(NPRIO, 0)))
    ensures Alone(s, c, n + 1) == Some(s)
  {
    var t := Seen(s, c, Scan(NPRIO, 0));
    AloneNext(s, c, n, t);
    assert t.cpu[c := Cpu(Idle, None)] == s.cpu;
  }

  /** How many steps the scheduler takes until it wants the lock of the process it has found, or is back. */
  function Steps(s: State): nat
    requires Shape(s)
  {
    var i := P.PickQueue(s.queue, Slots(s), 0);
    2 + Looks(s.queue, i) + if i == NPRIO then 0 else P.FirstReady(s.queue[i], Slots(s))
  }

  /** The scan ends behind the last queue, ... */
  lemma FindsNone(s: State)
    requires Shape(s) && P.PickQueue(s.queue, Slots(s), 0) == NPRIO
    ensures Steps(s) >= 3 && Scanned(s, Steps(s) - 2) == Scan(NPRIO, 0)
    ensures var pc := Scanned(s, Steps(s) - 3); pc.Scan? && pc.i < NPRIO
  {
    LookPast(s, NPRIO);
    LookPast(s, NPRIO - 1);
    assert P.NoneReady(s.queue[NPRIO - 1], Slots(s));
    LookTo(s, Looks(s.queue, NPRIO - 1), NPRIO - 1, |s.queue[NPRIO - 1]|);
  }

  /** ... or at the process that the queues name. */
  lemma FindsOne(s: State, x: nat)
    requires Shape(s) && P.Picked(s.queue, Slots(s)) == Some(x)
    ensures Steps(s) >= 2 && Scanned(s, Steps(s) - 1) == PickWant(x)
    ensures var pc := Scanned(s, Steps(s) - 2); pc.Scan? && pc.i < NPRIO
  {
    var i := P.PickQueue(s.queue, Slots(s), 0);
    LookPast(s, i);
    LookTo(s, Looks(s.queue, i), i, P.FirstReady(s.queue[i], Slots(s)));
  }

  lemma AloneAt(s: State, c: nat, n: nat, m: nat)
    requires Ready(s, c) && m == n + 1 && (n > 0 ==> var pc := Scanned(s, n - 1); pc.Scan? && pc.i < NPRIO)
    ensures Alone(s, c, m) == Some(Seen(s, c, Scanned(s, n)))
  {
    AloneScans(s, c, n);
  }

  lemma BackAfter(s: State, c: nat, m: nat)
    requires Ready(s, c) && m >= 3 && Scanned(s, m - 2) == Scan(NPRIO, 0)
    requires var pc := Scanned(s, m - 3); pc.Scan? && pc.i < NPRIO
    ensures Alone(s, c, m) == Some(s)
  {
    AloneAt(s, c, m - 2, m - 1);
    LookLast(s, c, m - 1);
  }

  lemma ComesBack(s: State, c: nat)
    requires Ready(s, c) && P.Picked(s.queue, Slots(s)).None?
    ensures Alone(s, c, Steps(s)) == Some(s)
  {
    FindsNone(s);
    BackAfter(s, c, Steps(s));
  }

  lemma ComesTo(s: State, c: nat, x: nat)
    requires Ready(s, c) && P.Picked(s.queue, Slots(s)) == Some(x)
    ensures Alone(s, c, Steps(s)) == Some(Seen(s, c, PickWant(x)))
  {
    var m := Steps(s);
    FindsOne(s, x);
    AloneAt(s, c, m - 1, m);
  }

  /** CPU c has dispatched x: it is RUNNING there, with its lock, and prio_lock is free. */
  ghost predicate Dispatched(s: State, t: State, c: nat, x: nat) {
    && c < |s.cpu| && x < |s.proc| && t.prioLock.None? && t.cpu == s.cpu[c := Cpu(Resume(x), Some(x))]
    && t.proc == s.proc[x := s.proc[x].(lock := Some(c), st := Running)]
  }

  /** With the lock of the process it has found, two steps dispatch it; without, the scheduler waits. */
  lemma PickTakes(s: State, c: nat, x: nat)
    requires Ready(s, c) && x < |s.proc|
    ensures var t := Seen(s, c, PickWant(x)); Shape(t) && (Enabled(t, Step(c, false)) <==> s.proc[x].lock.None?)
    ensures s.proc[x].lock.None? ==>
              var t := Next(Seen(s, c, PickWant(x)), Step(c, false));
              && Shape(t) && Enabled(t, Step(c, false)) && Dispatched(s, Next(t, Step(c, false)), c, x)
              && var k := s.proc[x].prio;
                 Next(t, Step(c, false)).queue == s.queue[k := Removed(s.queue[k], x) + [x]]
  {
    assert OkProc(s, x);
    if s.proc[x].lock.None? {
      var t := Seen(s, c, PickWant(x));
      var t1 := Next(t, Step(c, false));
      assert t1.proc[x] == s.proc[x].(lock := Some(c)) && t1.queue == s.queue;
      var t2 := Next(t1, Step(c, false));
      assert t2.cpu == s.cpu[c := Cpu(Resume(x), Some(x))];
      assert t2.proc == s.proc[x := s.proc[x].(lock := Some(c), st := Running)];
    }
  }

  /** The process picked is RUNNABLE, and in exact queues it is in the one of its priority. */
  lemma PickedOne(s: State, x: nat)
    requires Safe(s) && P.Picked(s.queue, Slots(s)) == Some(x)
    ensures x < |s.proc| && s.proc[x].st == Runnable
    ensures Exact(s) ==> s.proc[x].prio == P.PickQueue(s.queue, Slots(s), 0)
  {
    var i := P.PickQueue(s.queue, Slots(s), 0);
    var q := s.queue[i];
    assert P.Ready(Slots(s), q[P.FirstReady(q, Slots(s))]);
    if Exact(s) {
      assert multiset(q)[x] > 0;
      assert OkQueue(s, i, x);
    }
  }

  lemma AloneTwice(s: State, c: nat, n: nat, t: State, u: State)
    requires Alone(s, c, n) == Some(t) && Shape(t) && Enabled(t, Step(c, false))
    requires Shape(Next(t, Step(c, false))) && Enabled(Next(t, Step(c, false)), Step(c, false))
    requires u == Next(Next(t, Step(c, false)), Step(c, false))
    ensures Alone(s, c, n + 2) == Some(u)
  {
    AloneNext(s, c, n, t);
    AloneNext(s, c, n + 1, Next(t, Step(c, false)));
  }

  lemma Dispatches(s: State, c: nat, x: nat)
    requires Ready(s, c) && P.Picked(s.queue, Slots(s)) == Some(x)
    ensures x < |s.proc| && s.proc[x].st == Runnable && Alone(s, c, Steps(s)) == Some(Seen(s, c, PickWant(x)))
    ensures s.proc[x].lock.None? ==> var r := Alone(s, c, Steps(s) + 2); r.Some? && Dispatched(s, r.value, c, x)
    ensures s.proc[x].lock.None? && Exact(s) ==> Alone(s, c, Steps(s) + 2).value.queue == P.AfterPick(s.queue, Slots(s))
  {
    ComesTo(s, c, x);
    PickedOne(s, x);
    if s.proc[x].lock.None? {
      PickTakes(s, c, x);
      var t := Seen(s, c, PickWant(x));
      AloneTwice(s, c, Steps(s), t, Next(Next(t, Step(c, false)), Step(c, false)));
    }
  }

  /** In every interleaving, whatever nice was called on: a scheduler that finds prio_lock free and is left alone finds,
      in a number of steps that the queue lengths give, the first RUNNABLE process of the first queue that has one, and
      dispatches it in two more if its lock is free. If no queued process is RUNNABLE, it is back where it was. */
  lemma SchedulerPicks(ss: seq<State>, acts: seq<Action>, c: nat)
    requires Execution(ss, acts) && c < |ss[|acts|].cpu|
    requires ss[|acts|].cpu[c].pc == Idle && ss[|acts|].prioLock.None?
    ensures var s := ss[|acts|];
            Shape(s) &&
            match P.Picked(s.queue, Slots(s))
            case None => Alone(s, c, Steps(s)) == Some(s)
            case Some(x) =>
              && x < |s.proc| && s.proc[x].st == Runnable
              && Alone(s, c, Steps(s)) == Some(Seen(s, c, PickWant(x)))
              && (s.proc[x].lock.None? ==>
                    var r := Alone(s, c, Steps(s) + 2);
                    && r.Some? && Dispatched(s, r.value, c, x)
                    && (TameRun(ss, acts) ==> r.value.queue == P.AfterPick(s.queue, Slots(s))))
  {
    var s := ss[|acts|];
    RunSafe(ss, acts);
    if TameRun(ss, acts) {
      RunInv(ss, acts);
    }
    assert OkCpu(s, c);
    match P.Picked(s.queue, Slots(s))
    case None => ComesBack(s, c);
    case Some(x) => Dispatches(s, c, x);
  }

  // ---------------------------------------------------------------- wakeup

  /** CPU c is in wakeup, about to lock the sleeping process q, and may. */
  ghost predicate Wakes(s: State, c: nat, q: nat) {
    && c < |s.cpu| && s.cpu[c].pc.WakeWant? && s.cpu[c].pc.q == q
    && q < |s.proc| && s.proc[q].st == Sleeping && s.proc[q].lock.None?
  }

  /** wakeup makes a process that sleeps on its channel RUNNABLE, and leaves one that does not asleep. */
  lemma WakeupWakes(s: State, c: nat, q: nat, hit: bool)
    requires Inv(s) && Wakes(s, c, q)
    ensures Enabled(s, Step(c, false)) && Shape(Next(s, Step(c, false)))
    ensures Enabled(Next(s, Step(c, false)), Step(c, hit))
    ensures var u := Next(Next(s, Step(c, false)), Step(c, hit));
            && Inv(u) && u.queue == s.queue && u.prioLock == s.prioLock
            && u.proc == s.proc[q := s.proc[q].(st := if hit then Runnable else Sleeping)]
            && u.cpu == s.cpu[c := s.cpu[c].(pc := Run(s.cpu[c].pc.p))]
  {
    assert OkProc(s, q) && OkCpu(s, c);
    var t := Next(s, Step(c, false));
    StepInv(s, Step(c, false));
    assert t.proc[q] == s.proc[q].(lock := Some(c)) && t.queue == s.queue;
    var u := Next(t, Step(c, hit));
    StepInv(t, Step(c, hit));
    assert u.queue == s.queue;
    assert u.proc == s.proc[q := s.proc[q].(st := if hit then Runnable else Sleeping)];
    assert u.cpu == s.cpu[c := s.cpu[c].(pc := Run(s.cpu[c].pc.p))];
  }

  /** Of exact queues with one RUNNABLE process, that one is picked. */
  lemma OnlyOne(s: State, q: nat)
    requires Inv(s) && q < |s.proc| && s.proc[q].life == Queued && s.proc[q].st == Runnable
    requires forall p :: 0 <= p < |s.proc| && s.proc[p].life == Queued && s.proc[p].st == Runnable ==> p == q
    ensures P.Picked(s.queue, Slots(s)) == Some(q)
  {
    var k := s.proc[q].prio;
    assert OkProc(s, q) && OkQueue(s, k, q);
    assert q in s.queue[k];
    var l :| 0 <= l < |s.queue[k]| && s.queue[k][l] == q;
    assert P.Ready(Slots(s), s.queue[k][l]);
    var i := P.PickQueue(s.queue, Slots(s), 0);
    assert i <= k;
    var x := s.queue[i][P.FirstReady(s.queue[i], Slots(s))];
    assert multiset(s.queue[i])[x] > 0;
    assert OkQueue(s, i, x);
  }

  /** In every interleaving with nice on queued processes: a process that sleeps on the channel of a wakeup, when no
      other is RUNNABLE, is dispatched by a scheduler that then looks alone. */
  lemma WakeupRuns(ss: seq<State>, acts: seq<Action>, c: nat, d: nat, q: nat)
    requires Execution(ss, acts) && TameRun(ss, acts) && Wakes(ss[|acts|], c, q)
    requires d < |ss[|acts|].cpu| && ss[|acts|].cpu[d].pc == Idle && ss[|acts|].prioLock.None?
    requires forall p :: 0 <= p < |ss[|acts|].proc| && ss[|acts|].proc[p].life == Queued ==>
                           ss[|acts|].proc[p].st != Runnable
    ensures var s := ss[|acts|];
            && Shape(s) && Enabled(s, Step(c, false)) && Shape(Next(s, Step(c, false)))
            && Enabled(Next(s, Step(c, false)), Step(c, true))
            && var u := Next(Next(s, Step(c, false)), Step(c, true));
               && Shape(u) && Alone(u, d, Steps(u) + 2).Some?
               && Dispatched(u, Alone(u, d, Steps(u) + 2).value, d, q)
  {
    var s := ss[|acts|];
    RunInv(ss, acts);
    WakeupWakes(s, c, q, true);
    var u := Next(Next(s, Step(c, false)), Step(c, true));
    assert OkProc(s, q) && OkCpu(u, d);
    OnlyOne(u, q);
    Dispatches(u, d, q);
  }
}
