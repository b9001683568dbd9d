/** Every step of the machine of module Sched keeps what holds in every run; the steps that keep the queues exact. */
module SchedSteps {
  import opened Prelude
  import opened Sched

  // ------------------------------------------------ what a step of d does to what holds of d and of others

  /** A step leaves the CPU's hold on processes that are not its subject as it was. */
  lemma ElseHolds(d: nat, pc: Pc, x: Proc, hit: bool, p: nat)
    requires Steps(pc) && p != Subject(pc)
    ensures var next := Local(d, pc, x, hit).pc;
            && (HasLock(next, p) <==> HasLock(pc, p)) && (ForkQueues(next, p) <==> ForkQueues(pc, p))
            && !((next.PickWant? || next.Picked?) && next.p == p) && !(next.ForkMade? && next.q == p)
  {
  }

  /** The step of d keeps what holds of d and the subject, and of the subject by itself. */
  lemma OwnLink(d: nat, pc: Pc, x: Proc, hit: bool)
    requires Steps(pc) && ProcOk(x) && Link(d, pc, Subject(pc), x) && (HasOwn(pc) && HasOther(pc) ==> pc.p != pc.q)
    requires (pc.ExitOwn? ==> pc.p != pc.q) && (WantsLock(pc) ==> x.lock.None?)
    ensures var e := Local(d, pc, x, hit); Link(d, e.pc, Subject(pc), e.x)
    ensures ProcOk(Local(d, pc, x, hit).x)
  {
  }

  /** ... of d by itself, ... */
  lemma OwnCpu(prioLock: Option<nat>, n: nat, d: nat, cpu: Cpu, x: Proc, hit: bool)
    requires Steps(cpu.pc) && CpuOk(prioLock, n, d, cpu) && (WantsPrio(cpu.pc) ==> prioLock.None?)
    ensures var e := Local(d, cpu.pc, x, hit); CpuOk(PrioAfter(prioLock, d, e.prio), n, d, Cpu(e.pc, CurAfter(cpu)))
  {
  }

  /** ... of d and any other process, ... */
  lemma OwnElse(d: nat, pc: Pc, x: Proc, hit: bool, p: nat, y: Proc)
    requires Steps(pc) && p != Subject(pc) && Link(d, pc, p, y)
    ensures Link(d, Local(d, pc, x, hit).pc, p, y)
  {
    ElseHolds(d, pc, x, hit, p);
  }

  /** ... and of another CPU, by itself and with the subject. */
  lemma OtherKept(prioLock: Option<nat>, n: nat, d: nat, cpu: Cpu, x: Proc, hit: bool, c: nat, other: Cpu)
    requires Steps(cpu.pc) && c != d && CpuOk(prioLock, n, d, cpu) && CpuOk(prioLock, n, c, other)
    requires Apart(cpu.pc, other.pc) && Link(d, cpu.pc, Subject(cpu.pc), x) && Link(c, other.pc, Subject(cpu.pc), x)
    requires (WantsPrio(cpu.pc) ==> prioLock.None?) && (WantsLock(cpu.pc) ==> x.lock.None?)
    ensures var e := Local(d, cpu.pc, x, hit); Link(c, other.pc, Subject(cpu.pc), e.x)
    ensures var e := Local(d, cpu.pc, x, hit); CpuOk(PrioAfter(prioLock, d, e.prio), n, c, other)
    ensures Apart(Local(d, cpu.pc, x, hit).pc, other.pc)
  {
  }

  /** A choice of d keeps what holds of d and any process. */
  lemma ChosenLink(d: nat, pc: Pc, ch: Choice, p: nat, x: Proc)
    requires Chosen(pc, ch).Some? && Link(d, pc, p, x)
    ensures Link(d, Chosen(pc, ch).value, p, x) && Bound(Chosen(pc, ch).value) == Bound(pc)
  {
  }

  /** A scan holds no process, and picks one that is RUNNABLE. */
  lemma ScanLink(d: nat, pc: Pc, next: Pc, p: nat, x: Proc)
    requires (pc.Idle? || pc.Scan?) && (next.Idle? || next.Scan? || next.PickWant?) && Link(d, pc, p, x)
    requires next.PickWant? && next.p == p ==> x.st == Runnable
    ensures Link(d, next, p, x)
  {
  }

  // ---------------------------------------------------------------- every step keeps what holds in every run

  /** How many times the subject stands in its queue, after the step. */
  lemma QueueAfterCount(q: seq<nat>, r: nat, op: QueueOp, p: nat)
    ensures var n := multiset(q)[r];
            multiset(QueueAfter(q, r, op))[r] == (match op
                                                  case Stay => n
                                                  case Append => n + 1
                                                  case Remove => if n == 0 then 0 else n - 1
                                                  case Rotate => if n == 0 then 1 else n)
    ensures p != r ==> multiset(QueueAfter(q, r, op))[p] == multiset(q)[p]
  {
    RemovedCount(q, r);
  }

  lemma ApplyLink(s: State, d: nat, hit: bool, c: nat, p: nat)
    requires Safe(s) && Enabled(s, Step(d, hit)) && Steps(s.cpu[d].pc)
    ensures OkLink(Next(s, Step(d, hit)), c, p) && OkProc(Next(s, Step(d, hit)), p)
  {
    var pc := s.cpu[d].pc;
    var r := Subject(pc);
    assert OkCpu(s, d) && OkLink(s, c, p) && OkLink(s, d, p) && OkLink(s, d, r) && OkProc(s, p) && OkProc(s, r);
    OwnLink(d, pc, s.proc[r], hit);
    if c == d && p != r && p < |s.proc| {
      OwnElse(d, pc, s.proc[r], hit, p, s.proc[p]);
    } else if c != d && c < |s.cpu| {
      assert OkCpu(s, c) && OkPair(s, d, c) && OkLink(s, c, r);
      OtherKept(s.prioLock, |s.proc|, d, s.cpu[d], s.proc[r], hit, c, s.cpu[c]);
    }
  }

  lemma ApplyCpu(s: State, d: nat, hit: bool, c: nat)
    requires Safe(s) && Enabled(s, Step(d, hit)) && Steps(s.cpu[d].pc)
    ensures OkCpu(Next(s, Step(d, hit)), c)
  {
    var r := Subject(s.cpu[d].pc);
    assert OkCpu(s, d) && OkCpu(s, c) && OkPair(s, d, c) && OkLink(s, d, r) && OkLink(s, c, r);
    OwnCpu(s.prioLock, |s.proc|, d, s.cpu[d], s.proc[r], hit);
    if c != d && c < |s.cpu| {
      OtherKept(s.prioLock, |s.proc|, d, s.cpu[d], s.proc[r], hit, c, s.cpu[c]);
    }
  }

  lemma ApplyPair(s: State, d: nat, hit: bool, c: nat, b: nat)
    requires Safe(s) && Enabled(s, Step(d, hit)) && Steps(s.cpu[d].pc)
    ensures OkPair(Next(s, Step(d, hit)), c, b)
  {
    var r := Subject(s.cpu[d].pc);
    assert OkPair(s, c, b);
    var other := if c == d then b else c;
    if other != d && other < |s.cpu| {
      assert OkCpu(s, d) && OkCpu(s, other) && OkPair(s, d, other) && OkLink(s, d, r) && OkLink(s, other, r);
      OtherKept(s.prioLock, |s.proc|, d, s.cpu[d], s.proc[r], hit, other, s.cpu[other]);
    }
  }

  lemma ApplySafe(s: State, d: nat, hit: bool)
    requires Safe(s) && Enabled(s, Step(d, hit)) && Steps(s.cpu[d].pc)
    ensures Safe(Next(s, Step(d, hit)))
  {
    var t := Next(s, Step(d, hit));
    var r := Subject(s.cpu[d].pc);
    forall c: nat ensures OkCpu(t, c) { ApplyCpu(s, d, hit, c); }
    forall c: nat, p: nat ensures OkLink(t, c, p) { ApplyLink(s, d, hit, c, p); }
    forall c: nat, b: nat ensures OkPair(t, c, b) { ApplyPair(s, d, hit, c, b); }
    forall p: nat ensures OkProc(t, p) { ApplyLink(s, d, hit, d, p); }
    forall i: nat, p: nat ensures OkEntry(t, i, p) {
      assert OkEntry(s, i, p);
      QueueAfterCount(s.queue[s.proc[r].prio], r, Local(d, s.cpu[d].pc, s.proc[r], hit).queue, p);
    }
  }

  /** A move of d that changes no process record and no queue. */
  lemma MoveSafe(s: State, t: State, d: nat, pc: Pc)
    requires Safe(s) && d < |s.cpu| && t == Goto(s, d, pc).(prioLock := t.prioLock)
    requires (forall c :: OkCpu(t, c)) && (forall p :: OkLink(t, d, p)) && Bound(pc) == Bound(s.cpu[d].pc)
    ensures Safe(t)
  {
    forall c: nat, p: nat ensures OkLink(t, c, p) { assert OkLink(s, c, p); }
    forall c: nat, b: nat ensures OkPair(t, c, b) { assert OkPair(s, c, b); }
    forall p: nat ensures OkProc(t, p) { assert OkProc(s, p); }
    forall i: nat, p: nat ensures OkEntry(t, i, p) { assert OkEntry(s, i, p); }
  }

  lemma ChooseSafe(s: State, d: nat, ch: Choice)
    requires Safe(s) && Enabled(s, Choose(d, ch))
    ensures Safe(Next(s, Choose(d, ch)))
  {
    var t := Next(s, Choose(d, ch));
    var pc := Chosen(s.cpu[d].pc, ch).value;
    forall c: nat ensures OkCpu(t, c) { assert OkCpu(s, c); }
    forall p: nat ensures OkLink(t, d, p) {
      assert OkLink(s, d, p);
      if p < |s.proc| {
        ChosenLink(d, s.cpu[d].pc, ch, p, s.proc[p]);
      }
    }
    assert Bound(pc) == Bound(s.cpu[d].pc);
    MoveSafe(s, t, d, pc);
  }

  lemma ScanSafe(s: State, d: nat, hit: bool)
    requires Safe(s) && Enabled(s, Step(d, hit)) && (s.cpu[d].pc.Idle? || s.cpu[d].pc.Scan?)
    ensures Safe(Next(s, Step(d, hit)))
  {
    var pc := s.cpu[d].pc;
    var t := Next(s, Step(d, hit));
    assert OkCpu(s, d);
    forall c: nat ensures OkCpu(t, c) { assert OkCpu(s, c); }
    forall p: nat ensures OkLink(t, d, p) {
      assert OkLink(s, d, p);
      if p < |s.proc| {
        ScanLink(d, pc, t.cpu[d].pc, p, s.proc[p]);
      }
    }
    MoveSafe(s, t, d, t.cpu[d].pc);
  }

  /** The counts in queue i after process q has moved. */
  lemma RequeuedCount(queue: seq<seq<nat>>, from: nat, to: nat, q: nat, i: nat, p: nat)
    requires from < |queue| && to < |queue| && i < |queue|
    ensures p != q ==> multiset(Requeued(queue, from, to, q)[i])[p] == multiset(queue[i])[p]
    ensures var n := multiset(queue[i])[q]; var left := if i == from && n > 0 then n - 1 else n;
            multiset(Requeued(queue, from, to, q)[i])[q] == if i == to then left + 1 else left
  {
    RemovedCount(queue[from], q);
  }

  lemma NiceSafe(s: State, d: nat, q: nat, k: nat)
    requires Safe(s) && Enabled(s, Nice(d, q, k))
    ensures Safe(Next(s, Nice(d, q, k)))
  {
    var t := Next(s, Nice(d, q, k));
    forall c: nat ensures OkCpu(t, c) { assert OkCpu(s, c); }
    forall c: nat, p: nat ensures OkLink(t, c, p) { assert OkLink(s, c, p); }
    forall c: nat, b: nat ensures OkPair(t, c, b) { assert OkPair(s, c, b); }
    forall p: nat ensures OkProc(t, p) { assert OkProc(s, p); }
    forall i: nat, p: nat ensures OkEntry(t, i, p) {
      assert OkEntry(s, i, p);
      if i < NPRIO {
        RequeuedCount(s.queue, s.proc[q].prio, k, q, i, p);
      }
    }
  }

  /** Every step keeps what holds in every run. */
  lemma StepSafe(s: State, a: Action)
    requires Safe(s) && Enabled(s, a)
    ensures Safe(Next(s, a))
  {
    match a
    case Choose(c, ch) => ChooseSafe(s, c, ch);
    case Nice(c, q, k) => NiceSafe(s, c, q, k);
    case Step(c, hit) =>
      if s.cpu[c].pc.Idle? || s.cpu[c].pc.Scan? {
        ScanSafe(s, c, hit);
      } else {
        ApplySafe(s, c, hit);
      }
  }

  // ---------------------------------------------------------------- which steps keep the queues exact

  /** The CPU's picked process, if it is the subject, is in a queue. */
  predicate PickQueued(pc: Pc, p: nat, x: Proc) { (pc.PickWant? || pc.Picked?) && pc.p == p ==> x.life == Queued }

  /** A step changes the subject's place in the queues as it changes its record. */
  lemma LocalQueue(d: nat, pc: Pc, x: Proc, hit: bool)
    requires Steps(pc) && ProcOk(x) && Link(d, pc, Subject(pc), x) && PickQueued(pc, Subject(pc), x)
    ensures var e := Local(d, pc, x, hit); x.life == Queued || e.x.life == Queued ==> e.x.prio == x.prio
    ensures var e := Local(d, pc, x, hit);
            (x.life == Queued <==> e.queue.Remove? || e.queue.Rotate? || (e.queue.Stay? && e.x.life == Queued))
    ensures var e := Local(d, pc, x, hit);
            (e.x.life == Queued <==> e.queue.Append? || e.queue.Rotate? || (e.queue.Stay? && x.life == Queued))
  {
  }

  lemma ApplyExact(s: State, d: nat, hit: bool, i: nat, p: nat)
    requires Inv(s) && Enabled(s, Step(d, hit)) && Steps(s.cpu[d].pc)
    ensures OkQueue(Next(s, Step(d, hit)), i, p)
  {
    var pc := s.cpu[d].pc;
    var r := Subject(pc);
    var e := Local(d, pc, s.proc[r], hit);
    assert OkQueue(s, i, p) && OkQueue(s, s.proc[r].prio, r) && OkProc(s, r) && OkLink(s, d, r) && OkPick(s, d);
    LocalQueue(d, pc, s.proc[r], hit);
    QueueAfterCount(s.queue[s.proc[r].prio], r, e.queue, p);
  }

  /** What another CPU has picked stays in its queue: the step of d takes it out only with prio_lock. */
  lemma PickKept(prioLock: Option<nat>, n: nat, d: nat, cpu: Cpu, x: Proc, hit: bool, c: nat, other: Cpu)
    requires Steps(cpu.pc) && c != d && CpuOk(prioLock, n, d, cpu) && CpuOk(prioLock, n, c, other)
    requires Link(d, cpu.pc, Subject(cpu.pc), x) && Link(c, other.pc, Subject(cpu.pc), x)
    requires PickQueued(other.pc, Subject(cpu.pc), x)
    ensures PickQueued(other.pc, Subject(cpu.pc), Local(d, cpu.pc, x, hit).x)
  {
  }

  lemma ApplyPick(s: State, d: nat, hit: bool, c: nat)
    requires Inv(s) && Enabled(s, Step(d, hit)) && Steps(s.cpu[d].pc)
    ensures OkPick(Next(s, Step(d, hit)), c)
  {
    var r := Subject(s.cpu[d].pc);
    assert OkPick(s, c) && OkCpu(s, c) && OkCpu(s, d) && OkLink(s, d, r) && OkLink(s, c, r);
    if c != d && c < |s.cpu| {
      PickKept(s.prioLock, |s.proc|, d, s.cpu[d], s.proc[r], hit, c, s.cpu[c]);
    }
  }

  lemma ApplyInv(s: State, d: nat, hit: bool)
    requires Inv(s) && Enabled(s, Step(d, hit)) && Steps(s.cpu[d].pc)
    ensures Inv(Next(s, Step(d, hit)))
  {
    var t := Next(s, Step(d, hit));
    ApplySafe(s, d, hit);
    forall i: nat, p: nat ensures OkQueue(t, i, p) { ApplyExact(s, d, hit, i, p); }
    forall c: nat ensures OkPick(t, c) { ApplyPick(s, d, hit, c); }
  }

  /** A step that changes no process record and no queue, and picks only from the queues. */
  lemma SameExact(s: State, t: State, d: nat)
    requires Inv(s) && Safe(t) && t.proc == s.proc && t.queue == s.queue && |t.cpu| == |s.cpu| && OkPick(t, d)
    requires forall c :: 0 <= c < |s.cpu| && c != d ==> t.cpu[c] == s.cpu[c]
    ensures Inv(t)
  {
    forall i: nat, p: nat ensures OkQueue(t, i, p) { assert OkQueue(s, i, p); }
    forall c: nat ensures OkPick(t, c) { assert OkPick(s, c); }
  }

  lemma ScanInv(s: State, d: nat, hit: bool)
    requires Inv(s) && Enabled(s, Step(d, hit)) && (s.cpu[d].pc.Idle? || s.cpu[d].pc.Scan?)
    ensures Inv(Next(s, Step(d, hit)))
  {
    var pc := s.cpu[d].pc;
    ScanSafe(s, d, hit);
    if pc.Scan? && Entry(s, pc.i, pc.pos).Some? {
      var r := Entry(s, pc.i, pc.pos).value;
      assert multiset(s.queue[pc.i])[r] > 0;
      assert OkQueue(s, pc.i, r);
    }
    SameExact(s, Next(s, Step(d, hit)), d);
  }

  /** nice keeps the queues exact exactly when it is called on a process between its insertion and its removal. */
  lemma NiceExactIff(s: State, d: nat, q: nat, k: nat)
    requires Inv(s) && Enabled(s, Nice(d, q, k))
    ensures Inv(Next(s, Nice(d, q, k))) <==> Tame(s, Nice(d, q, k))
    ensures Exact(Next(s, Nice(d, q, k))) <==> Tame(s, Nice(d, q, k))
  {
    var t := Next(s, Nice(d, q, k));
    NiceSafe(s, d, q, k);
    if s.proc[q].life == Queued {
      forall i: nat, p: nat ensures OkQueue(t, i, p) {
        assert OkQueue(s, i, p) && OkQueue(s, i, q);
        if i < NPRIO {
          RequeuedCount(s.queue, s.proc[q].prio, k, q, i, p);
        }
      }
      forall c: nat ensures OkPick(t, c) { assert OkPick(s, c); }
    } else {
      RequeuedCount(s.queue, s.proc[q].prio, k, q, k, q);
      assert !OkQueue(t, k, q);
    }
  }

  /** Every step but nice on a process that is not queued keeps the invariant. */
  lemma StepInv(s: State, a: Action)
    requires Inv(s) && Enabled(s, a) && Tame(s, a)
    ensures Inv(Next(s, a))
  {
    match a
    case Choose(c, ch) =>
      ChooseSafe(s, c, ch);
      SameExact(s, Next(s, a), c);
    case Nice(c, q, k) => NiceExactIff(s, c, q, k);
    case Step(c, hit) =>
      if s.cpu[c].pc.Idle? || s.cpu[c].pc.Scan? {
        ScanInv(s, c, hit);
      } else {
        ApplyInv(s, c, hit);
      }
  }
}
