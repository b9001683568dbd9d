/** The scheduler and process states (kernel/proc.c) as an interleaving of small steps of any number of CPUs.
    Spin locks are atomic mutual exclusion; swtch is one step; queue operations are single steps under prio_lock. */
module Sched {
  import opened Prelude

  const NPRIO := 10
  const DEF_PRIO := 5

  datatype PState = Unused | Sleeping | Runnable | Running | Zombie

  /** Where a process stands with the priority queues: not inserted yet, between insertion and removal, removed by
      exit. */
  datatype Life = Fresh | Queued | Left

  /** What a CPU is executing. p is the process it works for, q another process it handles. */
  datatype Pc =
    | Idle                            // scheduler: about to acquire prio_lock
    | Scan(i: nat, pos: nat)          // has prio_lock, looking at entry pos of queue i
    | PickWant(p: nat)                // has prio_lock, saw RUNNABLE, about to acquire p->lock
    | Picked(p: nat)                  // has prio_lock and p->lock, about to mark RUNNING and requeue
    | Resume(p: nat)                  // switched to p, which has p->lock
    | Run(p: nat)                     // in p, with none of these locks
    | YieldWant(p: nat)               // about to acquire p->lock
    | YieldMark(p: nat)               // has p->lock, about to set RUNNABLE
    | SleepWant(p: nat)
    | SleepMark(p: nat)               // has p->lock, about to set SLEEPING
    | Switch(p: nat)                  // p has changed its state, has p->lock, about to switch to the scheduler
    | Back(p: nat)                    // scheduler, has p->lock, about to clear c->proc
    | Drop(p: nat)                    // scheduler, has p->lock, about to release it
    | WakeWant(p: nat, q: nat)        // wakeup or kill: about to acquire q->lock
    | WakeAt(p: nat, q: nat)          // has q->lock
    | ForkWant(p: nat, q: nat)        // allocproc: about to acquire q->lock
    | ForkAt(p: nat, q: nat)          // has q->lock, about to test for UNUSED
    | ForkMade(p: nat, q: nat)        // has q->lock, q is allocated but still UNUSED
    | ForkQueue(p: nat, q: nat)       // has q->lock, q is RUNNABLE, about to acquire prio_lock
    | ForkInsert(p: nat, q: nat)      // has q->lock and prio_lock, about to insert q
    | ExitPrio(p: nat)                // about to acquire prio_lock
    | ExitLock(p: nat)                // has prio_lock, about to acquire p->lock
    | ExitRemove(p: nat)              // has both, about to leave the queue and release both
    | ExitOut(p: nat)                 // has left the queue, with no lock: still preemptible
    | ExitWant(p: nat, q: nat)        // about to acquire the lock of the parent q
    | ExitOwn(p: nat, q: nat)         // has q->lock, about to acquire p->lock
    | ExitWake(p: nat, q: nat)        // has both, about to wake the parent
    | ExitMark(p: nat, q: nat)        // has both, about to set ZOMBIE
    | ExitUnlock(p: nat, q: nat)      // has both, about to release the parent's
    | WaitOwn(p: nat)                 // wait: about to acquire p->lock
    | WaitScan(p: nat)                // has p->lock, between children
    | WaitWant(p: nat, q: nat)        // has p->lock, about to acquire the lock of the child q
    | WaitAt(p: nat, q: nat)          // has both, about to test for ZOMBIE
    | WaitDone(p: nat)                // about to release p->lock

  datatype Proc = Proc(lock: Option<nat>, st: PState, prio: nat, life: Life)

  datatype Cpu = Cpu(pc: Pc, cur: Option<nat>)

  datatype State = State(prioLock: Option<nat>, proc: seq<Proc>, cpu: seq<Cpu>, queue: seq<seq<nat>>)

  /** What a process does next where the code leaves it open. Yield: also the timer interrupt. */
  datatype Choice = Yield | Sleep | Wake(q: nat) | Fork(q: nat) | Exit | Parent(q: nat) | Wait | Child(q: nat) | Return

  /** Step: hit says, of a sleeper, that its channel is the one being woken; of a fork, that memory sufficed; of a
      process switched to, that it sleeps inside wait. Nice: a process running on c gives process q the priority k, with
      no lock. */
  datatype Action = Step(c: nat, hit: bool) | Choose(c: nat, ch: Choice) | Nice(c: nat, q: nat, k: nat)

  // ---------------------------------------------------------------- one CPU and the process it handles

  predicate WantsPrio(pc: Pc) { pc.Idle? || pc.ForkQueue? || pc.ExitPrio? }

  predicate WantsLock(pc: Pc) {
    || pc.PickWant? || pc.YieldWant? || pc.SleepWant? || pc.WakeWant? || pc.ForkWant? || pc.ExitLock?
    || pc.ExitWant? || pc.ExitOwn? || pc.WaitOwn? || pc.WaitWant?
  }

  predicate HasOther(pc: Pc) {
    || pc.WakeWant? || pc.WakeAt? || pc.ForkWant? || pc.ForkAt? || pc.ForkMade? || pc.ForkQueue? || pc.ForkInsert?
    || pc.ExitWant? || pc.ExitOwn? || pc.ExitWake? || pc.ExitMark? || pc.ExitUnlock? || pc.WaitWant? || pc.WaitAt?
  }

  /** The next step is the CPU's own and concerns one process. */
  predicate Steps(pc: Pc) { !pc.Idle? && !pc.Scan? && !pc.Run? && !pc.ExitOut? && !pc.WaitScan? }

  /** The process whose record the next step reads or writes. */
  function Subject(pc: Pc): nat
    requires !pc.Idle? && !pc.Scan?
  {
    if HasOther(pc) && !pc.ExitOwn? && !pc.ExitMark? then pc.q else pc.p
  }

  datatype LockOp = Keep | Take | Give
  datatype QueueOp = Stay | Append | Remove | Rotate

  /** What a step does: where the CPU goes, what becomes of the subject's record, of prio_lock and of the subject's
      queue. */
  datatype Effect = Effect(pc: Pc, x: Proc, prio: LockOp := Keep, queue: QueueOp := Stay)

  /** The step of CPU c at pc, x being the record of the subject. */
  function Local(c: nat, pc: Pc, x: Proc, hit: bool): Effect
    requires Steps(pc)
  {
    var taken, freed := x.(lock := Some(c)), x.(lock := None);
    match pc
    case PickWant(p) => Effect(Picked(p), taken)
    case Picked(p) => Effect(Resume(p), x.(st := Running), Give, Rotate)
    case Resume(p) =>
      if x.life == Left
      then Effect(ExitOut(p), freed)
      else if hit then Effect(WaitScan(p), x) else Effect(Run(p), freed)
    case YieldWant(p) => Effect(YieldMark(p), taken)
    case YieldMark(p) => Effect(Switch(p), x.(st := Runnable))
    case SleepWant(p) => Effect(SleepMark(p), taken)
    case SleepMark(p) => Effect(Switch(p), x.(st := Sleeping))
    case Switch(p) => Effect(Back(p), x)
    case Back(p) => Effect(Drop(p), x)
    case Drop(p) => Effect(Idle, freed)
    case WakeWant(p, q) => Effect(WakeAt(p, q), taken)
    case WakeAt(p, q) => Effect(Run(p), if x.st == Sleeping && hit then freed.(st := Runnable) else freed)
    case ForkWant(p, q) => Effect(ForkAt(p, q), taken)
    case ForkAt(p, q) => if x.st == Unused then Effect(ForkMade(p, q), x.(prio := DEF_PRIO)) else Effect(Run(p), freed)
    case ForkMade(p, q) =>
      if hit then Effect(ForkQueue(p, q), x.(st := Runnable)) else Effect(Run(p), freed.(prio := 0))
    case ForkQueue(p, q) => Effect(ForkInsert(p, q), x, Take)
    case ForkInsert(p, q) => Effect(Run(p), freed.(life := Queued), Give, Append)
    case ExitPrio(p) => Effect(ExitLock(p), x, Take)
    case ExitLock(p) => Effect(ExitRemove(p), taken)
    case ExitRemove(p) => Effect(ExitOut(p), freed.(life := Left), Give, Remove)
    case ExitWant(p, q) => Effect(ExitOwn(p, q), taken)
    case ExitOwn(p, q) => Effect(ExitWake(p, q), taken)
    case ExitWake(p, q) => Effect(ExitMark(p, q), if x.st == Sleeping && hit then x.(st := Runnable) else x)
    case ExitMark(p, q) => Effect(ExitUnlock(p, q), x.(st := Zombie))
    case ExitUnlock(p, q) => Effect(Switch(p), freed)
    case WaitOwn(p) => Effect(WaitScan(p), taken)
    case WaitWant(p, q) => Effect(WaitAt(p, q), taken)
    case WaitAt(p, q) =>
      if x.st == Zombie
      then Effect(WaitDone(p), freed.(st := Unused, prio := 0, life := Fresh))
      else Effect(WaitScan(p), freed)
    case WaitDone(p) => Effect(Run(p), freed)
  }

  /** Where a choice takes a CPU, if it can be made there. */
  function Chosen(pc: Pc, ch: Choice): Option<Pc> {
    match pc
    case Run(p) =>
      (match ch
       case Yield => Some(YieldWant(p))
       case Sleep => Some(SleepWant(p))
       case Wake(q) => Some(WakeWant(p, q))
       case Fork(q) => Some(ForkWant(p, q))
       case Exit => Some(ExitPrio(p))
       case Wait => Some(WaitOwn(p))
       case _ => None)
    case ExitOut(p) =>
      (match ch
       case Yield => Some(YieldWant(p))
       case Parent(q) => if q != p then Some(ExitWant(p, q)) else None
       case _ => None)
    case WaitScan(p) =>
      (match ch
       case Child(q) => if q != p then Some(WaitWant(p, q)) else None
       case Sleep => Some(SleepMark(p))
       case Return => Some(WaitDone(p))
       case _ => None)
    case _ => None
  }

  // ---------------------------------------------------------------- the machine

  ghost predicate Shape(s: State) { |s.queue| == NPRIO }

  function Removed(q: seq<nat>, p: nat): seq<nat> {
    if q == [] then [] else if q[0] == p then q[1..] else [q[0]] + Removed(q[1..], p)
  }

  lemma {:induction false} RemovedCount(q: seq<nat>, p: nat)
    ensures multiset(Removed(q, p)) == multiset(q) - multiset{p}
  {
    if q != [] {
      assert q == [q[0]] + q[1..];
      if q[0] != p {
        RemovedCount(q[1..], p);
        assert multiset(Removed(q, p)) == multiset{q[0]} + multiset(Removed(q[1..], p));
      }
    }
  }

  /** The position of the first p, or that behind the last. */
  function Place(q: seq<nat>, p: nat): (k: nat)
    ensures k <= |q| && (k < |q| ==> q[k] == p) && p !in q[..k] && (k == |q| <==> p !in q)
  {
    if q == [] || q[0] == p then 0 else 1 + Place(q[1..], p)
  }

  function QueueAfter(q: seq<nat>, p: nat, op: QueueOp): seq<nat> {
    match op
    case Stay => q
    case Append => q + [p]
    case Remove => Removed(q, p)
    case Rotate => Removed(q, p) + [p]
  }

  /** Process p moves from the queue of one priority to the end of that of another. */
  function Requeued(queue: seq<seq<nat>>, from: nat, to: nat, p: nat): seq<seq<nat>>
    requires from < |queue| && to < |queue|
  {
    var out := queue[from := Removed(queue[from], p)];
    out[to := out[to] + [p]]
  }

  predicate InRange(s: State, p: nat) { p < |s.proc| && s.proc[p].prio < NPRIO }

  /** The entry a scan looks at. */
  function Entry(s: State, i: nat, pos: nat): Option<nat>
    requires Shape(s)
  {
    if i < NPRIO && pos < |s.queue[i]| then Some(s.queue[i][pos]) else None
  }

  predicate Enabled(s: State, a: Action)
    requires Shape(s)
  {
    a.c < |s.cpu| &&
    var pc := s.cpu[a.c].pc;
    match a
    case Choose(_, ch) => Chosen(pc, ch).Some? && (HasOther(Chosen(pc, ch).value) ==> Chosen(pc, ch).value.q < |s.proc|)
    case Nice(_, q, k) => pc.Run? && InRange(s, q) && k < NPRIO
    case Step(_, _) =>
      && (WantsPrio(pc) ==> s.prioLock.None?)
      && if pc.Idle? then true
         else if pc.Scan? then Entry(s, pc.i, pc.pos).Some? ==> InRange(s, Entry(s, pc.i, pc.pos).value)
         else Steps(pc) && InRange(s, Subject(pc)) && (WantsLock(pc) ==> s.proc[Subject(pc)].lock.None?)
  }

  function PrioAfter(was: Option<nat>, c: nat, op: LockOp): Option<nat> {
    match op case Keep => was case Take => Some(c) case Give => None
  }

  /** c->proc is set when a process is picked and cleared when the scheduler is back. */
  function CurAfter(cpu: Cpu): Option<nat> {
    match cpu.pc case Picked(p) => Some(p) case Back(_) => None case _ => cpu.cur
  }

  function Goto(s: State, c: nat, pc: Pc): State
    requires c < |s.cpu|
  {
    s.(cpu := s.cpu[c := s.cpu[c].(pc := pc)])
  }

  function Apply(s: State, c: nat, r: nat, e: Effect): State
    requires Shape(s) && c < |s.cpu| && InRange(s, r)
  {
    var k := s.proc[r].prio;
    State(PrioAfter(s.prioLock, c, e.prio), s.proc[r := e.x], s.cpu[c := Cpu(e.pc, CurAfter(s.cpu[c]))],
          s.queue[k := QueueAfter(s.queue[k], r, e.queue)])
  }

  /** One step of the search for the first RUNNABLE process. */
  function ScanNext(s: State, c: nat, i: nat, pos: nat): State
    requires Shape(s) && c < |s.cpu| && (Entry(s, i, pos).Some? ==> InRange(s, Entry(s, i, pos).value))
  {
    if i >= NPRIO then Goto(s.(prioLock := None), c, Idle)
    else if pos >= |s.queue[i]| then Goto(s, c, Scan(i + 1, 0))
    else if s.proc[s.queue[i][pos]].st == Runnable then Goto(s, c, PickWant(s.queue[i][pos]))
    else Goto(s, c, Scan(i, pos + 1))
  }

  /** A scan follows the nodes of the list: with the entry at of queue i removed before the one it looks at, it looks at
      the same one. */
  function Followed(pc: Pc, i: nat, at: nat): Pc {
    if pc.Scan? && pc.i == i && at < pc.pos then Scan(i, pc.pos - 1) else pc
  }

  /** Only the CPU with prio_lock scans. */
  function Cursors(s: State, i: nat, at: nat): (r: seq<Cpu>)
    ensures |r| == |s.cpu|
  {
    if s.prioLock.Some? && s.prioLock.value < |s.cpu|
    then
      var d := s.prioLock.value;
      s.cpu[d := s.cpu[d].(pc := Followed(s.cpu[d].pc, i, at))]
    else s.cpu
  }

  /** nice, on the process it finds, whatever its state. */
  function Niced(s: State, q: nat, k: nat): State
    requires Shape(s) && InRange(s, q) && k < NPRIO
  {
    var i := s.proc[q].prio;
    s.(proc := s.proc[q := s.proc[q].(prio := k)], queue := Requeued(s.queue, i, k, q),
       cpu := Cursors(s, i, Place(s.queue[i], q)))
  }

  function Next(s: State, a: Action): State
    requires Shape(s) && Enabled(s, a)
  {
    var pc := s.cpu[a.c].pc;
    match a
    case Choose(c, ch) => Goto(s, c, Chosen(pc, ch).value)
    case Nice(_, q, k) => Niced(s, q, k)
    case Step(c, hit) =>
      if pc.Idle? then Goto(s.(prioLock := Some(c)), c, Scan(0, 0))
      else if pc.Scan? then ScanNext(s, c, pc.i, pc.pos)
      else Apply(s, c, Subject(pc), Local(c, pc, s.proc[Subject(pc)], hit))
  }

  // ---------------------------------------------------------------- what holds in every run

  predicate HasPrio(pc: Pc) {
    pc.Scan? || pc.PickWant? || pc.Picked? || pc.ForkInsert? || pc.ExitLock? || pc.ExitRemove?
  }

  /** The CPU has the lock of the process it works for. */
  predicate HasOwn(pc: Pc) {
    || pc.Picked? || pc.Resume? || pc.YieldMark? || pc.SleepMark? || pc.Switch? || pc.Back? || pc.Drop?
    || pc.ExitRemove? || pc.ExitWake? || pc.ExitMark? || pc.ExitUnlock?
    || pc.WaitScan? || pc.WaitWant? || pc.WaitAt? || pc.WaitDone?
  }

  /** The CPU has the lock of the other process it handles. */
  predicate HasOthers(pc: Pc) {
    || pc.WakeAt? || pc.ForkAt? || pc.ForkMade? || pc.ForkQueue? || pc.ForkInsert?
    || pc.ExitOwn? || pc.ExitWake? || pc.ExitMark? || pc.ExitUnlock? || pc.WaitAt?
  }

  predicate HasLock(pc: Pc, p: nat) { (HasOwn(pc) && pc.p == p) || (HasOthers(pc) && pc.q == p) }

  /** The process a CPU is bound to. */
  function Bound(pc: Pc): Option<nat> {
    if pc.Idle? || pc.Scan? || pc.PickWant? || pc.Picked? then None else Some(pc.p)
  }

  /** The CPU is on its way from its process back to the scheduler, the process having changed its state. */
  predicate Leaving(pc: Pc) { pc.Switch? || pc.Back? || pc.Drop? || pc.ExitUnlock? }

  /** The process has left its queue in exit. */
  predicate Exiting(pc: Pc) {
    pc.ExitOut? || pc.ExitWant? || pc.ExitOwn? || pc.ExitWake? || pc.ExitMark? || pc.ExitUnlock?
  }

  /** The process may be in exit or not. */
  predicate Passing(pc: Pc) { pc.Resume? || pc.YieldWant? || pc.YieldMark? }

  /** What holds of a CPU c at pc and the record x of process p. */
  predicate Link(c: nat, pc: Pc, p: nat, x: Proc) {
    && (x.lock == Some(c) <==> HasLock(pc, p))
    && (Bound(pc) == Some(p) ==>
          && (if Leaving(pc) then x.st != Running else x.st == Running)
          && (Exiting(pc) ==> x.life == Left)
          && (!Leaving(pc) && !Exiting(pc) && !Passing(pc) ==> x.life == Queued)
          && (Passing(pc) ==> x.life != Fresh))
    && ((pc.PickWant? || pc.Picked?) && pc.p == p ==> x.st == Runnable)
    && (pc.Picked? && pc.p == p ==> x.life != Fresh)
    && (pc.ForkMade? && pc.q == p ==> x.st == Unused)
    && (ForkQueues(pc, p) ==> x.st == Runnable && x.life == Fresh)
    && (x.lock == Some(c) && x.st == Runnable && x.life == Fresh ==> ForkQueues(pc, p))
  }

  /** The CPU is putting the new process p in a queue. */
  predicate ForkQueues(pc: Pc, p: nat) { (pc.ForkQueue? || pc.ForkInsert?) && pc.q == p }

  /** What holds of a CPU by itself, with n processes. */
  predicate CpuOk(prioLock: Option<nat>, n: nat, c: nat, cpu: Cpu) {
    var pc := cpu.pc;
    && (prioLock == Some(c) <==> HasPrio(pc))
    && cpu.cur == (if pc.Drop? then None else Bound(pc))
    && (pc.Idle? || pc.Scan? || pc.p < n) && (HasOther(pc) ==> pc.q < n)
    && (pc.ExitWant? || pc.ExitOwn? || pc.ExitWake? || pc.ExitMark? || pc.ExitUnlock? || pc.WaitWant? || pc.WaitAt?
        ==> pc.p != pc.q)
  }

  /** No two CPUs are bound to one process. */
  predicate Apart(pc: Pc, other: Pc) { Bound(pc).Some? ==> Bound(pc) != Bound(other) }

  predicate ProcOk(x: Proc) {
    && x.prio < NPRIO
    && (x.st == Unused ==> x.life == Fresh) && (x.st == Zombie ==> x.life == Left)
    && (x.st == Sleeping ==> x.life == Queued)
    && (x.st == Runnable && x.life == Fresh ==> x.lock.Some?)
  }

  ghost predicate OkLink(s: State, c: nat, p: nat) {
    c < |s.cpu| && p < |s.proc| ==> Link(c, s.cpu[c].pc, p, s.proc[p])
  }

  ghost predicate OkCpu(s: State, c: nat) { c < |s.cpu| ==> CpuOk(s.prioLock, |s.proc|, c, s.cpu[c]) }

  ghost predicate OkPair(s: State, c: nat, d: nat) {
    c < |s.cpu| && d < |s.cpu| && c != d ==> Apart(s.cpu[c].pc, s.cpu[d].pc)
  }

  ghost predicate OkProc(s: State, p: nat) { p < |s.proc| ==> ProcOk(s.proc[p]) }

  /** Queue i holds processes only. */
  ghost predicate OkEntry(s: State, i: nat, p: nat)
    requires Shape(s)
  {
    i < NPRIO && p >= |s.proc| ==> multiset(s.queue[i])[p] == 0
  }

  /** Holds in every run, whatever processes nice is called on. */
  ghost predicate Safe(s: State) {
    && Shape(s)
    && (forall c :: OkCpu(s, c)) && (forall c, p :: OkLink(s, c, p)) && (forall c, d :: OkPair(s, c, d))
    && (forall p :: OkProc(s, p)) && (forall i, p :: OkEntry(s, i, p))
  }

  // ------------------------------------------------ what holds while nice is called on queued processes only

  /** Queue i holds process p once, if that is where it belongs, and otherwise not at all. */
  ghost predicate OkQueue(s: State, i: nat, p: nat)
    requires Shape(s)
  {
    i < NPRIO ==> multiset(s.queue[i])[p] == if Belongs(s, i, p) then 1 else 0
  }

  predicate Belongs(s: State, i: nat, p: nat) { p < |s.proc| && s.proc[p].life == Queued && s.proc[p].prio == i }

  /** Every process between insertion and removal is once in the queue of its priority, and nothing else is in a
      queue. */
  ghost predicate Exact(s: State) { Shape(s) && forall i, p :: OkQueue(s, i, p) }

  /** The process a CPU picks is in a queue. */
  ghost predicate OkPick(s: State, c: nat) {
    c < |s.cpu| && (s.cpu[c].pc.PickWant? || s.cpu[c].pc.Picked?) && s.cpu[c].pc.p < |s.proc|
    ==> s.proc[s.cpu[c].pc.p].life == Queued
  }

  ghost predicate Inv(s: State) { Safe(s) && Exact(s) && forall c :: OkPick(s, c) }

  /** The action, if it is a call of nice, is on a process between insertion and removal. */
  predicate Tame(s: State, a: Action) { a.Nice? && a.q < |s.proc| ==> s.proc[a.q].life == Queued }
}
