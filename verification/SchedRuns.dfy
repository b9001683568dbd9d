/** What holds over every run of the scheduler (kernel/proc.c). */
module SchedRuns {
  import opened Prelude
  import opened Sched
  import opened SchedSteps

  // ---------------------------------------------------------------- every run

  /** After userinit: the first process is RUNNABLE in the queue of the default priority, every CPU enters its
      scheduler. */
  ghost predicate Init(s: State) {
    && Shape(s) && s.prioLock.None? && |s.proc| > 0
    && (forall c :: 0 <= c < |s.cpu| ==> s.cpu[c] == Cpu(Idle, None))
    && s.proc[0] == Proc(None, Runnable, DEF_PRIO, Queued)
    && (forall p :: 1 <= p < |s.proc| ==> s.proc[p] == Proc(None, Unused, 0, Fresh))
    && (forall i :: 0 <= i < NPRIO ==> s.queue[i] == if i == DEF_PRIO then [0] else [])
  }

  lemma InitInv(s: State)
    requires Init(s)
    ensures Inv(s)
  {
  }

  ghost predicate StepsTo(s: State, a: Action, t: State) { Shape(s) && Enabled(s, a) && t == Next(s, a) }

  /** From ss[0], the actions lead through the states ss. */
  ghost predicate Leads(ss: seq<State>, acts: seq<Action>) {
    |ss| == |acts| + 1 && forall i :: 0 <= i < |acts| ==> StepsTo(ss[i], acts[i], ss[i + 1])
  }

  ghost predicate Execution(ss: seq<State>, acts: seq<Action>) { Leads(ss, acts) && Init(ss[0]) }

  /** Every call of nice is on a process between its insertion and its removal. */
  ghost predicate TameRun(ss: seq<State>, acts: seq<Action>)
    requires |ss| == |acts| + 1
  {
    forall i :: 0 <= i < |acts| ==> Tame(ss[i], acts[i])
  }

  lemma {:induction false} LeadsSafe(ss: seq<State>, acts: seq<Action>)
    requires Leads(ss, acts) && Safe(ss[0])
    ensures Safe(ss[|acts|])
    decreases |acts|
  {
    if acts != [] {
      var n := |acts| - 1;
      LeadsSafe(ss[..|ss| - 1], acts[..n]);
      assert StepsTo(ss[n], acts[n], ss[n + 1]);
      StepSafe(ss[n], acts[n]);
    }
  }

  lemma {:induction false} LeadsInv(ss: seq<State>, acts: seq<Action>)
    requires Leads(ss, acts) && TameRun(ss, acts) && Inv(ss[0])
    ensures Inv(ss[|acts|])
    decreases |acts|
  {
    if acts != [] {
      var n := |acts| - 1;
      LeadsInv(ss[..|ss| - 1], acts[..n]);
      assert StepsTo(ss[n], acts[n], ss[n + 1]) && Tame(ss[n], acts[n]);
      StepInv(ss[n], acts[n]);
    }
  }

  /** In every interleaving, with nice called on any process whatever, the locks and bindings of the CPUs are sound. */
  lemma RunSafe(ss: seq<State>, acts: seq<Action>)
    requires Execution(ss, acts)
    ensures Safe(ss[|acts|])
  {
    InitInv(ss[0]);
    LeadsSafe(ss, acts);
  }

  /** In every interleaving with nice called on queued processes, the queues are exact as well. */
  lemma RunInv(ss: seq<State>, acts: seq<Action>)
    requires Execution(ss, acts) && TameRun(ss, acts)
    ensures Inv(ss[|acts|])
  {
    InitInv(ss[0]);
    LeadsInv(ss, acts);
  }

  /** CPU c, stepping n times with the same choice of chance, from s. */
  function Alone(s: State, c: nat, n: nat): (r: Option<State>)
    decreases n
  {
    if n == 0 then Some(s)
    else match Alone(s, c, n - 1)
         case None => None
         case Some(t) =>
           if |t.queue| == NPRIO && Enabled(t, Step(c, false)) then Some(Next(t, Step(c, false))) else None
  }

  /** The first process is on CPU 0. */
  ghost predicate FirstOn(r: Option<State>) {
    && r.Some? && |r.value.cpu| > 0 && r.value.cpu[0] == Cpu(Resume(0), Some(0)) && |r.value.proc| > 0
    && r.value.proc[0].st == Running
  }

  /** In a scan, an empty queue takes one step. */
  lemma ScanEmpty(s: State, t: State, n: nat, i: nat)
    requires Init(s) && |s.cpu| > 0 && Alone(s, 0, n) == Some(t) && i < DEF_PRIO
    requires t == s.(prioLock := Some(0), cpu := s.cpu[0 := Cpu(Scan(i, 0), None)])
    ensures Alone(s, 0, n + 1) == Some(s.(prioLock := Some(0), cpu := s.cpu[0 := Cpu(Scan(i + 1, 0), None)]))
  {
    assert t.queue[i] == [];
    AloneNext(s, 0, n, t);
    assert t.cpu[0 := Cpu(Scan(i + 1, 0), None)] == s.cpu[0 := Cpu(Scan(i + 1, 0), None)];
  }

  lemma {:induction false} ScanTo(s: State, i: nat)
    requires Init(s) && |s.cpu| > 0 && i <= DEF_PRIO
    ensures Alone(s, 0, i + 1) == Some(s.(prioLock := Some(0), cpu := s.cpu[0 := Cpu(Scan(i, 0), None)]))
  {
    if i == 0 {
      assert Alone(s, 0, 0) == Some(s);
    } else {
      ScanTo(s, i - 1);
      ScanEmpty(s, Alone(s, 0, i).value, i, i - 1);
    }
  }

  /** From the state userinit leaves, nine steps of one CPU put the first process on it. */
  lemma FirstProcessRuns(s: State)
    requires Init(s) && |s.cpu| > 0
    ensures FirstOn(Alone(s, 0, 9))
  {
    ScanTo(s, DEF_PRIO);
    var t := Alone(s, 0, 6).value;
    assert t.queue[DEF_PRIO] == [0];
    AloneNext(s, 0, 6, t);
    PickSteps(s, Alone(s, 0, 7).value);
  }

  lemma AloneNext(s: State, c: nat, n: nat, t: State)
    requires Alone(s, c, n) == Some(t) && Shape(t) && Enabled(t, Step(c, false))
    ensures Alone(s, c, n + 1) == Some(Next(t, Step(c, false)))
  {
  }

  /** CPU 0 is at pc, with the first process in its queue and its lock free or held. */
  ghost predicate FirstAt(t: State, pc: Pc, lock: Option<nat>) {
    && Shape(t) && |t.cpu| > 0 && t.cpu[0] == Cpu(pc, None)
    && |t.proc| > 0 && t.proc[0] == Proc(lock, Runnable, DEF_PRIO, Queued)
  }

  lemma PickLocks(t: State)
    requires FirstAt(t, PickWant(0), None)
    ensures Enabled(t, Step(0, false)) && FirstAt(Next(t, Step(0, false)), Picked(0), Some(0))
  {
  }

  lemma PickSwitches(t: State)
    requires FirstAt(t, Picked(0), Some(0))
    ensures Enabled(t, Step(0, false)) && FirstOn(Some(Next(t, Step(0, false))))
  {
  }

  lemma PickSteps(s: State, t: State)
    requires Alone(s, 0, 7) == Some(t) && FirstAt(t, PickWant(0), None)
    ensures FirstOn(Alone(s, 0, 9))
  {
    PickLocks(t);
    AloneNext(s, 0, 7, t);
    PickSwitches(Next(t, Step(0, false)));
    AloneNext(s, 0, 8, Next(t, Step(0, false)));
  }

  /** In every interleaving, no two CPUs have the same current process. */
  lemma NoSharedProcess(ss: seq<State>, acts: seq<Action>, c: nat, d: nat)
    requires Execution(ss, acts) && c < |ss[|acts|].cpu| && d < |ss[|acts|].cpu| && c != d
    ensures var s := ss[|acts|]; s.cpu[c].cur.Some? ==> s.cpu[c].cur != s.cpu[d].cur
  {
    RunSafe(ss, acts);
    var s := ss[|acts|];
    assert OkCpu(s, c) && OkCpu(s, d) && OkPair(s, c, d);
  }

  /** In every interleaving, a picked process, whose state was read before its lock was taken, is still RUNNABLE with
      the lock. */
  lemma PickedIsRunnable(ss: seq<State>, acts: seq<Action>, c: nat)
    requires Execution(ss, acts) && c < |ss[|acts|].cpu|
    ensures var s := ss[|acts|]; var pc := s.cpu[c].pc;
            pc.PickWant? || pc.Picked? ==> pc.p < |s.proc| && s.proc[pc.p].st == Runnable
    ensures var s := ss[|acts|]; var pc := s.cpu[c].pc;
            pc.Picked? ==> pc.p < |s.proc| && s.proc[pc.p].lock == Some(c) && s.prioLock == Some(c)
  {
    RunSafe(ss, acts);
    var s := ss[|acts|];
    assert OkCpu(s, c);
    if Bound(s.cpu[c].pc).None? && (s.cpu[c].pc.PickWant? || s.cpu[c].pc.Picked?) {
      assert OkLink(s, c, s.cpu[c].pc.p);
    }
  }

  /** In every interleaving, a CPU entering sched has the lock of its process and no other, and the process has changed
      its state: the panics of sched are unreachable. A ZOMBIE is never switched to again. */
  lemma SchedPanicsUnreachable(ss: seq<State>, acts: seq<Action>, c: nat, q: nat)
    requires Execution(ss, acts) && c < |ss[|acts|].cpu| && q < |ss[|acts|].proc|
    ensures var s := ss[|acts|]; var pc := s.cpu[c].pc;
            pc.Switch? ==>
              && s.prioLock != Some(c) && (s.proc[q].lock == Some(c) <==> q == pc.p)
              && (q == pc.p ==> s.proc[q].st != Running)
    ensures var s := ss[|acts|]; s.cpu[c].pc == Resume(q) || s.cpu[c].pc == Run(q) ==> s.proc[q].st == Running
  {
    RunSafe(ss, acts);
    var s := ss[|acts|];
    assert OkCpu(s, c) && OkLink(s, c, q);
  }

  // ---------------------------------------------------------------- the queues, with nice

  /** With nice called on queued processes, a process between its insertion and its removal by exit is once in the queue
      of its priority and in no other; any other process is in no queue. */
  lemma QueuesExact(ss: seq<State>, acts: seq<Action>, p: nat, i: nat)
    requires Execution(ss, acts) && TameRun(ss, acts) && p < |ss[|acts|].proc| && i < NPRIO
    ensures var s := ss[|acts|];
            Shape(s) && multiset(s.queue[i])[p] == if s.proc[p].life == Queued && i == s.proc[p].prio then 1 else 0
  {
    RunInv(ss, acts);
    assert OkQueue(ss[|acts|], i, p);
  }

  lemma StepExactIff(s: State, a: Action)
    requires Inv(s) && Enabled(s, a)
    ensures Exact(Next(s, a)) <==> Tame(s, a)
  {
    if a.Nice? {
      NiceExactIff(s, a.c, a.q, a.k);
    } else {
      StepInv(s, a);
    }
  }

  ghost predicate AllExact(ss: seq<State>) { forall j :: 0 <= j < |ss| ==> Exact(ss[j]) }

  /** The queues stay exact through a run exactly when every call of nice in it is on a queued process. */
  lemma {:induction false} QueuesExactIff(ss: seq<State>, acts: seq<Action>)
    requires Execution(ss, acts)
    ensures AllExact(ss) <==> TameRun(ss, acts)
    decreases |acts|
  {
    if acts == [] {
      InitInv(ss[0]);
    } else {
      var n := |acts| - 1;
      var pre, front, last := ss[..n + 1], acts[..n], ss[n + 1];
      assert ss == pre + [last] && acts == front + [acts[n]];
      forall i | 0 <= i < n ensures StepsTo(pre[i], front[i], pre[i + 1]) { assert StepsTo(ss[i], acts[i], ss[i + 1]); }
      QueuesExactIff(pre, front);
      assert AllExact(ss) <==> AllExact(pre) && Exact(last);
      assert TameRun(ss, acts) <==> TameRun(pre, front) && Tame(ss[n], acts[n]);
      if TameRun(pre, front) {
        RunInv(pre, front);
        assert StepsTo(ss[n], acts[n], last);
        StepExactIff(ss[n], acts[n]);
      }
    }
  }

  // ---------------------------------------------------------------- a process preempted in exit

  /** p has left its queue and is waiting to be scheduled, or about to. */
  ghost predicate Doomed(s: State, p: nat) {
    && p < |s.proc| && s.proc[p].life == Left
    && (s.proc[p].st == Runnable || (s.proc[p].st == Running && exists c :: YieldingAt(s, c, p)))
  }

  predicate YieldingAt(s: State, c: nat, p: nat) {
    c < |s.cpu| && (s.cpu[c].pc == YieldWant(p) || s.cpu[c].pc == YieldMark(p))
  }

  /** p has left its queue and is past the point where it can be preempted, or is a ZOMBIE. */
  ghost predicate Committed(s: State, p: nat) {
    && p < |s.proc| && s.proc[p].life == Left
    && (s.proc[p].st == Zombie || (s.proc[p].st == Running && exists c :: ExitingAt(s, c, p)))
  }

  predicate ExitingAt(s: State, c: nat, p: nat) {
    c < |s.cpu| && Exiting(s.cpu[c].pc) && !s.cpu[c].pc.ExitOut? && s.cpu[c].pc.p == p
  }

  /** Whoever steps, a record that has left its queue keeps its state, unless the step is its own or that of a parent in
      wait. */
  lemma LeftRecord(d: nat, pc: Pc, x: Proc, hit: bool)
    requires Steps(pc) && Link(d, pc, Subject(pc), x) && PickQueued(pc, Subject(pc), x) && x.life == Left
    requires x.st == Running ==> Bound(pc) != Some(Subject(pc))
    ensures var y := Local(d, pc, x, hit).x; x.st == Runnable || x.st == Running ==> y.life == Left && y.st == x.st
    ensures var y := Local(d, pc, x, hit).x; x.st == Zombie ==> y.st == Unused || (y.life == Left && y.st == Zombie)
  {
  }

  /** The same, in a state. */
  lemma LeftStays(s: State, a: Action, p: nat)
    requires Inv(s) && Enabled(s, a) && p < |s.proc| && s.proc[p].life == Left
    requires s.proc[p].st == Running ==> Bound(s.cpu[a.c].pc) != Some(p)
    ensures var y := Next(s, a).proc[p];
            s.proc[p].st == Runnable || s.proc[p].st == Running ==> y.life == Left && y.st == s.proc[p].st
    ensures var y := Next(s, a).proc[p]; s.proc[p].st == Zombie ==> y.st == Unused || (y.life == Left && y.st == Zombie)
  {
    var pc := s.cpu[a.c].pc;
    if a.Step? && Steps(pc) && Subject(pc) == p {
      assert OkLink(s, a.c, p) && OkPick(s, a.c);
      LeftRecord(a.c, pc, s.proc[p], a.hit);
    }
  }

  lemma DoomedStays(s: State, a: Action, p: nat)
    requires Inv(s) && Enabled(s, a) && Doomed(s, p)
    ensures Doomed(Next(s, a), p)
  {
    if s.proc[p].st == Running {
      var c: nat :| YieldingAt(s, c, p);
      if a.c != c {
        assert OkPair(s, c, a.c);
        LeftStays(s, a, p);
      }
      assert Next(s, a).proc[p].st == Running ==> YieldingAt(Next(s, a), c, p);
    } else {
      LeftStays(s, a, p);
    }
  }

  lemma CommittedStays(s: State, a: Action, p: nat)
    requires Inv(s) && Enabled(s, a) && Committed(s, p)
    ensures Committed(Next(s, a), p) || Next(s, a).proc[p].st == Unused
  {
    if s.proc[p].st == Running {
      var c: nat :| ExitingAt(s, c, p);
      assert OkLink(s, c, p) && OkCpu(s, c);
      if a.c != c {
        assert OkPair(s, c, a.c);
        LeftStays(s, a, p);
      }
      assert Next(s, a).proc[p].st == Running ==> ExitingAt(Next(s, a), c, p);
    } else {
      LeftStays(s, a, p);
    }
  }

  lemma {:induction false} DoomedForever(ss: seq<State>, acts: seq<Action>, p: nat)
    requires Leads(ss, acts) && TameRun(ss, acts) && Inv(ss[0]) && Doomed(ss[0], p)
    ensures Doomed(ss[|acts|], p)
    decreases |acts|
  {
    if acts != [] {
      var n := |acts| - 1;
      DoomedForever(ss[..|ss| - 1], acts[..n], p);
      LeadsInv(ss[..|ss| - 1], acts[..n]);
      assert StepsTo(ss[n], acts[n], ss[n + 1]);
      DoomedStays(ss[n], acts[n], p);
    }
  }

  ghost predicate Reaped(s: State, p: nat) { p < |s.proc| && s.proc[p].st == Unused }

  lemma {:induction false} CommittedUntilReaped(ss: seq<State>, acts: seq<Action>, p: nat)
    requires Leads(ss, acts) && TameRun(ss, acts) && Inv(ss[0]) && Committed(ss[0], p)
    ensures Committed(ss[|acts|], p) || exists i :: 0 <= i < |ss| && Reaped(ss[i], p)
    decreases |acts|
  {
    if acts != [] {
      var n := |acts| - 1;
      var pre := ss[..|ss| - 1];
      CommittedUntilReaped(pre, acts[..n], p);
      if i :| 0 <= i < |pre| && Reaped(pre[i], p) {
        assert Reaped(ss[i], p);
      } else {
        LeadsInv(pre, acts[..n]);
        assert StepsTo(ss[n], acts[n], ss[n + 1]);
        CommittedStays(ss[n], acts[n], p);
        assert Committed(ss[n + 1], p) || Reaped(ss[n + 1], p);
      }
    }
  }

  /** How often CPU c acts. */
  function Turns(acts: seq<Action>, c: nat): nat {
    if acts == [] then 0 else (if acts[0].c == c then 1 else 0) + Turns(acts[1..], c)
  }

  /** How many steps the code of exit still takes before it sets ZOMBIE. */
  function StepsToZombie(pc: Pc): nat {
    if pc.ExitWant? then 4 else if pc.ExitOwn? then 3 else if pc.ExitWake? then 2 else if pc.ExitMark? then 1 else 0
  }

  ghost predicate Dead(s: State, p: nat) { p < |s.proc| && s.proc[p].st == Zombie }

  lemma LeadsRest(ss: seq<State>, acts: seq<Action>)
    requires Leads(ss, acts) && acts != []
    ensures Leads(ss[1..], acts[1..])
  {
    forall i | 0 <= i < |acts[1..]| ensures StepsTo(ss[1..][i], acts[1..][i], ss[1..][i + 1]) {
      assert StepsTo(ss[i + 1], acts[i + 1], ss[i + 2]);
    }
  }

  /** A CPU in the last part of exit has made its process a ZOMBIE once it has taken the steps that are left, whatever
      the other CPUs do in between. */
  lemma {:induction false} ExitEnds(ss: seq<State>, acts: seq<Action>, c: nat)
    requires Leads(ss, acts) && c < |ss[0].cpu| && 0 < StepsToZombie(ss[0].cpu[c].pc) <= Turns(acts, c)
    ensures exists i :: 0 <= i < |ss| && Dead(ss[i], ss[0].cpu[c].pc.p)
    decreases |acts|
  {
    var pc := ss[0].cpu[c].pc;
    assert StepsTo(ss[0], acts[0], ss[1]);
    if acts[0].c == c && pc.ExitMark? {
      assert Dead(ss[1], pc.p);
    } else {
      LeadsRest(ss, acts);
      ExitEnds(ss[1..], acts[1..], c);
      var i :| 0 <= i < |ss[1..]| && Dead(ss[1..][i], pc.p);
      assert Dead(ss[i + 1], pc.p);
    }
  }

  /** A process that has left its queue in exit becomes a ZOMBIE that wait can reap exactly when no timer interrupt
      comes before it takes its parent's lock: then five turns of its CPU make it one. One that is preempted there stays
      out of every queue for ever and is never a ZOMBIE. */
  lemma ExitFate(ss: seq<State>, acts: seq<Action>, c: nat)
    requires Leads(ss, acts) && TameRun(ss, acts) && Inv(ss[0]) && acts != [] && acts[0].Choose? && acts[0].c == c
    requires c < |ss[0].cpu| && ss[0].cpu[c].pc.ExitOut?
    ensures var p := ss[0].cpu[c].pc.p;
            acts[0].ch == Yield ==>
              Doomed(ss[|acts|], p) && forall i :: 0 <= i < NPRIO ==> Shape(ss[|acts|]) && p !in ss[|acts|].queue[i]
    ensures var p := ss[0].cpu[c].pc.p;
            acts[0].ch != Yield ==> Committed(ss[|acts|], p) || exists i :: 0 <= i < |ss| && Reaped(ss[i], p)
    ensures var p := ss[0].cpu[c].pc.p;
            acts[0].ch != Yield && Turns(acts, c) >= 5 ==> exists i :: 0 <= i < |ss| && Dead(ss[i], p)
  {
    var p := ss[0].cpu[c].pc.p;
    var last := ss[|acts|];
    assert StepsTo(ss[0], acts[0], ss[1]) && Tame(ss[0], acts[0]);
    assert OkCpu(ss[0], c) && OkLink(ss[0], c, p);
    StepInv(ss[0], acts[0]);
    LeadsRest(ss, acts);
    var rest, more := ss[1..], acts[1..];
    assert TameRun(rest, more);
    if acts[0].ch == Yield {
      assert YieldingAt(ss[1], c, p);
      DoomedForever(rest, more, p);
      LeadsInv(rest, more);
      forall i: nat | i < NPRIO ensures p !in last.queue[i] { assert OkQueue(last, i, p); }
    } else {
      assert ExitingAt(ss[1], c, p);
      CommittedUntilReaped(rest, more, p);
      if i :| 0 <= i < |rest| && Reaped(rest[i], p) {
        assert Reaped(ss[i + 1], p);
      }
      if Turns(acts, c) >= 5 {
        ExitEnds(rest, more, c);
        var j :| 0 <= j < |rest| && Dead(rest[j], p);
        assert Dead(ss[j + 1], p);
      }
    }
  }
}
