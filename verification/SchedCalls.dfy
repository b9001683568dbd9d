/** What fork, yield, sleep, exit and wait come to on a CPU that meets no lock held (kernel/proc.c). */
module SchedCalls {
  import opened Prelude
  import opened Sched
  import opened SchedRuns

  // ---------------------------------------------------------------- one CPU at work

  ghost predicate DoesIn(ss: seq<State>, acts: seq<Action>, s: State, c: nat, t: State) {
    Leads(ss, acts) && ss[0] == s && ss[|acts|] == t && forall i :: 0 <= i < |acts| ==> acts[i].c == c
  }

  /** Steps and choices of CPU c alone lead from s to t. */
  ghost predicate Does(s: State, c: nat, t: State) { exists ss, acts :: DoesIn(ss, acts, s, c, t) }

  lemma DoesNothing(s: State, c: nat)
    ensures Does(s, c, s)
  {
    assert DoesIn([s], [], s, c, s);
  }

  lemma DoesMore(s: State, c: nat, t: State, a: Action, u: State)
    requires Does(s, c, t) && StepsTo(t, a, u) && a.c == c
    ensures Does(s, c, u)
  {
    var ss, acts :| DoesIn(ss, acts, s, c, t);
    var ss1, acts1 := ss + [u], acts + [a];
    forall i | 0 <= i < |acts1| ensures StepsTo(ss1[i], acts1[i], ss1[i + 1]) && acts1[i].c == c {
      if i < |acts| {
        assert StepsTo(ss[i], acts[i], ss[i + 1]);
      }
    }
    assert DoesIn(ss1, acts1, s, c, u);
  }

  /** What CPU c and process r are at, in a state that is otherwise s. */
  datatype Scene = Scene(pc: Pc, cur: Option<nat>, x: Proc, prio: Option<nat>, queue: seq<seq<nat>>)

  function Set(s: State, c: nat, r: nat, v: Scene): State
    requires c < |s.cpu| && r < |s.proc|
  {
    State(v.prio, s.proc[r := v.x], s.cpu[c := Cpu(v.pc, v.cur)], v.queue)
  }

  /** A step of CPU c that concerns r, if no lock is in its way. */
  function Stepped(c: nat, r: nat, v: Scene, hit: bool): Option<Scene> {
    if && |v.queue| == NPRIO && Steps(v.pc) && Subject(v.pc) == r && v.x.prio < NPRIO
       && (WantsPrio(v.pc) ==> v.prio.None?) && (WantsLock(v.pc) ==> v.x.lock.None?)
    then
      var e, k := Local(c, v.pc, v.x, hit), v.x.prio;
      Some(Scene(e.pc, CurAfter(Cpu(v.pc, v.cur)), e.x, PrioAfter(v.prio, c, e.prio),
                 if e.queue.Stay? then v.queue else v.queue[k := QueueAfter(v.queue[k], r, e.queue)]))
    else None
  }

  lemma Acts(s: State, c: nat, r: nat, base: State, v: Scene, hit: bool, w: Scene)
    requires c < |base.cpu| && r < |base.proc| && Does(s, c, Set(base, c, r, v)) && Stepped(c, r, v, hit) == Some(w)
    ensures Does(s, c, Set(base, c, r, w))
  {
    var t, u := Set(base, c, r, v), Set(base, c, r, w);
    assert Next(t, Step(c, hit)).cpu == u.cpu;
    assert Next(t, Step(c, hit)).proc == u.proc;
    assert Next(t, Step(c, hit)).queue == u.queue;
    DoesMore(s, c, t, Step(c, hit), u);
  }

  lemma Decides(s: State, c: nat, r: nat, base: State, v: Scene, ch: Choice, pc: Pc)
    requires c < |base.cpu| && r < |base.proc| && Does(s, c, Set(base, c, r, v)) && |v.queue| == NPRIO
    requires Chosen(v.pc, ch) == Some(pc) && (HasOther(pc) ==> pc.q < |base.proc|)
    ensures Does(s, c, Set(base, c, r, v.(pc := pc)))
  {
    var t, u := Set(base, c, r, v), Set(base, c, r, v.(pc := pc));
    assert Next(t, Choose(c, ch)).cpu == u.cpu;
    DoesMore(s, c, t, Choose(c, ch), u);
  }

  /** CPU c runs process p, and prio_lock and the lock of p are free. */
  ghost predicate Runs(s: State, c: nat, p: nat) {
    && Shape(s) && c < |s.cpu| && s.cpu[c] == Cpu(Run(p), Some(p)) && s.prioLock.None?
    && p < |s.proc| && s.proc[p].lock.None? && ProcOk(s.proc[p])
  }

  /** Process q is in state st, and its lock is free. */
  ghost predicate IsIn(s: State, q: nat, st: PState) {
    q < |s.proc| && s.proc[q].st == st && s.proc[q].lock.None? && ProcOk(s.proc[q])
  }

  /** The state itself, as a scene. */
  lemma Self(s: State, c: nat, r: nat)
    requires c < |s.cpu| && r < |s.proc|
    ensures Set(s, c, r, Scene(s.cpu[c].pc, s.cpu[c].cur, s.proc[r], s.prioLock, s.queue)) == s
  {
  }

  // ---------------------------------------------------------------- fork

  /** fork of a slot that is UNUSED: the child is RUNNABLE with the default priority, last in its queue, and the parent
      goes on. */
  lemma ForkMakes(s: State, c: nat, p: nat, q: nat)
    requires Runs(s, c, p) && IsIn(s, q, Unused)
    ensures Does(s, c, s.(proc := s.proc[q := Proc(None, Runnable, DEF_PRIO, Queued)],
                          queue := s.queue[DEF_PRIO := s.queue[DEF_PRIO] + [q]]))
  {
    var x, on, q0 := s.proc[q], Some(p), s.queue;
    Self(s, c, q);
    DoesNothing(s, c);
    var v := Scene(Run(p), on, x, None, q0);
    Decides(s, c, q, s, v, Fork(q), ForkWant(p, q));
    ForkLocks(s, c, p, q);
    var w := Scene(ForkQueue(p, q), on, Proc(Some(c), Runnable, DEF_PRIO, Fresh), None, q0);
    v := Scene(ForkInsert(p, q), on, w.x, Some(c), q0);
    Acts(s, c, q, s, w, false, v);
    w := Scene(Run(p), on, Proc(None, Runnable, DEF_PRIO, Queued), None, q0[DEF_PRIO := q0[DEF_PRIO] + [q]]);
    Acts(s, c, q, s, v, false, w);
    assert s.cpu[c := Cpu(Run(p), on)] == s.cpu;
  }

  lemma ForkAllocates(s: State, c: nat, p: nat, q: nat)
    requires Runs(s, c, p) && IsIn(s, q, Unused)
    requires Does(s, c, Set(s, c, q, Scene(ForkWant(p, q), Some(p), s.proc[q], None, s.queue)))
    ensures Does(s, c, Set(s, c, q, Scene(ForkMade(p, q), Some(p), Proc(Some(c), Unused, DEF_PRIO, Fresh), None,
                                          s.queue)))
  {
    var x, on := s.proc[q], Some(p);
    var v := Scene(ForkWant(p, q), on, x, None, s.queue);
    var w := Scene(ForkAt(p, q), on, x.(lock := Some(c)), None, s.queue);
    Acts(s, c, q, s, v, false, w);
    v := Scene(ForkMade(p, q), on, Proc(Some(c), Unused, DEF_PRIO, Fresh), None, s.queue);
    Acts(s, c, q, s, w, false, v);
  }

  lemma ForkLocks(s: State, c: nat, p: nat, q: nat)
    requires Runs(s, c, p) && IsIn(s, q, Unused)
    requires Does(s, c, Set(s, c, q, Scene(ForkWant(p, q), Some(p), s.proc[q], None, s.queue)))
    ensures Does(s, c, Set(s, c, q, Scene(ForkQueue(p, q), Some(p), Proc(Some(c), Runnable, DEF_PRIO, Fresh), None,
                                          s.queue)))
  {
    ForkAllocates(s, c, p, q);
    var v := Scene(ForkMade(p, q), Some(p), Proc(Some(c), Unused, DEF_PRIO, Fresh), None, s.queue);
    var w := Scene(ForkQueue(p, q), Some(p), Proc(Some(c), Runnable, DEF_PRIO, Fresh), None, s.queue);
    Acts(s, c, q, s, v, true, w);
  }

  /** fork without memory for the child: the slot is as free as before. */
  lemma ForkFails(s: State, c: nat, p: nat, q: nat)
    requires Runs(s, c, p) && IsIn(s, q, Unused)
    ensures Does(s, c, s.(proc := s.proc[q := Proc(None, Unused, 0, Fresh)]))
  {
    Self(s, c, q);
    DoesNothing(s, c);
    var v := Scene(Run(p), Some(p), s.proc[q], None, s.queue);
    Decides(s, c, q, s, v, Fork(q), ForkWant(p, q));
    ForkAllocates(s, c, p, q);
    v := Scene(ForkMade(p, q), Some(p), Proc(Some(c), Unused, DEF_PRIO, Fresh), None, s.queue);
    Acts(s, c, q, s, v, false, Scene(Run(p), Some(p), Proc(None, Unused, 0, Fresh), None, s.queue));
    assert s.cpu[c := Cpu(Run(p), Some(p))] == s.cpu;
  }

  // ---------------------------------------------------------------- yield and sleep

  /** The switch to the scheduler, by a process that has changed its state: the CPU is in its scheduler, and the lock of
      the process is free again. */
  lemma SwitchesOut(s: State, c: nat, p: nat, base: State, x: Proc)
    requires c < |base.cpu| && p < |base.proc| && Shape(base) && x.lock == Some(c) && x.prio < NPRIO
    requires Does(s, c, Set(base, c, p, Scene(Switch(p), Some(p), x, None, base.queue)))
    ensures Does(s, c, Set(base, c, p, Scene(Idle, None, x.(lock := None), None, base.queue)))
  {
    var v, w := Scene(Switch(p), Some(p), x, None, base.queue), Scene(Back(p), Some(p), x, None, base.queue);
    Acts(s, c, p, base, v, false, w);
    v := Scene(Drop(p), None, x, None, base.queue);
    Acts(s, c, p, base, w, false, v);
    Acts(s, c, p, base, v, false, Scene(Idle, None, x.(lock := None), None, base.queue));
  }

  /** What is left after p has given up CPU c in state st. */
  function GivenUp(s: State, c: nat, p: nat, st: PState): State
    requires c < |s.cpu| && p < |s.proc|
  {
    s.(proc := s.proc[p := s.proc[p].(st := st)], cpu := s.cpu[c := Cpu(Idle, None)])
  }

  /** yield, as from the timer: the process stays in its queue, RUNNABLE. */
  lemma YieldKeeps(s: State, c: nat, p: nat)
    requires Runs(s, c, p)
    ensures Does(s, c, GivenUp(s, c, p, Runnable))
  {
    var x, on := s.proc[p], Some(p);
    Self(s, c, p);
    DoesNothing(s, c);
    var v := Scene(Run(p), on, x, None, s.queue);
    Decides(s, c, p, s, v, Yield, YieldWant(p));
    v := v.(pc := YieldWant(p));
    var w := Scene(YieldMark(p), on, x.(lock := Some(c)), None, s.queue);
    Acts(s, c, p, s, v, false, w);
    v := Scene(Switch(p), on, x.(lock := Some(c), st := Runnable), None, s.queue);
    Acts(s, c, p, s, w, false, v);
    SwitchesOut(s, c, p, s, v.x);
    assert v.x.(lock := None) == x.(st := Runnable);
  }

  /** sleep: the process is SLEEPING, and still in its queue. */
  lemma SleepSleeps(s: State, c: nat, p: nat)
    requires Runs(s, c, p)
    ensures Does(s, c, GivenUp(s, c, p, Sleeping))
  {
    var x, on := s.proc[p], Some(p);
    Self(s, c, p);
    DoesNothing(s, c);
    var v := Scene(Run(p), on, x, None, s.queue);
    Decides(s, c, p, s, v, Sleep, SleepWant(p));
    v := v.(pc := SleepWant(p));
    var w := Scene(SleepMark(p), on, x.(lock := Some(c)), None, s.queue);
    Acts(s, c, p, s, v, false, w);
    v := Scene(Switch(p), on, x.(lock := Some(c), st := Sleeping), None, s.queue);
    Acts(s, c, p, s, w, false, v);
    SwitchesOut(s, c, p, s, v.x);
    assert v.x.(lock := None) == x.(st := Sleeping);
  }

  // ---------------------------------------------------------------- wait

  /** wait that finds the child q a ZOMBIE: the slot is UNUSED again, and the parent goes on. */
  lemma WaitReaps(s: State, c: nat, p: nat, q: nat)
    requires Runs(s, c, p) && IsIn(s, q, Zombie) && q != p
    ensures Does(s, c, s.(proc := s.proc[q := Proc(None, Unused, 0, Fresh)]))
  {
    WaitBegins(s, c, p);
    var x := s.proc[p].(lock := Some(c));
    var base, on := s.(proc := s.proc[p := x]), Some(p);
    var v := Scene(WaitScan(p), on, s.proc[q], None, s.queue);
    assert Set(base, c, q, v) == Set(s, c, p, Scene(WaitScan(p), on, x, None, s.queue));
    WaitFinds(s, c, p, q, base);
    WaitEnds(s, c, p, q, Proc(None, Unused, 0, Fresh));
  }

  lemma WaitFinds(s: State, c: nat, p: nat, q: nat, base: State)
    requires Shape(base) && c < |base.cpu| && IsIn(base, q, Zombie) && q != p
    requires Does(s, c, Set(base, c, q, Scene(WaitScan(p), Some(p), base.proc[q], None, base.queue)))
    ensures Does(s, c, Set(base, c, q, Scene(WaitDone(p), Some(p), Proc(None, Unused, 0, Fresh), None, base.queue)))
  {
    var y, on := base.proc[q], Some(p);
    var v := Scene(WaitScan(p), on, y, None, base.queue);
    Decides(s, c, q, base, v, Child(q), WaitWant(p, q));
    v := v.(pc := WaitWant(p, q));
    var w := Scene(WaitAt(p, q), on, y.(lock := Some(c)), None, base.queue);
    Acts(s, c, q, base, v, false, w);
    v := Scene(WaitDone(p), on, Proc(None, Unused, 0, Fresh), None, base.queue);
    Acts(s, c, q, base, w, false, v);
  }

  lemma WaitBegins(s: State, c: nat, p: nat)
    requires Runs(s, c, p)
    ensures Does(s, c, Set(s, c, p, Scene(WaitScan(p), Some(p), s.proc[p].(lock := Some(c)), None, s.queue)))
  {
    Self(s, c, p);
    DoesNothing(s, c);
    var v := Scene(Run(p), Some(p), s.proc[p], None, s.queue);
    Decides(s, c, p, s, v, Wait, WaitOwn(p));
    v := v.(pc := WaitOwn(p));
    Acts(s, c, p, s, v, false, Scene(WaitScan(p), Some(p), s.proc[p].(lock := Some(c)), None, s.queue));
  }

  lemma WaitEnds(s: State, c: nat, p: nat, q: nat, y: Proc)
    requires Runs(s, c, p) && q < |s.proc| && q != p
    requires var base := s.(proc := s.proc[p := s.proc[p].(lock := Some(c))]);
             Does(s, c, Set(base, c, q, Scene(WaitDone(p), Some(p), y, None, s.queue)))
    ensures Does(s, c, s.(proc := s.proc[q := y]))
  {
    var x, base := s.proc[p].(lock := Some(c)), s.(proc := s.proc[p := s.proc[p].(lock := Some(c))]);
    var other := s.(proc := s.proc[q := y]);
    var v := Scene(WaitDone(p), Some(p), x, None, s.queue);
    assert base.proc[q := y] == other.proc[p := x];
    assert Set(other, c, p, v) == Set(base, c, q, Scene(WaitDone(p), Some(p), y, None, s.queue));
    Acts(s, c, p, other, v, false, Scene(Run(p), Some(p), s.proc[p], None, s.queue));
    Self(other, c, p);
  }

  /** wait that finds no ZOMBIE and goes to sleep. */
  lemma WaitSleeps(s: State, c: nat, p: nat)
    requires Runs(s, c, p)
    ensures Does(s, c, GivenUp(s, c, p, Sleeping))
  {
    WaitBegins(s, c, p);
    var x := s.proc[p].(lock := Some(c));
    var v := Scene(WaitScan(p), Some(p), x, None, s.queue);
    Decides(s, c, p, s, v, Sleep, SleepMark(p));
    v := v.(pc := SleepMark(p));
    var w := Scene(Switch(p), Some(p), x.(st := Sleeping), None, s.queue);
    Acts(s, c, p, s, v, false, w);
    SwitchesOut(s, c, p, s, w.x);
    assert w.x.(lock := None) == s.proc[p].(st := Sleeping);
  }

  // ---------------------------------------------------------------- exit

  /** The first part of exit: the process has left its queue. */
  lemma ExitLeaves(s: State, c: nat, p: nat)
    requires Runs(s, c, p)
    ensures var k := s.proc[p].prio;
            Does(s, c, Set(s, c, p, Scene(ExitOut(p), Some(p), s.proc[p].(life := Left), None,
                                          s.queue[k := Removed(s.queue[k], p)])))
  {
    var x, on := s.proc[p], Some(p);
    Self(s, c, p);
    DoesNothing(s, c);
    var v := Scene(Run(p), on, x, None, s.queue);
    Decides(s, c, p, s, v, Exit, ExitPrio(p));
    v := v.(pc := ExitPrio(p));
    var w := Scene(ExitLock(p), on, x, Some(c), s.queue);
    Acts(s, c, p, s, v, false, w);
    v := Scene(ExitRemove(p), on, x.(lock := Some(c)), Some(c), s.queue);
    Acts(s, c, p, s, w, false, v);
    Acts(s, c, p, s, v, false,
         Scene(ExitOut(p), on, x.(life := Left), None, s.queue[x.prio := Removed(s.queue[x.prio], p)]));
  }

  /** CPU c is in exit of p, past the queue, and prio_lock and the lock of p are free. */
  ghost predicate Exits(s: State, c: nat, p: nat) {
    && Shape(s) && c < |s.cpu| && s.cpu[c] == Cpu(ExitOut(p), Some(p)) && s.prioLock.None?
    && p < |s.proc| && s.proc[p].lock.None? && ProcOk(s.proc[p])
  }

  /** The parent's record after the wakeup in exit: RUNNABLE if it sleeps in wait. */
  function Woken(y: Proc, hit: bool): Proc { if y.st == Sleeping && hit then y.(st := Runnable) else y }

  lemma ExitTakes(s: State, c: nat, p: nat, q: nat)
    requires Exits(s, c, p) && q < |s.proc| && q != p && s.proc[q].lock.None? && ProcOk(s.proc[q])
    ensures Does(s, c, Set(s, c, q, Scene(ExitOwn(p, q), Some(p), s.proc[q].(lock := Some(c)), None, s.queue)))
  {
    Self(s, c, q);
    DoesNothing(s, c);
    var v := Scene(ExitOut(p), Some(p), s.proc[q], None, s.queue);
    Decides(s, c, q, s, v, Parent(q), ExitWant(p, q));
    v := v.(pc := ExitWant(p, q));
    Acts(s, c, q, s, v, false, Scene(ExitOwn(p, q), Some(p), s.proc[q].(lock := Some(c)), None, s.queue));
  }

  /** The other record's turn. */
  lemma Turns(base: State, c: nat, p: nat, q: nat, x: Proc, y: Proc, pc: Pc)
    requires c < |base.cpu| && p < |base.proc| && q < |base.proc| && p != q
    ensures Set(base.(proc := base.proc[q := y]), c, p, Scene(pc, Some(p), x, None, base.queue)) ==
              Set(base.(proc := base.proc[p := x]), c, q, Scene(pc, Some(p), y, None, base.queue))
  {
    assert base.proc[q := y][p := x] == base.proc[p := x][q := y];
  }

  /** With the parent's lock: its own, and the wakeup. */
  lemma ExitWakes(s: State, c: nat, p: nat, q: nat, base: State, x: Proc, y: Proc, hit: bool)
    requires c < |base.cpu| && p < |base.proc| && q < |base.proc| && p != q && |base.queue| == NPRIO
    requires x.lock.None? && x.prio < NPRIO && y.prio < NPRIO
    requires Does(s, c, Set(base.(proc := base.proc[p := x]), c, q, Scene(ExitOwn(p, q), Some(p), y, None, base.queue)))
    ensures Does(s, c, Set(base.(proc := base.proc[q := Woken(y, hit)]), c, p,
                           Scene(ExitMark(p, q), Some(p), x.(lock := Some(c)), None, base.queue)))
  {
    var x1, y1 := x.(lock := Some(c)), Woken(y, hit);
    Turns(base, c, p, q, x, y, ExitOwn(p, q));
    Acts(s, c, p, base.(proc := base.proc[q := y]), Scene(ExitOwn(p, q), Some(p), x, None, base.queue), false,
         Scene(ExitWake(p, q), Some(p), x1, None, base.queue));
    Turns(base, c, p, q, x1, y, ExitWake(p, q));
    Acts(s, c, q, base.(proc := base.proc[p := x1]), Scene(ExitWake(p, q), Some(p), y, None, base.queue), hit,
         Scene(ExitMark(p, q), Some(p), y1, None, base.queue));
    Turns(base, c, p, q, x1, y1, ExitMark(p, q));
  }

  /** The second part of exit, past the parent's lock: the process is a ZOMBIE, a parent asleep in wait is RUNNABLE, and
      the CPU is in its scheduler. */
  lemma ExitDies(s: State, c: nat, p: nat, q: nat, hit: bool)
    requires Exits(s, c, p) && q < |s.proc| && q != p && s.proc[q].lock.None? && ProcOk(s.proc[q])
    ensures Does(s, c, GivenUp(s.(proc := s.proc[q := Woken(s.proc[q], hit)]), c, p, Zombie))
  {
    var x, y := s.proc[p], s.proc[q].(lock := Some(c));
    ExitTakes(s, c, p, q);
    assert s.proc[p := x] == s.proc;
    ExitWakes(s, c, p, q, s, x, y, hit);
    ExitSwitches(s, c, p, q, x.(lock := Some(c)), Woken(y, hit));
  }

  lemma ExitSwitches(s: State, c: nat, p: nat, q: nat, x: Proc, y: Proc)
    requires Exits(s, c, p) && q < |s.proc| && q != p && x.lock == Some(c) && x.prio < NPRIO && y.prio < NPRIO
    requires Does(s, c, Set(s.(proc := s.proc[q := y]), c, p, Scene(ExitMark(p, q), Some(p), x, None, s.queue)))
    ensures var t := s.(proc := s.proc[q := y.(lock := None)]);
            Does(s, c, Set(t, c, p, Scene(Idle, None, x.(st := Zombie, lock := None), None, s.queue)))
  {
    var z, y1 := x.(st := Zombie), y.(lock := None);
    Acts(s, c, p, s.(proc := s.proc[q := y]), Scene(ExitMark(p, q), Some(p), x, None, s.queue), false,
         Scene(ExitUnlock(p, q), Some(p), z, None, s.queue));
    Turns(s, c, p, q, z, y, ExitUnlock(p, q));
    Acts(s, c, q, s.(proc := s.proc[p := z]), Scene(ExitUnlock(p, q), Some(p), y, None, s.queue), false,
         Scene(Switch(p), Some(p), y1, None, s.queue));
    Turns(s, c, p, q, z, y1, Switch(p));
    SwitchesOut(s, c, p, s.(proc := s.proc[q := y1]), z);
  }
}
