/** Runs of the scheduler that exist: other queues than the default one fill, nice on a dead process spoils the queues,
    and a child gets as far as leaving its queue in exit. */
module SchedReach {
  import opened Prelude
  import opened Sched
  import opened SchedSteps
  import opened SchedRuns

  // ---------------------------------------------------------------- sets of states closed under steps

  ghost predicate Follows(r: iset<State>, s: State, a: Action, t: State) {
    s in r && StepsTo(s, a, t) && Tame(s, a) ==> t in r
  }

  ghost predicate Starts(r: iset<State>, s: State) { Init(s) ==> s in r }

  /** r holds every initial state and is left by no step. */
  ghost predicate Closed(r: iset<State>) { (forall s :: Starts(r, s)) && forall s, a, t :: Follows(r, s, a, t) }

  ghost predicate Ends(ss: seq<State>, acts: seq<Action>, t: State) {
    Execution(ss, acts) && TameRun(ss, acts) && ss[|acts|] == t
  }

  /** Some run, with nice called on queued processes only, ends in t. */
  ghost predicate Reached(t: State) { exists ss, acts :: Ends(ss, acts, t) }

  // ------------------------------------------------ two processes, and two CPUs of which one moves, from userinit on

  const BLANK := Proc(None, Unused, 0, Fresh)

  function Ready(st: PState): Proc { Proc(None, st, DEF_PRIO, Queued) }

  function Locked(st: PState): Proc { Proc(Some(0), st, DEF_PRIO, Queued) }

  /** Queues that are empty but for that of the default priority. */
  function Only(q: seq<nat>): (r: seq<seq<nat>>)
    ensures |r| == NPRIO && forall i :: 0 <= i < NPRIO ==> r[i] == if i == DEF_PRIO then q else []
  {
    [[], [], [], [], [], q, [], [], [], []]
  }

  function At(pc: Pc, cur: Option<nat>, prioLock: Option<nat>, x: Proc, y: Proc, q: seq<nat>): State {
    State(prioLock, [x, y], [Cpu(pc, cur), Cpu(Idle, None)], Only(q))
  }

  function Boot(): State { At(Idle, None, None, Ready(Runnable), BLANK, [0]) }

  /** The states that some run ends in make a closed set. */
  lemma ReachedClosed(r: iset<State>)
    requires r == iset t | Reached(t)
    ensures Closed(r)
  {
    forall s ensures Starts(r, s) {
      if Init(s) {
        assert Ends([s], [], s);
      }
    }
    forall s, a, t ensures Follows(r, s, a, t) {
      if s in r && StepsTo(s, a, t) && Tame(s, a) {
        ReachedMore(s, a, t);
      }
    }
  }

  lemma ReachedMore(s: State, a: Action, t: State)
    requires Reached(s) && StepsTo(s, a, t) && Tame(s, a)
    ensures Reached(t)
  {
    var ss, acts :| Ends(ss, acts, s);
    var ss1, acts1 := ss + [t], acts + [a];
    forall i | 0 <= i < |acts1| ensures StepsTo(ss1[i], acts1[i], ss1[i + 1]) && Tame(ss1[i], acts1[i]) {
      if i < |acts| {
        assert StepsTo(ss[i], acts[i], ss[i + 1]) && Tame(ss[i], acts[i]);
      }
    }
    assert Ends(ss1, acts1, t);
  }

  lemma ReachedInv(t: State)
    requires Reached(t)
    ensures Inv(t)
  {
    var ss, acts :| Ends(ss, acts, t);
    RunInv(ss, acts);
  }

  /** Where a scan goes next, of such a state. */
  function Looked(pc: Pc, x: Proc, y: Proc, q: seq<nat>): Option<Pc> {
    match pc
    case Idle => Some(Scan(0, 0))
    case Scan(i, pos) =>
      if i < DEF_PRIO && pos == 0 then Some(Scan(i + 1, 0))
      else if i == DEF_PRIO && pos < |q| && q[pos] < 2 then
        var z := if q[pos] == 0 then x else y;
        if z.prio >= NPRIO then None else if z.st == Runnable then Some(PickWant(q[pos])) else Some(Scan(i, pos + 1))
      else None
    case _ => None
  }

  lemma Move(r: iset<State>, pc: Pc, prioLock: Option<nat>, x: Proc, y: Proc, q: seq<nat>, next: Pc)
    requires Closed(r) && At(pc, None, prioLock, x, y, q) in r && (pc.Idle? ==> prioLock.None?)
    requires Looked(pc, x, y, q) == Some(next) && (pc.Scan? ==> prioLock == Some(0))
    ensures At(next, None, Some(0), x, y, q) in r
  {
    var s, t := At(pc, None, prioLock, x, y, q), At(next, None, Some(0), x, y, q);
    assert Next(s, Step(0, false)) == t;
    assert Follows(r, s, Step(0, false), t);
  }

  lemma {:induction false} ScansTo(r: iset<State>, x: Proc, y: Proc, q: seq<nat>, i: nat)
    requires Closed(r) && At(Idle, None, None, x, y, q) in r && i <= DEF_PRIO
    ensures At(Scan(i, 0), None, Some(0), x, y, q) in r
  {
    if i == 0 {
      Move(r, Idle, None, x, y, q, Scan(0, 0));
    } else {
      ScansTo(r, x, y, q, i - 1);
      Move(r, Scan(i - 1, 0), Some(0), x, y, q, Scan(i, 0));
    }
  }

  /** What a step of the CPU concerns, of such a state: the record x is that of the process it is about. */
  datatype View = View(pc: Pc, cur: Option<nat>, prioLock: Option<nat>, x: Proc, q: seq<nat>)

  function Turn(v: View, p: nat, hit: bool): Option<View> {
    if && Steps(v.pc) && Subject(v.pc) == p
       && (WantsPrio(v.pc) ==> v.prioLock.None?) && (WantsLock(v.pc) ==> v.x.lock.None?)
    then
      var e := Local(0, v.pc, v.x, hit);
      if v.x.prio == DEF_PRIO || (v.x.prio < NPRIO && e.queue.Stay?)
      then Some(View(e.pc, CurAfter(Cpu(v.pc, v.cur)), PrioAfter(v.prioLock, 0, e.prio), e.x,
             QueueAfter(v.q, p, e.queue)))
      else None
    else None
  }

  function First(v: View, y: Proc): State { At(v.pc, v.cur, v.prioLock, v.x, y, v.q) }

  function Second(v: View, x: Proc): State { At(v.pc, v.cur, v.prioLock, x, v.x, v.q) }

  /** A step of the CPU that concerns process 0 ... */
  lemma TurnFirst(r: iset<State>, v: View, y: Proc, hit: bool, w: View)
    requires Closed(r) && First(v, y) in r && Turn(v, 0, hit) == Some(w)
    ensures First(w, y) in r
  {
    assert Next(First(v, y), Step(0, hit)).queue == First(w, y).queue;
    assert Follows(r, First(v, y), Step(0, hit), First(w, y));
  }

  /** ... and one that concerns process 1. */
  lemma TurnSecond(r: iset<State>, v: View, x: Proc, hit: bool, w: View)
    requires Closed(r) && Second(v, x) in r && Turn(v, 1, hit) == Some(w)
    ensures Second(w, x) in r
  {
    assert Next(Second(v, x), Step(0, hit)).queue == Second(w, x).queue;
    assert Follows(r, Second(v, x), Step(0, hit), Second(w, x));
  }

  lemma Choosing(r: iset<State>, pc: Pc, ch: Choice, next: Pc, cur: Option<nat>, x: Proc, y: Proc, q: seq<nat>)
    requires Closed(r) && At(pc, cur, None, x, y, q) in r && Chosen(pc, ch) == Some(next)
    requires HasOther(next) ==> next.q < 2
    ensures At(next, cur, None, x, y, q) in r
  {
    assert Follows(r, At(pc, cur, None, x, y, q), Choose(0, ch), At(next, cur, None, x, y, q));
  }

  // ------------------------------------------------ the first process runs, forks, sleeps; the second exits

  lemma FirstPicked(r: iset<State>)
    requires Closed(r)
    ensures At(PickWant(0), None, Some(0), Ready(Runnable), BLANK, [0]) in r
  {
    assert Starts(r, Boot());
    ScansTo(r, Ready(Runnable), BLANK, [0], DEF_PRIO);
    Move(r, Scan(DEF_PRIO, 0), Some(0), Ready(Runnable), BLANK, [0], PickWant(0));
  }

  lemma FirstRuns(r: iset<State>)
    requires Closed(r)
    ensures At(Run(0), Some(0), None, Ready(Running), BLANK, [0]) in r
  {
    var on, q := Some(0), [0];
    FirstPicked(r);
    var v := View(PickWant(0), None, on, Ready(Runnable), q);
    var w := View(Picked(0), None, on, Locked(Runnable), q);
    TurnFirst(r, v, BLANK, false, w);
    assert Removed(q, 0) + [0] == q;
    v := View(Resume(0), on, None, Locked(Running), q);
    TurnFirst(r, w, BLANK, false, v);
    TurnFirst(r, v, BLANK, false, View(Run(0), on, None, Ready(Running), q));
  }

  lemma FirstForks(r: iset<State>)
    requires Closed(r)
    ensures At(Run(0), Some(0), None, Ready(Running), Ready(Runnable), [0, 1]) in r
  {
    var x, on, q := Ready(Running), Some(0), [0];
    FirstRuns(r);
    Choosing(r, Run(0), Fork(1), ForkWant(0, 1), on, x, BLANK, q);
    var v := View(ForkWant(0, 1), on, None, BLANK, q);
    var w := View(ForkAt(0, 1), on, None, BLANK.(lock := on), q);
    TurnSecond(r, v, x, false, w);
    v := View(ForkMade(0, 1), on, None, Proc(on, Unused, DEF_PRIO, Fresh), q);
    TurnSecond(r, w, x, false, v);
    w := View(ForkQueue(0, 1), on, None, Proc(on, Runnable, DEF_PRIO, Fresh), q);
    TurnSecond(r, v, x, true, w);
    v := View(ForkInsert(0, 1), on, on, Proc(on, Runnable, DEF_PRIO, Fresh), q);
    TurnSecond(r, w, x, false, v);
    assert q + [1] == [0, 1];
    TurnSecond(r, v, x, false, View(Run(0), on, None, Ready(Runnable), [0, 1]));
  }

  /** The running process 0 goes to sleep. */
  lemma Switches(r: iset<State>, y: Proc, q: seq<nat>)
    requires Closed(r) && At(Run(0), Some(0), None, Ready(Running), y, q) in r
    ensures At(Switch(0), Some(0), None, Locked(Sleeping), y, q) in r
  {
    var on := Some(0);
    Choosing(r, Run(0), Sleep, SleepWant(0), on, Ready(Running), y, q);
    var v := View(SleepWant(0), on, None, Ready(Running), q);
    var w := View(SleepMark(0), on, None, Locked(Running), q);
    TurnFirst(r, v, y, false, w);
    TurnFirst(r, w, y, false, View(Switch(0), on, None, Locked(Sleeping), q));
  }

  lemma Sleeps(r: iset<State>, y: Proc, q: seq<nat>)
    requires Closed(r) && At(Run(0), Some(0), None, Ready(Running), y, q) in r
    ensures At(Idle, None, None, Ready(Sleeping), y, q) in r
  {
    Switches(r, y, q);
    var v := View(Switch(0), Some(0), None, Locked(Sleeping), q);
    var w := View(Back(0), Some(0), None, Locked(Sleeping), q);
    TurnFirst(r, v, y, false, w);
    v := View(Drop(0), None, None, Locked(Sleeping), q);
    TurnFirst(r, w, y, false, v);
    TurnFirst(r, v, y, false, View(Idle, None, None, Ready(Sleeping), q));
  }

  /** The scheduler picks process 1, behind process 0 that sleeps, ... */
  lemma SecondPicked(r: iset<State>, x: Proc, y: Proc, q: seq<nat>)
    requires Closed(r) && At(Idle, None, None, x, y, q) in r && x == Ready(Sleeping) && y == Ready(Runnable)
    requires |q| == 2 && q[0] == 0 && q[1] == 1
    ensures At(PickWant(1), None, Some(0), x, y, q) in r
  {
    ScansTo(r, x, y, q, DEF_PRIO);
    Move(r, Scan(DEF_PRIO, 0), Some(0), x, y, q, Scan(DEF_PRIO, 1));
    Move(r, Scan(DEF_PRIO, 1), Some(0), x, y, q, PickWant(1));
  }

  /** ... runs it, ... */
  lemma SecondRuns(r: iset<State>, x: Proc, q: seq<nat>)
    requires Closed(r) && At(PickWant(1), None, Some(0), x, Ready(Runnable), q) in r
    ensures At(Run(1), Some(1), None, x, Ready(Running), Removed(q, 1) + [1]) in r
  {
    var on, q1 := Some(0), Removed(q, 1) + [1];
    var v := View(PickWant(1), None, on, Ready(Runnable), q);
    var w := View(Picked(1), None, on, Locked(Runnable), q);
    TurnSecond(r, v, x, false, w);
    v := View(Resume(1), Some(1), None, Locked(Running), q1);
    TurnSecond(r, w, x, false, v);
    TurnSecond(r, v, x, false, View(Run(1), Some(1), None, Ready(Running), q1));
  }

  /** ... and it calls exit, as far as leaving its queue. */
  lemma SecondExits(r: iset<State>, x: Proc, q: seq<nat>)
    requires Closed(r) && At(Run(1), Some(1), None, x, Ready(Running), q) in r
    ensures At(ExitOut(1), Some(1), None, x, Proc(None, Running, DEF_PRIO, Left), Removed(q, 1)) in r
  {
    Choosing(r, Run(1), Exit, ExitPrio(1), Some(1), x, Ready(Running), q);
    SecondLeaves(r, x, q);
  }

  lemma SecondLeaves(r: iset<State>, x: Proc, q: seq<nat>)
    requires Closed(r) && At(ExitPrio(1), Some(1), None, x, Ready(Running), q) in r
    ensures At(ExitOut(1), Some(1), None, x, Proc(None, Running, DEF_PRIO, Left), Removed(q, 1)) in r
  {
    SecondLocks(r, x, q);
    var v := View(ExitRemove(1), Some(1), Some(0), Locked(Running), q);
    TurnSecond(r, v, x, false, View(ExitOut(1), Some(1), None, Proc(None, Running, DEF_PRIO, Left), Removed(q, 1)));
  }

  lemma SecondLocks(r: iset<State>, x: Proc, q: seq<nat>)
    requires Closed(r) && At(ExitPrio(1), Some(1), None, x, Ready(Running), q) in r
    ensures At(ExitRemove(1), Some(1), Some(0), x, Locked(Running), q) in r
  {
    var v := View(ExitPrio(1), Some(1), None, Ready(Running), q);
    var w := View(ExitLock(1), Some(1), Some(0), Ready(Running), q);
    TurnSecond(r, v, x, false, w);
    TurnSecond(r, w, x, false, View(ExitRemove(1), Some(1), Some(0), Locked(Running), q));
  }

  lemma ExitState(r: iset<State>) returns (s: State)
    requires Closed(r)
    ensures s in r && |s.cpu| == 2 && s.cpu[0].pc == ExitOut(1)
  {
    var x, q := Ready(Sleeping), [0, 1];
    FirstForks(r);
    Sleeps(r, Ready(Runnable), q);
    SecondPicked(r, x, Ready(Runnable), q);
    SecondRuns(r, x, q);
    SecondExits(r, x, Removed(q, 1) + [1]);
    s := At(ExitOut(1), Some(1), None, x, Proc(None, Running, DEF_PRIO, Left), Removed(Removed(q, 1) + [1], 1));
  }

  /** Some run leads to a process that has left its queue in exit, with a CPU about to go on for it. */
  lemma ExitReached()
    ensures exists s :: Reached(s) && Inv(s) && |s.cpu| == 2 && s.cpu[0].pc == ExitOut(1)
  {
    var r := iset t | Reached(t);
    ReachedClosed(r);
    var s := ExitState(r);
    ReachedInv(s);
  }

  // ---------------------------------------------------------------- nice

  /** Some run moves the first process to the queue of priority k. */
  lemma OtherQueueFills(k: nat)
    requires k < NPRIO
    ensures exists t :: Reached(t) && Inv(t) && t.queue[k] == [0]
  {
    var r := iset t | Reached(t);
    ReachedClosed(r);
    FirstRuns(r);
    var s := At(Run(0), Some(0), None, Ready(Running), BLANK, [0]);
    var t := Next(s, Nice(0, 0, k));
    assert Follows(r, s, Nice(0, 0, k), t);
    ReachedInv(t);
    assert Removed([0], 0) == [];
    assert t.queue[k] == [0];
  }

  /** After some run, nice on a slot that is UNUSED, as with pid 0, puts that slot in a queue. */
  lemma NiceSpoilsQueues(k: nat)
    requires k < NPRIO
    ensures exists s :: Reached(s) && Inv(s) && |s.proc| == 2 && s.proc[1].st == Unused &&
                        Enabled(s, Nice(0, 1, k)) && !Exact(Next(s, Nice(0, 1, k)))
  {
    var r := iset t | Reached(t);
    ReachedClosed(r);
    FirstRuns(r);
    var s := At(Run(0), Some(0), None, Ready(Running), BLANK, [0]);
    ReachedInv(s);
    NiceExactIff(s, 0, 1, k);
  }
}
