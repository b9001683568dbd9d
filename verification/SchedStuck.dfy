/** Waiting in a circle for prio_lock (kernel/proc.c): impossible while nice is called on queued processes only,
    possible after nice on a slot that is UNUSED, and then for ever. */
module SchedStuck {
  import opened Prelude
  import opened Sched
  import opened SchedSteps
  import opened SchedRuns
  import opened SchedReach

  // ---------------------------------------------------------------- who waits for whom

  /** CPU c waits for the lock of a process, and CPU d has it. */
  ghost predicate Waits(s: State, c: nat, d: nat) {
    c < |s.cpu| && d < |s.cpu| && WantsLock(s.cpu[c].pc) && HasLock(s.cpu[d].pc, Subject(s.cpu[c].pc))
  }

  /** Each of the CPUs cs waits for the next. */
  ghost predicate Chain(s: State, cs: seq<nat>) {
    |cs| > 0 && cs[0] < |s.cpu| && forall i :: 0 <= i < |cs| - 1 ==> Waits(s, cs[i], cs[i + 1])
  }

  /** The CPU with prio_lock waits, by way of the others in cs, for one that waits for prio_lock. */
  ghost predicate Circle(s: State, cs: seq<nat>) {
    Chain(s, cs) && HasPrio(s.cpu[cs[0]].pc) && cs[|cs| - 1] < |s.cpu| && WantsPrio(s.cpu[cs[|cs| - 1]].pc)
  }

  /** The scheduler on d is about to lock process q, which fork has locked on c, and fork to lock the queues. */
  ghost predicate Embrace(s: State, c: nat, d: nat, q: nat) {
    c < |s.cpu| && d < |s.cpu| && s.cpu[c].pc.ForkQueue? && s.cpu[c].pc.q == q && s.cpu[d].pc == PickWant(q)
  }

  /** What the CPU with prio_lock waits for is fork, as above, or a CPU in exit that waits for its own process; and so
      on from there. */
  lemma WaitsOn(s: State, c: nat, d: nat)
    requires Safe(s) && Waits(s, c, d) && (HasPrio(s.cpu[c].pc) || s.cpu[c].pc.ExitOwn?)
    ensures WantsPrio(s.cpu[d].pc) ==> Embrace(s, d, c, Subject(s.cpu[c].pc))
    ensures WantsLock(s.cpu[d].pc) ==> s.cpu[d].pc.ExitOwn?
  {
    var p := Subject(s.cpu[c].pc);
    assert OkCpu(s, c) && OkCpu(s, d) && OkLink(s, c, p) && OkLink(s, d, p);
    assert OkPair(s, c, d);
  }

  lemma {:induction false} ChainEnds(s: State, cs: seq<nat>, k: nat)
    requires Safe(s) && Chain(s, cs) && HasPrio(s.cpu[cs[0]].pc) && 0 < k < |cs|
    ensures cs[k] < |s.cpu| && (WantsLock(s.cpu[cs[k]].pc) ==> s.cpu[cs[k]].pc.ExitOwn?)
    ensures WantsPrio(s.cpu[cs[k]].pc) ==> Embrace(s, cs[k], cs[k - 1], Subject(s.cpu[cs[k - 1]].pc))
  {
    if k > 1 {
      ChainEnds(s, cs, k - 1);
    }
    assert Waits(s, cs[k - 1], cs[k]);
    WaitsOn(s, cs[k - 1], cs[k]);
  }

  /** In every run, whatever nice is called on: CPUs wait in a circle for prio_lock exactly when the scheduler is about
      to lock a process that fork is about to insert. */
  lemma CircleIff(ss: seq<State>, acts: seq<Action>)
    requires Execution(ss, acts)
    ensures var s := ss[|acts|]; (exists cs :: Circle(s, cs)) <==> exists c, d, q :: Embrace(s, c, d, q)
  {
    var s := ss[|acts|];
    RunSafe(ss, acts);
    if cs :| Circle(s, cs) {
      assert OkCpu(s, cs[0]);
      ChainEnds(s, cs, |cs| - 1);
    }
    if c, d, q :| Embrace(s, c, d, q) {
      assert Waits(s, d, c);
      assert Circle(s, [d, c]);
    }
  }

  /** The scheduler picks a queued process, and fork inserts one that is not queued yet. */
  lemma NoEmbrace(s: State, c: nat, d: nat, q: nat)
    requires Inv(s)
    ensures !Embrace(s, c, d, q)
  {
    assert OkCpu(s, c) && OkLink(s, c, q) && OkPick(s, d);
  }

  /** While nice is called on queued processes only, they never do. */
  lemma NoCircle(ss: seq<State>, acts: seq<Action>)
    requires Execution(ss, acts) && TameRun(ss, acts)
    ensures forall cs :: !Circle(ss[|acts|], cs)
  {
    RunInv(ss, acts);
    CircleIff(ss, acts);
    forall c, d, q ensures !Embrace(ss[|acts|], c, d, q) {
      NoEmbrace(ss[|acts|], c, d, q);
    }
  }

  /** Once they do, they do for ever: no CPU gets prio_lock again, so none picks a process. */
  lemma EmbraceStays(s: State, a: Action, c: nat, d: nat, q: nat)
    requires Safe(s) && Enabled(s, a) && Embrace(s, c, d, q)
    ensures Embrace(Next(s, a), c, d, q) && Next(s, a).prioLock == Some(d)
  {
    assert OkCpu(s, c) && OkCpu(s, d) && OkLink(s, c, q) && OkCpu(s, a.c);
  }

  lemma {:induction false} StuckForEver(ss: seq<State>, acts: seq<Action>, c: nat, d: nat, q: nat)
    requires Leads(ss, acts) && Safe(ss[0]) && Embrace(ss[0], c, d, q)
    ensures Embrace(ss[|acts|], c, d, q) && ss[|acts|].prioLock == Some(d)
    decreases |acts|
  {
    if acts == [] {
      assert OkCpu(ss[0], d);
    } else {
      var n := |acts| - 1;
      StuckForEver(ss[..|ss| - 1], acts[..n], c, d, q);
      LeadsSafe(ss[..|ss| - 1], acts[..n]);
      assert StepsTo(ss[n], acts[n], ss[n + 1]);
      EmbraceStays(ss[n], acts[n], c, d, q);
    }
  }

  // ---------------------------------------------------------------- nice on an unused slot, then fork of that slot

  ghost predicate EndsIn(ss: seq<State>, acts: seq<Action>, t: State) { Execution(ss, acts) && ss[|acts|] == t }

  /** Some run ends in t. */
  ghost predicate WildReached(t: State) { exists ss, acts :: EndsIn(ss, acts, t) }

  lemma WildMore(s: State, a: Action, t: State)
    requires WildReached(s) && StepsTo(s, a, t)
    ensures WildReached(t)
  {
    var ss, acts :| EndsIn(ss, acts, s);
    var ss1, acts1 := ss + [t], acts + [a];
    forall i | 0 <= i < |acts1| ensures StepsTo(ss1[i], acts1[i], ss1[i + 1]) {
      if i < |acts| {
        assert StepsTo(ss[i], acts[i], ss[i + 1]);
      }
    }
    assert EndsIn(ss1, acts1, t);
  }

  lemma WildClosed(r: iset<State>)
    requires r == iset t | WildReached(t)
    ensures Closed(r)
  {
    forall s ensures Starts(r, s) {
      if Init(s) {
        assert EndsIn([s], [], s);
      }
    }
    forall s, a, t ensures Follows(r, s, a, t) {
      if s in r && StepsTo(s, a, t) {
        WildMore(s, a, t);
      }
    }
  }

  /** The record of a slot that is UNUSED but has the default priority, as nice leaves it. */
  const NICED := Proc(None, Unused, DEF_PRIO, Fresh)

  /** The same, allocated by fork on CPU 0. */
  const FORKED := Proc(Some(0), Runnable, DEF_PRIO, Fresh)

  /** Process 0 on CPU 0 calls nice for slot 1. */
  lemma NiceUnused(r: iset<State>)
    requires r == iset t | WildReached(t)
    ensures Closed(r) && At(Run(0), Some(0), None, Ready(Running), NICED, [0, 1]) in r
  {
    WildClosed(r);
    FirstRuns(r);
    var s := At(Run(0), Some(0), None, Ready(Running), BLANK, [0]);
    var t := At(Run(0), Some(0), None, Ready(Running), NICED, [0, 1]);
    assert Removed([], 1) == [] && [0] + [1] == [0, 1];
    assert Next(s, Nice(0, 1, DEF_PRIO)).queue == t.queue;
    WildMore(s, Nice(0, 1, DEF_PRIO), t);
  }

  /** It forks, and finds that slot. */
  lemma ForkFinds(r: iset<State>)
    requires Closed(r) && At(Run(0), Some(0), None, Ready(Running), NICED, [0, 1]) in r
    ensures At(ForkQueue(0, 1), Some(0), None, Ready(Running), FORKED, [0, 1]) in r
  {
    var x, on, q := Ready(Running), Some(0), [0, 1];
    Choosing(r, Run(0), Fork(1), ForkWant(0, 1), on, x, NICED, q);
    var v := View(ForkWant(0, 1), on, None, NICED, q);
    var w := View(ForkAt(0, 1), on, None, NICED.(lock := on), q);
    TurnSecond(r, v, x, false, w);
    v := View(ForkMade(0, 1), on, None, NICED.(lock := on), q);
    TurnSecond(r, w, x, false, v);
    TurnSecond(r, v, x, true, View(ForkQueue(0, 1), on, None, FORKED, q));
  }

  /** CPU 0 in fork, the scheduler on CPU 1. */
  function Forking(pc: Pc): State {
    State(if pc.Idle? then None else Some(1), [Ready(Running), FORKED], [Cpu(ForkQueue(0, 1), Some(0)), Cpu(pc, None)],
          Only([0, 1]))
  }

  lemma SecondLooks(r: iset<State>, pc: Pc, next: Pc)
    requires Closed(r) && Forking(pc) in r && Looked(pc, Ready(Running), FORKED, [0, 1]) == Some(next)
    ensures Forking(next) in r
  {
    var s, t := Forking(pc), Forking(next);
    assert Next(s, Step(1, false)) == t;
    assert Follows(r, s, Step(1, false), t);
  }

  lemma {:induction false} SecondScans(r: iset<State>, i: nat)
    requires Closed(r) && Forking(Idle) in r && i <= DEF_PRIO
    ensures Forking(Scan(i, 0)) in r
  {
    if i == 0 {
      SecondLooks(r, Idle, Scan(0, 0));
    } else {
      SecondScans(r, i - 1);
      SecondLooks(r, Scan(i - 1, 0), Scan(i, 0));
    }
  }

  lemma SecondPicks(r: iset<State>)
    requires r == iset t | WildReached(t)
    ensures Forking(PickWant(1)) in r
  {
    NiceUnused(r);
    ForkFinds(r);
    assert Forking(Idle) in r;
    SecondScans(r, DEF_PRIO);
    SecondLooks(r, Scan(DEF_PRIO, 0), Scan(DEF_PRIO, 1));
    SecondLooks(r, Scan(DEF_PRIO, 1), PickWant(1));
  }

  /** Some run, with nice called once and on a slot that is UNUSED, ends with the scheduler and fork waiting for each
      other. */
  lemma CircleReached()
    ensures exists s :: WildReached(s) && Safe(s) && Embrace(s, 0, 1, 1) && Circle(s, [1, 0])
  {
    var r := iset t | WildReached(t);
    SecondPicks(r);
    var s := Forking(PickWant(1));
    assert Embrace(s, 0, 1, 1) && Waits(s, 1, 0) && Chain(s, [1, 0]);
    var ss, acts :| EndsIn(ss, acts, s);
    RunSafe(ss, acts);
  }
}
