/** Sleep locks on top of sleep and wakeup (kernel/sleeplock.c, kernel/proc.c) as an interleaving of small steps of any
    number of processes. Spin locks are taken as atomic mutual exclusion. */
module SleepLock {
  import opened Prelude

  datatype PState = Running | Runnable | Sleeping

  /** Where a process stands in acquiresleep, sleep, releasesleep or wakeup. */
  datatype Pc =
    | Out                 // not concerned with the lock
    | Want                // acquiresleep: about to acquire lk->lk
    | Check               // has lk->lk, about to test lk->locked
    | SleepLockP          // sleep: about to acquire p->lock
    | SleepRelease        // has lk->lk and p->lock, about to release lk->lk
    | SleepMark           // has p->lock, about to set chan and SLEEPING
    | SleepSwitch         // SLEEPING, has p->lock, about to switch to the scheduler, which releases it
    | Asleep              // switched out
    | Waking              // switched in again, has p->lock, about to clear chan and release it
    | Hold                // between acquiresleep and releasesleep
    | RelWant             // releasesleep: about to acquire lk->lk
    | RelClear            // has lk->lk, about to clear lk->locked
    | Scan(i: nat)        // wakeup: has lk->lk, about to acquire the lock of process i
    | ScanAt(i: nat)      // wakeup: has lk->lk and the lock of process i

  /** spin is the holder of lk->lk, plock the holders of the p->lock's, owner is lk->locked with lk->pid. */
  datatype State = State(n: nat, spin: Option<nat>, plock: seq<Option<nat>>, owner: Option<nat>,
                         st: seq<PState>, chan: seq<bool>, pc: seq<Pc>)

  datatype Action = Step(p: nat) | Begin(p: nat) | Finish(p: nat) | Kill(q: nat)

  ghost predicate Shape(s: State) {
    |s.plock| == s.n && |s.st| == s.n && |s.chan| == s.n && |s.pc| == s.n
  }

  predicate Enabled(s: State, a: Action)
    requires Shape(s)
  {
    match a
    case Begin(p) => p < s.n && s.pc[p] == Out
    case Finish(p) => p < s.n && s.pc[p] == Hold
    case Kill(q) => q < s.n && s.plock[q].None?
    case Step(p) => p < s.n && CanStep(s, p)
  }

  /** Process p can take its next step now. */
  predicate CanStep(s: State, p: nat)
    requires Shape(s) && p < s.n
  {
    match s.pc[p]
    case Out => false
    case Hold => false
    case Want => s.spin.None?
    case RelWant => s.spin.None?
    case SleepLockP => s.plock[p].None?
    case Asleep => s.st[p] == Runnable && s.plock[p].None?
    case Scan(i) => i < s.n ==> s.plock[i].None?
    case _ => true
  }

  function Goto(s: State, p: nat, pc: Pc): State
    requires p < |s.pc|
  {
    s.(pc := s.pc[p := pc])
  }

  function Next(s: State, a: Action): State
    requires Shape(s) && Enabled(s, a)
  {
    match a
    case Begin(p) => Goto(s, p, Want)
    case Finish(p) => Goto(s, p, RelWant)
    case Kill(q) => if s.st[q] == Sleeping then s.(st := s.st[q := Runnable]) else s
    case Step(p) =>
      match s.pc[p]
      case Want => Goto(s.(spin := Some(p)), p, Check)
      case Check => if s.owner.Some? then Goto(s, p, SleepLockP) else Goto(s.(owner := Some(p), spin := None), p, Hold)
      case SleepLockP => Goto(s.(plock := s.plock[p := Some(p)]), p, SleepRelease)
      case SleepRelease => Goto(s.(spin := None), p, SleepMark)
      case SleepMark => Goto(s.(st := s.st[p := Sleeping], chan := s.chan[p := true]), p, SleepSwitch)
      case SleepSwitch => Goto(s.(plock := s.plock[p := None]), p, Asleep)
      case Asleep => Goto(s.(st := s.st[p := Running], plock := s.plock[p := Some(p)]), p, Waking)
      case Waking => Goto(s.(chan := s.chan[p := false], plock := s.plock[p := None]), p, Want)
      case RelWant => Goto(s.(spin := Some(p)), p, RelClear)
      case RelClear => Goto(s.(owner := None), p, Scan(0))
      case Scan(i) =>
        if i < s.n then Goto(s.(plock := s.plock[i := Some(p)]), p, ScanAt(i)) else Goto(s.(spin := None), p, Out)
      case ScanAt(i) =>
        if i >= s.n then s
        else
          var t := s.(plock := s.plock[i := None]);
          Goto(if s.st[i] == Sleeping && s.chan[i] then t.(st := t.st[i := Runnable]) else t, p, Scan(i + 1))
      case _ => s
  }

  // ---------------------------------------------------------------- the invariant

  predicate HasSpin(pc: Pc) {
    pc.Check? || pc.SleepLockP? || pc.SleepRelease? || pc.RelClear? || pc.Scan? || pc.ScanAt?
  }

  predicate Owns(pc: Pc) { pc.Hold? || pc.RelWant? || pc.RelClear? }

  /** Process p, at pc, has the lock of process q. */
  predicate HasLock(pc: Pc, p: nat, q: nat) {
    (pc.ScanAt? && pc.i == q) || (p == q && (pc.SleepRelease? || pc.SleepMark? || pc.SleepSwitch? || pc.Waking?))
  }

  /** p has decided to sleep and no wakeup has reached it. */
  predicate Committed(s: State, p: nat)
    requires Shape(s) && p < s.n
  {
    s.pc[p].SleepMark? || s.st[p] == Sleeping
  }

  /** A wakeup is under way that has not passed p yet. */
  predicate WakeupDue(s: State, p: nat)
    requires Shape(s)
  {
    s.spin.Some? && s.spin.value < s.n &&
    match s.pc[s.spin.value] case Scan(i) => i <= p case ScanAt(i) => i <= p case _ => false
  }

  /** What holds of process p. */
  ghost predicate Ok(s: State, p: nat)
    requires Shape(s)
  {
    p < s.n ==>
      && (s.spin == Some(p) <==> HasSpin(s.pc[p]))
      && (s.owner == Some(p) <==> Owns(s.pc[p]))
      && (s.pc[p].SleepLockP? || s.pc[p].SleepRelease? ==> s.owner.Some?)
      && (s.pc[p].SleepSwitch? ==> s.chan[p] && s.st[p] == Sleeping)
      && (s.pc[p].Asleep? ==> s.chan[p] && s.st[p] != Running)
      && (s.st[p] == Sleeping ==> s.pc[p].SleepSwitch? || s.pc[p].Asleep?)
      && (Committed(s, p) ==> s.owner.Some? || WakeupDue(s, p))
      && (s.pc[p].ScanAt? ==> s.pc[p].i < s.n)
      && (s.pc[p].Scan? || s.pc[p].ScanAt? ==> s.owner.None?)
  }

  /** What holds of process p and the lock of process q. */
  ghost predicate OkLock(s: State, p: nat, q: nat)
    requires Shape(s)
  {
    p < s.n && q < s.n ==> (s.plock[q] == Some(p) <==> HasLock(s.pc[p], p, q))
  }

  /** Whoever has a lock is a process. */
  ghost predicate Holders(s: State)
    requires Shape(s)
  {
    && (s.spin.Some? ==> s.spin.value < s.n) && (s.owner.Some? ==> s.owner.value < s.n)
    && (forall q :: OkHolder(s, q))
  }

  ghost predicate OkHolder(s: State, q: nat)
    requires Shape(s)
  {
    q < s.n && s.plock[q].Some? ==> s.plock[q].value < s.n
  }

  ghost predicate Inv(s: State) {
    Shape(s) && Holders(s) && (forall p :: Ok(s, p)) && (forall p, q :: OkLock(s, p, q))
  }

  ghost predicate Init(s: State) {
    && Shape(s) && s.spin.None? && s.owner.None?
    && forall p :: 0 <= p < s.n ==> s.plock[p].None? && s.st[p] != Sleeping && s.pc[p] == Out
  }

  lemma InitInv(s: State)
    requires Init(s)
    ensures Inv(s)
  {
  }

  // ---------------------------------------------------------------- every step keeps it

  lemma OthersOk(s: State, a: Action, p: nat)
    requires Inv(s) && Enabled(s, a) && !a.Step?
    ensures Shape(Next(s, a)) && Ok(Next(s, a), p)
  {
    assert Ok(s, p) && OkLock(s, p, p);
    if s.spin.Some? {
      assert Ok(s, s.spin.value);
    }
  }

  predicate Releasing(pc: Pc) { pc.RelWant? || pc.RelClear? || pc.Scan? || pc.ScanAt? }

  predicate GoingToSleep(pc: Pc) { pc.SleepLockP? || pc.SleepRelease? || pc.SleepMark? || pc.SleepSwitch? }

  /** A step of process x in releasesleep, seen from process p. */
  lemma ReleaseOk(s: State, x: nat, p: nat)
    requires Inv(s) && Enabled(s, Step(x)) && Releasing(s.pc[x])
    ensures Shape(Next(s, Step(x))) && Ok(Next(s, Step(x)), p)
  {
    assert Ok(s, p) && Ok(s, x) && OkLock(s, p, p) && OkLock(s, x, p);
    if s.spin.Some? {
      assert Ok(s, s.spin.value);
    }
    if s.owner.Some? {
      assert Ok(s, s.owner.value);
    }
  }

  /** A step of process x on its way into sleep, seen from process p. */
  lemma SleepOk(s: State, x: nat, p: nat)
    requires Inv(s) && Enabled(s, Step(x)) && GoingToSleep(s.pc[x])
    ensures Shape(Next(s, Step(x))) && Ok(Next(s, Step(x)), p)
  {
    assert Ok(s, p) && Ok(s, x) && OkLock(s, p, p) && OkLock(s, x, p);
    if s.spin.Some? {
      assert Ok(s, s.spin.value);
    }
    if s.owner.Some? {
      assert Ok(s, s.owner.value);
    }
  }

  /** Any other step of process x, seen from process p. */
  lemma AcquireOk(s: State, x: nat, p: nat)
    requires Inv(s) && Enabled(s, Step(x)) && !Releasing(s.pc[x]) && !GoingToSleep(s.pc[x])
    ensures Shape(Next(s, Step(x))) && Ok(Next(s, Step(x)), p)
  {
    assert Ok(s, p) && Ok(s, x) && OkLock(s, p, p) && OkLock(s, x, p);
    if s.spin.Some? {
      assert Ok(s, s.spin.value);
    }
    if s.owner.Some? {
      assert Ok(s, s.owner.value);
    }
  }

  lemma StepOkLock(s: State, x: nat, p: nat, q: nat)
    requires Inv(s) && Enabled(s, Step(x))
    ensures Shape(Next(s, Step(x))) && OkLock(Next(s, Step(x)), p, q)
  {
    assert Ok(s, x) && OkLock(s, p, q) && OkLock(s, x, q) && OkLock(s, x, x);
    if s.pc[x].ScanAt? {
      assert OkLock(s, x, s.pc[x].i) && OkLock(s, p, s.pc[x].i);
    }
    StepLocks(s, x, p, q);
  }

  lemma StepLocks(s: State, x: nat, p: nat, q: nat)
    requires Shape(s) && Enabled(s, Step(x)) && Ok(s, x) && OkLock(s, p, q) && OkLock(s, x, q) && OkLock(s, x, x)
    requires s.pc[x].ScanAt? ==> OkLock(s, x, s.pc[x].i) && OkLock(s, p, s.pc[x].i)
    ensures Shape(Next(s, Step(x))) && OkLock(Next(s, Step(x)), p, q)
  {
  }

  lemma StepOk(s: State, x: nat, p: nat)
    requires Inv(s) && Enabled(s, Step(x))
    ensures Shape(Next(s, Step(x))) && Ok(Next(s, Step(x)), p)
  {
    if Releasing(s.pc[x]) {
      ReleaseOk(s, x, p);
    } else if GoingToSleep(s.pc[x]) {
      SleepOk(s, x, p);
    } else {
      AcquireOk(s, x, p);
    }
  }

  lemma StepHolders(s: State, a: Action)
    requires Shape(s) && Holders(s) && Enabled(s, a)
    ensures Shape(Next(s, a)) && Holders(Next(s, a))
  {
    StepSpin(s, a);
    forall q: nat ensures OkHolder(Next(s, a), q) {
      assert OkHolder(s, q);
      StepHolder(s, a, q);
    }
  }

  lemma StepHolder(s: State, a: Action, q: nat)
    requires Shape(s) && OkHolder(s, q) && Enabled(s, a)
    ensures Shape(Next(s, a)) && OkHolder(Next(s, a), q)
  {
  }

  lemma StepSpin(s: State, a: Action)
    requires Shape(s) && (s.spin.Some? ==> s.spin.value < s.n) && (s.owner.Some? ==> s.owner.value < s.n)
    requires Enabled(s, a)
    ensures var t := Next(s, a); (t.spin.Some? ==> t.spin.value < t.n) && (t.owner.Some? ==> t.owner.value < t.n)
  {
  }

  lemma StepInv(s: State, a: Action)
    requires Inv(s) && Enabled(s, a)
    ensures Inv(Next(s, a))
  {
    var t := Next(s, a);
    StepHolders(s, a);
    forall p: nat ensures Ok(t, p) {
      if a.Step? {
        StepOk(s, a.p, p);
      } else {
        OthersOk(s, a, p);
      }
    }
    forall p: nat, q: nat ensures OkLock(t, p, q) {
      if a.Step? {
        StepOkLock(s, a.p, p, q);
      } else {
        assert OkLock(s, p, q);
      }
    }
  }

  ghost predicate Run(ss: seq<State>, acts: seq<Action>) {
    && |ss| == |acts| + 1 && Init(ss[0])
    && forall i :: 0 <= i < |acts| ==> Shape(ss[i]) && Enabled(ss[i], acts[i]) && ss[i + 1] == Next(ss[i], acts[i])
  }

  lemma {:induction false} RunInv(ss: seq<State>, acts: seq<Action>)
    requires Run(ss, acts)
    ensures Inv(ss[|acts|])
    decreases |acts|
  {
    if acts == [] {
      InitInv(ss[0]);
    } else {
      var n := |acts| - 1;
      RunInv(ss[..|ss| - 1], acts[..n]);
      StepInv(ss[n], acts[n]);
    }
  }

  /** In every interleaving, at most one process is between acquiresleep and the end of its releasesleep. */
  lemma MutualExclusion(ss: seq<State>, acts: seq<Action>, p: nat, q: nat)
    requires Run(ss, acts)
    ensures var s := ss[|acts|]; Shape(s) && (p < s.n && q < s.n && Owns(s.pc[p]) && Owns(s.pc[q]) ==> p == q)
  {
    RunInv(ss, acts);
    var s := ss[|acts|];
    assert Ok(s, p) && Ok(s, q);
  }

  /** In every interleaving, when the lock is free and no wakeup is under way, nobody sleeps on it. */
  lemma NoLostWakeup(ss: seq<State>, acts: seq<Action>, p: nat)
    requires Run(ss, acts)
    ensures var s := ss[|acts|];
            && Shape(s)
            && (s.owner.None? && (forall q :: 0 <= q < s.n ==> !s.pc[q].Scan? && !s.pc[q].ScanAt?) && p < s.n ==>
                  s.st[p] != Sleeping)
  {
    RunInv(ss, acts);
    assert Ok(ss[|acts|], p);
  }

  /** In every interleaving, as long as some process is inside acquiresleep or releasesleep, either one of those can
      take a step, or all of them sleep and the holder may still call releasesleep: no deadlock. */
  lemma NoDeadlock(ss: seq<State>, acts: seq<Action>)
    requires Run(ss, acts)
    ensures var s := ss[|acts|]; Shape(s) && ((forall p :: 0 <= p < s.n ==> s.pc[p] == Out) || SomeoneCanGoOn(s))
  {
    RunInv(ss, acts);
    var s := ss[|acts|];
    if p: nat :| p < s.n && s.pc[p] != Out {
      if s.spin.Some? {
        SpinHolderGoesOn(s, s.spin.value);
      } else {
        WithoutSpinGoesOn(s, p);
      }
    }
  }

  ghost predicate SomeoneCanGoOn(s: State)
    requires Shape(s)
  {
    exists p :: 0 <= p < s.n && (s.pc[p] == Hold || CanStep(s, p))
  }

  lemma SpinHolderGoesOn(s: State, x: nat)
    requires Inv(s) && s.spin == Some(x)
    ensures SomeoneCanGoOn(s)
  {
    assert Ok(s, x);
    var i := if s.pc[x].Scan? then s.pc[x].i else x;
    if i < s.n && s.plock[i].Some? {
      var y := s.plock[i].value;
      assert OkHolder(s, i) && OkLock(s, y, i) && Ok(s, y);
      assert CanStep(s, y);
    } else {
      assert CanStep(s, x);
    }
  }

  lemma WithoutSpinGoesOn(s: State, p: nat)
    requires Inv(s) && s.spin.None? && p < s.n && s.pc[p] != Out
    ensures SomeoneCanGoOn(s)
  {
    assert Ok(s, p);
    if s.plock[p].Some? {
      assert OkHolder(s, p) && OkLock(s, s.plock[p].value, p) && Ok(s, s.plock[p].value);
      assert CanStep(s, s.plock[p].value);
    } else if s.st[p] == Sleeping {
      assert Ok(s, s.owner.value);
      assert s.pc[s.owner.value] == Hold || CanStep(s, s.owner.value);
    } else {
      assert s.pc[p] == Hold || CanStep(s, p);
    }
  }

  // ---------------------------------------------------------------- whoever waits can get the lock

  /** In every interleaving, a process about to acquire a lock that is free gets it in two steps of its own. */
  lemma TakesFreeLock(ss: seq<State>, acts: seq<Action>, p: nat)
    requires Run(ss, acts) && p < ss[0].n
    ensures var s := ss[|acts|];
            Shape(s) && p < s.n &&
            (s.owner.None? && s.spin.None? && s.pc[p] == Want ==>
               && Enabled(s, Step(p)) && Enabled(Next(s, Step(p)), Step(p))
               && var t := Next(Next(s, Step(p)), Step(p)); t.pc[p] == Hold && t.owner == Some(p) && t.spin.None?)
  {
    RunInv(ss, acts);
    SameProcesses(ss, acts);
  }

  lemma {:induction false} SameProcesses(ss: seq<State>, acts: seq<Action>)
    requires Run(ss, acts)
    ensures ss[|acts|].n == ss[0].n
    decreases |acts|
  {
    if acts != [] {
      SameProcesses(ss[..|ss| - 1], acts[..|acts| - 1]);
    }
  }

  /** p is inside acquiresleep. */
  predicate Acquiring(pc: Pc) {
    pc.Want? || pc.Check? || pc.SleepLockP? || pc.SleepRelease? || pc.SleepMark? || pc.SleepSwitch? || pc.Asleep?
    || pc.Waking?
  }

  /** In every interleaving, kill wakes a process asleep on the lock, which then looks again, and changes no other. */
  lemma KillWakes(ss: seq<State>, acts: seq<Action>, q: nat, p: nat)
    requires Run(ss, acts) && Shape(ss[|acts|]) && Enabled(ss[|acts|], Kill(q)) && p < ss[|acts|].n
    ensures var s := ss[|acts|]; var t := Next(s, Kill(q));
            && t.pc == s.pc && t.owner == s.owner && t.st[q] != Sleeping
            && (p != q || s.st[p] != Sleeping ==> t.st[p] == s.st[p])
            && (s.st[q] == Sleeping ==> s.pc[q] == Asleep && CanStep(t, q))
  {
    RunInv(ss, acts);
    assert Ok(ss[|acts|], q) && OkLock(ss[|acts|], q, q);
  }

  /** How many steps a process with n others may take before it no longer stands in the way. */
  function Rest(pc: Pc, n: nat): nat {
    match pc
    case Waking => 1
    case SleepSwitch => 1
    case SleepMark => 2
    case SleepRelease => 3
    case SleepLockP => 4
    case Scan(i) => if i < n then 2 * (n - i) + 1 else 1
    case ScanAt(i) => if i < n then 2 * (n - i) else 0
    case RelClear => 2 * n + 2
    case RelWant => 2 * n + 3
    case Hold => 2 * n + 4
    case Check => 2 * n + 5
    case _ => 0
  }

  /** How many steps a process may take before it has the lock, if nobody stands in the way. */
  function Left(pc: Pc, owned: bool): nat {
    match pc
    case Check => if owned then 10 else 2
    case SleepLockP => 9
    case SleepRelease => 8
    case SleepMark => 7
    case SleepSwitch => 6
    case Asleep => 5
    case Waking => 4
    case Want => 3
    case _ => 0
  }

  function Sum(pcs: seq<Pc>, n: nat, p: nat, k: nat): nat
    requires k <= |pcs|
  {
    if k == 0 then 0 else Sum(pcs, n, p, k - 1) + if k - 1 == p then 0 else Rest(pcs[k - 1], n)
  }

  /** The steps that p and those in its way may take. */
  function Work(s: State, p: nat): nat
    requires Shape(s) && p < s.n
  {
    Left(s.pc[p], s.owner.Some?) + Sum(s.pc, s.n, p, s.n)
  }

  lemma {:induction false} SumChanged(pcs: seq<Pc>, n: nat, p: nat, x: nat, pc: Pc, k: nat)
    requires k <= |pcs| && x < |pcs|
    ensures var d := if x < k && x != p then Rest(pc, n) - Rest(pcs[x], n) else 0;
            Sum(pcs[x := pc], n, p, k) == Sum(pcs, n, p, k) + d
  {
    if k > 0 {
      SumChanged(pcs, n, p, x, pc, k - 1);
    }
  }

  /** The action brings p nearer to the lock. */
  ghost predicate Helps(s: State, a: Action, p: nat) {
    && Shape(s) && p < s.n && (a.Step? || a.Finish?) && Enabled(s, a)
    && var t := Next(s, a); Shape(t) && t.n == s.n && Work(t, p) < Work(s, p) && (Acquiring(t.pc[p]) || t.pc[p] == Hold)
  }

  /** A step of another process leaves it with less to do. */
  lemma StepRest(s: State, x: nat)
    requires Inv(s) && Enabled(s, Step(x)) && !s.pc[x].Want? && !s.pc[x].Asleep?
    ensures var t := Next(s, Step(x));
            Shape(t) && t.n == s.n && t.pc == s.pc[x := t.pc[x]] && Rest(t.pc[x], s.n) < Rest(s.pc[x], s.n)
    ensures Next(s, Step(x)).owner != s.owner ==> HasSpin(s.pc[x])
  {
    assert Ok(s, x);
  }

  /** A step of p itself brings it nearer, once the lock is free if it is about to look. */
  lemma StepLeft(s: State, p: nat)
    requires Inv(s) && Enabled(s, Step(p)) && Acquiring(s.pc[p]) && (s.pc[p] == Want ==> s.owner.None?)
    ensures var t := Next(s, Step(p));
            && Shape(t) && t.n == s.n && t.pc == s.pc[p := t.pc[p]]
            && Left(t.pc[p], t.owner.Some?) < Left(s.pc[p], s.owner.Some?)
            && (Acquiring(t.pc[p]) || t.pc[p] == Hold)
  {
    assert Ok(s, p);
  }

  /** Such a step helps p. */
  lemma StepHelps(s: State, x: nat, p: nat)
    requires Inv(s) && p < s.n && Acquiring(s.pc[p]) && Enabled(s, Step(x))
    requires if x == p then s.pc[p] == Want ==> s.owner.None? else !s.pc[x].Want? && !s.pc[x].Asleep?
    ensures Helps(s, Step(x), p)
  {
    var pc := Next(s, Step(x)).pc[x];
    SumChanged(s.pc, s.n, p, x, pc, s.n);
    if x == p {
      StepLeft(s, p);
    } else {
      StepRest(s, x);
      assert Ok(s, x) && Ok(s, p);
    }
  }

  lemma FinishHelps(s: State, x: nat, p: nat)
    requires Inv(s) && p < s.n && Acquiring(s.pc[p]) && Enabled(s, Finish(x))
    ensures Helps(s, Finish(x), p)
  {
    SumChanged(s.pc, s.n, p, x, RelWant, s.n);
  }

  predicate Passing(pc: Pc) { pc.SleepMark? || pc.SleepSwitch? || pc.Waking? }

  /** The holder of lk->lk can go on once nobody is on the way into or out of sleep with only its own lock. */
  lemma SpinHelps(s: State, x: nat, p: nat)
    requires Inv(s) && p < s.n && Acquiring(s.pc[p]) && s.spin == Some(x)
    requires forall y :: 0 <= y < s.n ==> !Passing(s.pc[y])
    ensures Helps(s, Step(x), p)
  {
    assert Ok(s, x) && Ok(s, p);
    var i := if s.pc[x].Scan? then s.pc[x].i else x;
    if i < s.n && s.plock[i].Some? {
      var y := s.plock[i].value;
      assert OkHolder(s, i) && OkLock(s, y, i) && Ok(s, y);
    }
    StepHelps(s, x, p);
  }

  /** With lk->lk free, the owner can go on, or p itself. */
  lemma FreeHelps(s: State, p: nat) returns (a: Action)
    requires Inv(s) && p < s.n && Acquiring(s.pc[p]) && s.spin.None?
    requires forall y :: 0 <= y < s.n ==> !Passing(s.pc[y])
    ensures Helps(s, a, p)
  {
    assert Ok(s, p);
    if s.owner.Some? {
      var o := s.owner.value;
      assert Ok(s, o);
      if s.pc[o] == Hold {
        a := Finish(o);
        FinishHelps(s, o, p);
      } else {
        a := Step(o);
        StepHelps(s, o, p);
      }
    } else {
      if s.plock[p].Some? {
        assert OkHolder(s, p) && OkLock(s, s.plock[p].value, p) && Ok(s, s.plock[p].value);
      }
      a := Step(p);
      StepHelps(s, p, p);
    }
  }

  lemma SomethingHelps(s: State, p: nat) returns (a: Action)
    requires Inv(s) && p < s.n && Acquiring(s.pc[p])
    ensures Helps(s, a, p)
  {
    if y: nat :| y < s.n && Passing(s.pc[y]) {
      a := Step(y);
      StepHelps(s, y, p);
    } else if s.spin.Some? {
      a := Step(s.spin.value);
      SpinHelps(s, s.spin.value, p);
    } else {
      a := FreeHelps(s, p);
    }
  }

  /** Steps of processes that are in the code of the lock, and calls of releasesleep, lead from s through ss. */
  ghost predicate Leads(ss: seq<State>, acts: seq<Action>) {
    && |ss| == |acts| + 1
    && forall i :: 0 <= i < |acts| ==>
                     && Shape(ss[i]) && Enabled(ss[i], acts[i]) && ss[i + 1] == Next(ss[i], acts[i])
                     && (acts[i].Step? || acts[i].Finish?)
  }

  ghost predicate GetsIn(ss: seq<State>, acts: seq<Action>, s: State, p: nat) {
    && Leads(ss, acts) && ss[0] == s && Shape(ss[|acts|]) && p < ss[|acts|].n && ss[|acts|].pc[p] == Hold
    && ss[|acts|].owner == Some(p)
  }

  lemma {:induction false} Gets(s: State, p: nat) returns (ss: seq<State>, acts: seq<Action>)
    requires Inv(s) && p < s.n && (Acquiring(s.pc[p]) || s.pc[p] == Hold)
    ensures GetsIn(ss, acts, s, p) && |acts| <= Work(s, p)
    decreases Work(s, p)
  {
    if s.pc[p] == Hold {
      assert Ok(s, p);
      ss, acts := [s], [];
    } else {
      var a := SomethingHelps(s, p);
      StepInv(s, a);
      var rest, more := Gets(Next(s, a), p);
      ss, acts := [s] + rest, [a] + more;
      forall i | 0 <= i < |acts|
        ensures Shape(ss[i]) && Enabled(ss[i], acts[i]) && ss[i + 1] == Next(ss[i], acts[i])
        ensures acts[i].Step? || acts[i].Finish?
      {
        if i > 0 {
          assert ss[i] == rest[i - 1] && acts[i] == more[i - 1];
        }
      }
    }
  }

  /** In every interleaving, whoever is inside acquiresleep can still get the lock: some run of steps and releases
      brings it there, within the bound Work. */
  lemma WaiterGetsLock(ss: seq<State>, acts: seq<Action>, p: nat)
    requires Run(ss, acts) && Shape(ss[|acts|]) && p < ss[|acts|].n && Acquiring(ss[|acts|].pc[p])
    ensures exists more, how :: GetsIn(more, how, ss[|acts|], p) && |how| <= Work(ss[|acts|], p)
  {
    RunInv(ss, acts);
    var more, how := Gets(ss[|acts|], p);
  }
}
