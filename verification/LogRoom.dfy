/** The reservations of the log (kernel/log.c): begin_op, the room test that log_write makes before it takes the lock,
    the part of log_write under the lock, and end_op, interleaved in any order by any number of operations. */
module LogRoom {
  import opened LogSpec

  // ---------------------------------------------------------------- the rules of the code

  /** begin_op lets another operation start. */
  predicate Admits(n: nat, outstanding: nat) { n + (outstanding + 1) * MAXOPBLOCKS <= LOGSIZE }

  /** The test of log_write, made without the lock: false is a panic. */
  predicate HasRoom(n: nat, size: nat) { !(n >= LOGSIZE || n >= size - 1) }

  /** The logged blocks after the locked part of log_write. */
  function Added(logged: seq<nat>, b: nat): seq<nat> { if b in logged then logged else logged + [b] }

  /** The reservations not yet used, over the operations in progress; each is the set of blocks it has logged. */
  function Unused(ops: seq<set<nat>>): int {
    if ops == [] then 0 else Unused(ops[..|ops| - 1]) + MAXOPBLOCKS - |ops[|ops| - 1]|
  }

  function Without<T>(xs: seq<T>, j: nat): seq<T>
    requires j < |xs|
  {
    xs[..j] + xs[j + 1..]
  }

  lemma {:induction false} UnusedUpdate(ops: seq<set<nat>>, j: nat, s: set<nat>)
    requires j < |ops|
    ensures Unused(ops[j := s]) == Unused(ops) + |ops[j]| - |s|
    decreases |ops|
  {
    var m := |ops| - 1;
    if j == m {
      assert ops[j := s][..m] == ops[..m];
    } else {
      assert ops[j := s][..m] == ops[..m][j := s];
      UnusedUpdate(ops[..m], j, s);
    }
  }

  lemma {:induction false} UnusedRemove(ops: seq<set<nat>>, j: nat)
    requires j < |ops|
    ensures Unused(Without(ops, j)) == Unused(ops) - (MAXOPBLOCKS - |ops[j]|)
    decreases |ops|
  {
    var m := |ops| - 1;
    if j == m {
      assert Without(ops, j) == ops[..m];
    } else {
      assert Without(ops, j)[..m - 1] == Without(ops[..m], j);
      UnusedRemove(ops[..m], j);
    }
  }

  lemma {:induction false} UnusedBound(ops: seq<set<nat>>)
    requires forall j :: 0 <= j < |ops| ==> |ops[j]| <= MAXOPBLOCKS
    ensures 0 <= Unused(ops) <= MAXOPBLOCKS * |ops|
    ensures forall j :: 0 <= j < |ops| ==> MAXOPBLOCKS - |ops[j]| <= Unused(ops)
    decreases |ops|
  {
    if ops != [] {
      UnusedBound(ops[..|ops| - 1]);
    }
  }

  /** Every operation is within its reservation, and the log has room for what is left of all of them. */
  ghost predicate Reserved(logged: seq<nat>, ops: seq<set<nat>>) {
    && (forall j :: 0 <= j < |ops| ==> |ops[j]| <= MAXOPBLOCKS)
    && |logged| + Unused(ops) <= LOGSIZE
    && (forall j, x :: 0 <= j < |ops| && x in ops[j] ==> x in logged)
  }

  ghost predicate Distinct(logged: seq<nat>) { forall s, t :: 0 <= s < t < |logged| ==> logged[s] != logged[t] }

  lemma BeginReserved(logged: seq<nat>, ops: seq<set<nat>>)
    requires Reserved(logged, ops) && Admits(|logged|, |ops|)
    ensures Reserved(logged, ops + [{}])
  {
    UnusedBound(ops);
    assert (ops + [{}])[..|ops|] == ops;
  }

  /** The locked part needs no test of its own: the operation's reservation is room enough in lh.block. */
  lemma AddReserved(logged: seq<nat>, ops: seq<set<nat>>, j: nat, b: nat)
    requires Reserved(logged, ops) && Distinct(logged) && j < |ops| && |ops[j] + {b}| <= MAXOPBLOCKS
    ensures Reserved(Added(logged, b), ops[j := ops[j] + {b}]) && Distinct(Added(logged, b))
    ensures b !in logged ==> |logged| < LOGSIZE
  {
    UnusedBound(ops);
    UnusedUpdate(ops, j, ops[j] + {b});
    if b !in logged {
      assert b !in ops[j] && |ops[j] + {b}| == |ops[j]| + 1;
    }
  }

  lemma EndReserved(logged: seq<nat>, ops: seq<set<nat>>, j: nat)
    requires Reserved(logged, ops) && j < |ops|
    ensures Reserved(logged, Without(ops, j))
  {
    UnusedBound(ops);
    UnusedRemove(ops, j);
  }

  // ---------------------------------------------------------------- every interleaving

  /** checked: the operation has passed the test and is about to take the lock. */
  datatype State = State(logged: seq<nat>, ops: seq<set<nat>>, checked: seq<bool>)

  /** End of the last operation: with its commit, which nothing else of the log can interrupt. */
  datatype Action = Begin | Check(j: nat) | Write(j: nat, b: nat) | End(j: nat)

  const EMPTY := State([], [], [])

  predicate Enabled(size: nat, s: State, a: Action) {
    |s.checked| == |s.ops| &&
    match a
    case Begin => Admits(|s.logged|, |s.ops|)
    case Check(j) => j < |s.ops| && HasRoom(|s.logged|, size)
    case Write(j, b) => j < |s.ops| && s.checked[j] && |s.ops[j] + {b}| <= MAXOPBLOCKS
    case End(j) => j < |s.ops| && !s.checked[j]
  }

  function Next(size: nat, s: State, a: Action): State
    requires Enabled(size, s, a)
  {
    match a
    case Begin => s.(ops := s.ops + [{}], checked := s.checked + [false])
    case Check(j) => s.(checked := s.checked[j := true])
    case Write(j, b) => State(Added(s.logged, b), s.ops[j := s.ops[j] + {b}], s.checked[j := false])
    case End(j) => State(if |s.ops| == 1 then [] else s.logged, Without(s.ops, j), Without(s.checked, j))
  }

  ghost predicate StepsTo(size: nat, s: State, a: Action, t: State) { Enabled(size, s, a) && t == Next(size, s, a) }

  /** Some run from the empty log ends in s, with n steps. */
  ghost predicate ReachedIn(size: nat, s: State, n: nat)
    decreases n
  {
    if n == 0 then s == EMPTY else exists p, a :: ReachedIn(size, p, n - 1) && StepsTo(size, p, a, s)
  }

  ghost predicate Reached(size: nat, s: State) { exists n: nat :: ReachedIn(size, s, n) }

  lemma ReachedMore(size: nat, s: State, a: Action)
    requires Reached(size, s) && Enabled(size, s, a)
    ensures Reached(size, Next(size, s, a))
  {
    var n: nat :| ReachedIn(size, s, n);
    assert StepsTo(size, s, a, Next(size, s, a));
    assert ReachedIn(size, Next(size, s, a), n + 1);
  }

  ghost predicate Inv(s: State) { |s.checked| == |s.ops| && Reserved(s.logged, s.ops) && Distinct(s.logged) }

  lemma StepInv(size: nat, s: State, a: Action)
    requires Inv(s) && Enabled(size, s, a)
    ensures Inv(Next(size, s, a))
  {
    match a
    case Begin => BeginReserved(s.logged, s.ops);
    case Check(j) =>
    case Write(j, b) => AddReserved(s.logged, s.ops, j, b);
    case End(j) => EndReserved(s.logged, s.ops, j);
  }

  lemma {:induction false} ReachedInv(size: nat, s: State, n: nat)
    requires ReachedIn(size, s, n)
    ensures Inv(s)
    decreases n
  {
    if n > 0 {
      var p, a :| ReachedIn(size, p, n - 1) && StepsTo(size, p, a, s);
      ReachedInv(size, p, n - 1);
      StepInv(size, p, a);
    }
  }

  /** In every interleaving the logged blocks are distinct and fit lh.block, and the locked part of log_write never
      stores behind its end, although the test was made before the lock was taken. */
  lemma NeverPastHeader(size: nat, s: State, j: nat, b: nat)
    requires Reached(size, s)
    ensures Distinct(s.logged) && |s.logged| <= LOGSIZE
    ensures Enabled(size, s, Write(j, b)) && b !in s.logged ==> |s.logged| < LOGSIZE
  {
    var n: nat :| ReachedIn(size, s, n);
    ReachedInv(size, s, n);
    UnusedBound(s.ops);
    if Enabled(size, s, Write(j, b)) {
      AddReserved(s.logged, s.ops, j, b);
    }
  }

  /** Every logged block has a slot inside the log. */
  predicate Fits(size: nat, s: State) { |s.logged| < size }

  /** An operation that still has room in its reservation. */
  predicate Entitled(s: State, j: nat) { j < |s.ops| && |s.ops[j]| < MAXOPBLOCKS }

  // ---------------------------------------------------------------- three operations fill the log in turn

  function Upto(n: nat): seq<nat> { seq(n, i => i) }

  /** The first e of three operations have logged r + 1 blocks, the others r; the blocks are numbered from 0 on. */
  ghost predicate Even(logged: seq<nat>, ops: seq<set<nat>>, r: nat, e: nat) {
    && e <= 3 && logged == Upto(3 * r + e) && |ops| == 3
    && (forall j :: 0 <= j < 3 ==> |ops[j]| == if j < e then r + 1 else r)
    && (forall j, x :: 0 <= j < 3 && x in ops[j] ==> x < 3 * r + e)
  }

  ghost predicate Filled(size: nat, s: State, r: nat, e: nat) {
    Reached(size, s) && Even(s.logged, s.ops, r, e) && |s.checked| == 3
  }

  lemma Started(size: nat) returns (s: State)
    ensures Filled(size, s, 0, 0) && s.checked == [false, false, false]
  {
    s := EMPTY;
    assert ReachedIn(size, s, 0);
    ReachedMore(size, s, Begin);
    s := Next(size, s, Begin);
    ReachedMore(size, s, Begin);
    s := Next(size, s, Begin);
    ReachedMore(size, s, Begin);
    s := Next(size, s, Begin);
  }

  /** Operation j passes the test ... */
  lemma Checks(size: nat, s: State, r: nat, e: nat, j: nat) returns (t: State)
    requires Filled(size, s, r, e) && j < 3 && HasRoom(3 * r + e, size)
    ensures Filled(size, t, r, e) && t.checked == s.checked[j := true]
  {
    ReachedMore(size, s, Check(j));
    t := Next(size, s, Check(j));
  }

  /** ... and operation e logs the next block. */
  lemma Writes(size: nat, s: State, r: nat, e: nat) returns (t: State)
    requires Filled(size, s, r, e) && e < 3 && s.checked[e] && r < MAXOPBLOCKS
    ensures Filled(size, t, r, e + 1) && t.checked == s.checked[e := false]
  {
    var b := 3 * r + e;
    assert b !in s.ops[e] && |s.ops[e] + {b}| == r + 1;
    ReachedMore(size, s, Write(e, b));
    t := Next(size, s, Write(e, b));
    assert Upto(b) + [b] == Upto(b + 1) && b !in s.logged;
  }

  /** One after the other, they log as many blocks as the test lets through. */
  lemma {:induction false} Fills(size: nat, r: nat, e: nat) returns (s: State)
    requires e <= 3 && 3 * r + e <= LOGSIZE && (3 * r + e == 0 || 3 * r + e < size)
    ensures Filled(size, s, r, e) && s.checked == [false, false, false]
    decreases r, e
  {
    if e > 0 {
      s := Fills(size, r, e - 1);
      s := Checks(size, s, r, e - 1, e - 1);
      s := Writes(size, s, r, e - 1);
    } else if r > 0 {
      s := Fills(size, r - 1, 3);
    } else {
      s := Started(size);
    }
  }

  /** n blocks in turn: so many rounds, and so many operations ahead of the others. */
  lemma Rounds(n: nat) returns (r: nat, e: nat)
    ensures n == 3 * r + e && e < 3
  {
    r, e := n / 3, n % 3;
  }

  /** Two operations that both pass the test before either takes the lock: the log ends up with one block more than it
      has slots. */
  lemma Race(size: nat) returns (s: State)
    requires 2 <= size <= LOGSIZE
    ensures Reached(size, s) && |s.logged| == size
  {
    var r, e := Rounds(size - 2);
    s := Fills(size, r, e);
    s := Checks(size, s, r, e, e);
    if e < 2 {
      s := Checks(size, s, r, e, e + 1);
      s := Writes(size, s, r, e);
      s := Writes(size, s, r, e + 1);
    } else {
      s := Checks(size, s, r, e, 0);
      s := Writes(size, s, r, e);
      assert Filled(size, s, r + 1, 0);
      s := Writes(size, s, r + 1, 0);
    }
  }

  /** Nothing has been logged, and no operation has passed the test. */
  ghost predicate Untouched(s: State) { s.logged == [] && forall j :: 0 <= j < |s.checked| ==> !s.checked[j] }

  lemma UntouchedStep(size: nat, s: State, a: Action)
    requires Untouched(s) && Enabled(size, s, a) && size <= 1
    ensures Untouched(Next(size, s, a))
  {
  }

  /** In a log of at most one block the test lets nothing through. */
  lemma {:induction false} NothingLogged(size: nat, s: State, n: nat)
    requires ReachedIn(size, s, n) && size <= 1
    ensures Untouched(s)
    decreases n
  {
    if n > 0 {
      var p, a :| ReachedIn(size, p, n - 1) && StepsTo(size, p, a, s);
      NothingLogged(size, p, n - 1);
      UntouchedStep(size, p, a);
    }
  }

  /** Whatever the interleaving, every logged block has a slot - exactly when the log has more than LOGSIZE blocks, or
      one, in which case nothing is ever logged. */
  lemma FitsIff(size: nat)
    ensures (forall s :: Reached(size, s) ==> Fits(size, s)) <==> size > LOGSIZE || size == 1
  {
    if size > LOGSIZE {
      forall s | Reached(size, s) ensures Fits(size, s) { NeverPastHeader(size, s, 0, 0); }
    } else if size == 1 {
      forall s | Reached(size, s) ensures Fits(size, s) {
        var n: nat :| ReachedIn(size, s, n);
        NothingLogged(size, s, n);
      }
    } else if size == 0 {
      assert ReachedIn(size, EMPTY, 0);
      assert Reached(size, EMPTY) && !Fits(size, EMPTY);
    } else {
      var s := Race(size);
      assert !Fits(size, s);
    }
  }

  /** The test never hits an operation that begin_op has promised room for - exactly when the log has more than LOGSIZE
      blocks. */
  lemma PromiseKeptIff(size: nat)
    ensures (forall s, j :: Reached(size, s) && Entitled(s, j) ==> HasRoom(|s.logged|, size)) <==> size > LOGSIZE
  {
    if size > LOGSIZE {
      forall s, j | Reached(size, s) && Entitled(s, j) ensures HasRoom(|s.logged|, size) {
        var n: nat :| ReachedIn(size, s, n);
        ReachedInv(size, s, n);
        UnusedBound(s.ops);
      }
    } else {
      var r, e := Rounds(if size == 0 then 0 else size - 1);
      var s := Fills(size, r, e);
      assert Entitled(s, e) && !HasRoom(|s.logged|, size);
    }
  }

  /** Operations within their reservations can fill lh.block, and then log_write panics even for a block that is already
      logged and needs no room. */
  lemma FullLogPanics(size: nat) returns (s: State, b: nat)
    requires size > LOGSIZE
    ensures Reached(size, s) && |s.logged| == LOGSIZE && |s.ops| == 3
    ensures b in s.ops[0] && |s.ops[0] + {b}| <= MAXOPBLOCKS && !HasRoom(|s.logged|, size)
  {
    s := Fills(size, MAXOPBLOCKS, 0);
    assert |s.ops[0]| == MAXOPBLOCKS;
    b :| b in s.ops[0];
    assert s.ops[0] + {b} == s.ops[0];
  }
}
