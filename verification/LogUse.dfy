/** The log and the buffer cache in use (kernel/log.c): bread, change, log_write, brelse; and three operations that fill
    the log in turn, up to the panic of log_write. */
module LogUse {
  import opened Prelude
  import opened Bio
  import opened LogSpec
  import opened Log
  import R = LogRoom

  datatype Outcome = Done | NoBuffer | TooBig

  /** Operation op may log block b of the log's device, which no other process holds. */
  ghost predicate MayLog(lg: LogState, b: nat, op: nat)
    reads lg, lg.bc
  {
    && lg.Valid() && Quiet(lg.bc, lg.readers, {}) && op < |lg.ops| && |lg.ops[op] + {b}| <= MAXOPBLOCKS
    && Key(lg.l.dev, b) in lg.bc.disk && !InLog(lg.l, Key(lg.l.dev, b))
    && forall i :: i in lg.readers ==> lg.bc.buf[i].key != Key(lg.l.dev, b)
  }

  /** Process me alone holds buffer i, which has block b of the log's device. */
  ghost predicate Holds(lg: LogState, i: nat, b: nat, me: nat)
    reads lg, lg.bc
  {
    && lg.Valid() && Quiet(lg.bc, lg.readers, {i}) && i < lg.bc.n && lg.bc.refs[i] == 1 && lg.bc.buf[i].valid
    && lg.bc.buf[i].key == Key(lg.l.dev, b) && lg.bc.buf[i].holder == Some(me) && !InLog(lg.l, lg.bc.buf[i].key)
  }

  /** bread of a block that operation op may log. */
  method Open(lg: LogState, b: nat, me: nat, ghost op: nat) returns (r: Option<nat>)
    requires MayLog(lg, b, op)
    modifies lg.bc`buf, lg.bc`refs
    ensures r.None? ==> !Spare(lg.bc, lg.readers)
    ensures r.Some? ==> Holds(lg, r.value, b, me)
  {
    r := ReadBlock(lg.bc, Key(lg.l.dev, b), me, {}, lg.readers);
    if r.Some? {
      assert {} + {r.value} == {r.value};
    }
  }

  /** The rest of it, on the held buffer i. */
  method Change(lg: LogState, i: nat, b: nat, data: Block, me: nat, ghost op: nat) returns (r: Outcome)
    requires Holds(lg, i, b, me) && op < |lg.ops| && |lg.ops[op] + {b}| <= MAXOPBLOCKS
    modifies lg`n, lg`block, lg`ops, lg.bc
    ensures r == if R.HasRoom(old(lg.n), lg.l.size) then Done else TooBig
    ensures r.Done? ==>
              && lg.Valid() && Quiet(lg.bc, lg.readers, {})
              && lg.bc.contents == old(lg.bc.contents)[Key(lg.l.dev, b) := data]
    ensures r.Done? ==> lg.bc.disk == old(lg.bc.disk) && lg.block[..lg.n] == R.Added(old(lg.block[..lg.n]), b)
    ensures r.Done? ==> lg.ops == old(lg.ops)[op := old(lg.ops)[op] + {b}] && lg.bc.pinned == old(lg.bc.pinned) + {i}
  {
    Put(lg, i, b, data, me);
    r := Record(lg, i, b, me, op);
  }

  /** The holder of a buffer may change it: nothing of the log depends on it yet. */
  method Put(lg: LogState, i: nat, b: nat, data: Block, me: nat)
    requires Holds(lg, i, b, me)
    modifies lg.bc`buf, lg.bc`contents, lg.bc`dirty
    ensures Holds(lg, i, b, me) && lg.bc.contents == old(lg.bc.contents)[Key(lg.l.dev, b) := data]
  {
    lg.bc.Write(i, data, me);
  }

  /** log_write by the holder, who holds the buffer still. */
  method Enter(lg: LogState, i: nat, b: nat, me: nat, ghost op: nat) returns (panic: bool)
    requires Holds(lg, i, b, me) && op < |lg.ops| && |lg.ops[op] + {b}| <= MAXOPBLOCKS
    modifies lg`n, lg`block, lg`ops, lg.bc`buf, lg.bc`pinned, lg.bc`dirty
    ensures panic <==> !R.HasRoom(old(lg.n), lg.l.size)
    ensures !panic ==> Holds(lg, i, b, me) && i !in lg.bc.dirty && lg.bc.pinned == old(lg.bc.pinned) + {i}
    ensures !panic ==>
              && lg.block[..lg.n] == R.Added(old(lg.block[..lg.n]), b)
              && lg.ops == old(lg.ops)[op := old(lg.ops)[op] + {b}]
  {
    panic := lg.LogWrite(i, me, op);
  }

  /** brelse, with the block logged. */
  method Close(lg: LogState, i: nat, b: nat, me: nat)
    requires Holds(lg, i, b, me) && i !in lg.bc.dirty
    modifies lg.bc`buf, lg.bc`refs, lg.bc`next, lg.bc`prev, lg.bc`order
    ensures lg.Valid() && Quiet(lg.bc, lg.readers, {})
  {
    assert {} + {i} == {i};
    ReleaseBlock(lg.bc, i, me, {}, lg.readers);
  }

  method Record(lg: LogState, i: nat, b: nat, me: nat, ghost op: nat) returns (r: Outcome)
    requires Holds(lg, i, b, me) && op < |lg.ops| && |lg.ops[op] + {b}| <= MAXOPBLOCKS
    modifies lg`n, lg`block, lg`ops
    modifies lg.bc`buf, lg.bc`refs, lg.bc`next, lg.bc`prev, lg.bc`order, lg.bc`pinned, lg.bc`dirty
    ensures r == if R.HasRoom(old(lg.n), lg.l.size) then Done else TooBig
    ensures r.Done? ==> lg.Valid() && Quiet(lg.bc, lg.readers, {})
    ensures r.Done? ==> lg.block[..lg.n] == R.Added(old(lg.block[..lg.n]), b)
    ensures r.Done? ==> lg.ops == old(lg.ops)[op := old(lg.ops)[op] + {b}] && lg.bc.pinned == old(lg.bc.pinned) + {i}
  {
    var panic := Enter(lg, i, b, me, op);
    if panic {
      return TooBig;
    }
    Close(lg, i, b, me);
    r := Done;
  }

  /** The use log_write is made for, by operation op: the block's new contents are what readers see, and it is in the
      transaction. */
  method Update(lg: LogState, b: nat, data: Block, me: nat, ghost op: nat) returns (r: Outcome)
    requires MayLog(lg, b, op)
    modifies lg`n, lg`block, lg`ops, lg.bc
    ensures r.NoBuffer? ==> !old(Spare(lg.bc, lg.readers))
    ensures r.TooBig? ==> !R.HasRoom(old(lg.n), lg.l.size)
    ensures old(Spare(lg.bc, lg.readers)) && R.HasRoom(old(lg.n), lg.l.size) ==> r.Done?
    ensures r.Done? ==>
              && lg.Valid() && Quiet(lg.bc, lg.readers, {})
              && lg.bc.contents == old(lg.bc.contents)[Key(lg.l.dev, b) := data]
    ensures r.Done? ==> lg.bc.disk == old(lg.bc.disk) && lg.block[..lg.n] == R.Added(old(lg.block[..lg.n]), b)
    ensures r.Done? ==> lg.ops == old(lg.ops)[op := old(lg.ops)[op] + {b}]
    ensures r.Done? ==> |lg.bc.pinned| <= |old(lg.bc.pinned)| + 1
  {
    var i := Open(lg, b, me, op);
    if i.None? {
      return NoBuffer;
    }
    r := Change(lg, i.value, b, data, me, op);
  }

  // ---------------------------------------------------------------- three operations fill the log in turn

  /** The log is empty, nobody uses it or a buffer, and the cache is as large as the kernel makes it. */
  ghost predicate Fresh(lg: LogState)
    reads lg, lg.bc
  {
    && lg.Valid() && Quiet(lg.bc, lg.readers, {}) && lg.n == 0 && lg.ops == [] && !lg.committing
    && lg.bc.pinned == {} && lg.readers == {} && lg.bc.n >= LOGSIZE
  }

  /** The blocks from first on, as many as lh.block has room for, are home blocks of the log's device. */
  ghost predicate HomesAt(lg: LogState, first: nat)
    reads lg, lg.bc
  {
    forall b :: first <= b < first + LOGSIZE ==> Key(lg.l.dev, b) in lg.bc.disk && !InLog(lg.l, Key(lg.l.dev, b))
  }

  /** Three operations have logged 3 * r + e blocks in turn, from first on. */
  ghost predicate Filled(lg: LogState, first: nat, r: nat, e: nat)
    reads lg, lg.bc
  {
    && lg.Valid() && Quiet(lg.bc, lg.readers, {}) && HomesAt(lg, first) && lg.readers == {} && lg.bc.n >= LOGSIZE
    && e <= 3 && lg.n == 3 * r + e <= LOGSIZE && |lg.bc.pinned| <= lg.n
    && |lg.ops| == 3 && (forall j :: 0 <= j < 3 ==> |lg.ops[j]| == if j < e then r + 1 else r)
    && (forall t :: 0 <= t < lg.n ==> lg.block[..lg.n][t] == first + t)
  }

  method Start(lg: LogState, first: nat)
    requires Fresh(lg) && HomesAt(lg, first)
    modifies lg`outstanding, lg`ops
    ensures Filled(lg, first, 0, 0)
  {
    var i := 0;
    while i < 3
      invariant i <= 3 && Begun(lg, i) && Quiet(lg.bc, lg.readers, {})
    {
      var ok := lg.BeginOp();
      i := i + 1;
    }
  }

  /** As many operations have begun, and logged nothing. */
  ghost predicate Begun(lg: LogState, i: nat)
    reads lg, lg.bc
  {
    lg.Valid() && lg.n == 0 && !lg.committing && |lg.ops| == i && forall j :: 0 <= j < i ==> lg.ops[j] == {}
  }

  /** The operation whose turn it is may log the next block. */
  lemma NextFits(lg: LogState, first: nat, r: nat, e: nat)
    requires Filled(lg, first, r, e) && e < 3 && r < MAXOPBLOCKS
    ensures MayLog(lg, first + lg.n, e) && first + lg.n !in lg.block[..lg.n] && |lg.ops[e] + {first + lg.n}| == r + 1
  {
    forall x | x in lg.ops[e] ensures x < first + lg.n { assert x in lg.block[..lg.n]; }
  }

  method One(lg: LogState, first: nat, r: nat, e: nat, data: Block, me: nat)
    requires Filled(lg, first, r, e) && e < 3 && r < MAXOPBLOCKS && R.HasRoom(lg.n, lg.l.size)
    modifies lg`n, lg`block, lg`ops, lg.bc
    ensures Filled(lg, first, r, e + 1)
  {
    NextFits(lg, first, r, e);
    assert Stuck(lg.bc, lg.readers) == lg.bc.pinned;
    SpareIff(lg.bc, lg.readers);
    var x := Update(lg, first + lg.n, data, me, e);
    assert |lg.block[..lg.n]| == lg.n;
  }

  method Two(lg: LogState, first: nat, r: nat, data: Block, me: nat)
    requires Filled(lg, first, r, 0) && r < MAXOPBLOCKS && 3 * r + 2 < lg.l.size
    modifies lg`n, lg`block, lg`ops, lg.bc
    ensures Filled(lg, first, r, 2)
  {
    One(lg, first, r, 0, data, me);
    One(lg, first, r, 1, data, me);
  }

  /** They log r rounds of blocks, as long as the test of log_write lets them. */
  method Fill(lg: LogState, first: nat, r: nat, data: Block, me: nat)
    requires Fresh(lg) && HomesAt(lg, first) && r <= MAXOPBLOCKS && 3 * r < lg.l.size
    modifies lg, lg.bc
    ensures Filled(lg, first, r, 0)
  {
    Start(lg, first);
    var i := 0;
    while i < r
      invariant i <= r && Filled(lg, first, i, 0)
    {
      Two(lg, first, i, data, me);
      One(lg, first, i, 2, data, me);
      i := i + 1;
    }
  }

  /** With the log size that mkfs sets, an operation with room left in its reservation meets the panic. */
  method MkfsLogIsOneShort(lg: LogState, first: nat, data: Block, me: nat) returns (panic: bool)
    requires Fresh(lg) && HomesAt(lg, first) && lg.l.size == LOGSIZE
    modifies lg, lg.bc
    ensures panic && MayLog(lg, first + lg.n, 2) && |lg.ops[2]| < MAXOPBLOCKS && first + lg.n !in lg.block[..lg.n]
  {
    Fill(lg, first, MAXOPBLOCKS - 1, data, me);
    Two(lg, first, MAXOPBLOCKS - 1, data, me);
    NextFits(lg, first, MAXOPBLOCKS - 1, 2);
    panic := lg.CheckRoom();
  }

  /** With a larger log, operations that have used up their reservations meet the panic when they log again a block they
      have logged before. */
  method FullLogPanics(lg: LogState, first: nat, data: Block, me: nat) returns (panic: bool, ghost b: nat)
    requires Fresh(lg) && HomesAt(lg, first) && lg.l.size > LOGSIZE
    modifies lg, lg.bc
    ensures panic && lg.Valid() && |lg.ops| == 3 && b in lg.ops[0] && b in lg.block[..lg.n]
    ensures |lg.ops[0] + {b}| <= MAXOPBLOCKS && lg.n == LOGSIZE
  {
    Fill(lg, first, MAXOPBLOCKS, data, me);
    assert |lg.ops[0]| == MAXOPBLOCKS;
    b :| b in lg.ops[0];
    assert lg.ops[0] + {b} == lg.ops[0];
    panic := lg.CheckRoom();
  }

  method EndAll(lg: LogState)
    requires lg.Valid() && |lg.ops| == 3
    modifies lg`outstanding, lg`ops, lg`committing
    ensures lg.Valid() && lg.committing
  {
    var doCommit := lg.EndOp(0);
    doCommit := lg.EndOp(0);
    doCommit := lg.EndOp(0);
  }

  /** With as many buffers as the kernel has, three operations that have used up their reservations pin them all, and
      their commit panics. */
  method CommitPanics(lg: LogState, first: nat, data: Block, me: nat) returns (ok: bool)
    requires Fresh(lg) && HomesAt(lg, first) && lg.l.size > LOGSIZE && lg.bc.n == LOGSIZE
    modifies lg, lg.bc
    ensures !ok
  {
    Fill(lg, first, MAXOPBLOCKS, data, me);
    EndAll(lg);
    lg.PinnedCount();
    assert Stuck(lg.bc, lg.readers) == lg.bc.pinned;
    SpareIff(lg.bc, lg.readers);
    ghost var j, ws;
    ok, j, ws := lg.Commit(me);
  }

  // ---------------------------------------------------------------- after recovery

  /** The machine has just booted from a disk whose log is not empty, with a cache that can replay it. */
  ghost predicate Booted(lg: LogState)
    reads lg, lg.bc
  {
    var bc, l := lg.bc, lg.l;
    && |lg.block| == LOGSIZE && lg.ops == [] && lg.outstanding == 0 && !lg.committing && lg.readers == {}
    && Quiet(bc, lg.readers, {}) && bc.pinned == {} && bc.leaked == {} && LogOk(l, bc.disk) && bc.contents == bc.disk
    && R.Distinct(Logged(bc.disk[Hdr(l)])) && 0 < bc.disk[Hdr(l)][0] < bc.n < |bc.disk|
  }

  lemma Member(s: set<int>) returns (x: int)
    requires |s| > 0
    ensures x in s
  {
    if forall y :: y !in s {
      assert false;
    }
    x :| x in s;
  }

  /** Recovery, and then the block of a buffer that it has left a reference short. */
  method Recover(lg: LogState, me: nat) returns (i: nat, k: Key)
    requires Booted(lg)
    modifies lg, lg.bc
    ensures lg.bc.Counted() && i < lg.bc.n < |lg.bc.disk| && i in lg.bc.leaked && lg.bc.buf[i].key == k
    ensures Quiet(lg.bc, {}, {}) && lg.bc.contents == lg.bc.disk == Recovered(lg.l, old(lg.bc.disk)) && k in lg.bc.disk
  {
    var bc := lg.bc;
    var ok;
    ghost var j;
    ok, j := lg.RecoverFromLog(me);
    assert |bc.disk| == |bc.disk.Keys|;
    ghost var l := Member(bc.leaked);
    assert bc.OkBuf(l);
    i :| 0 <= i < bc.n && bc.buf[i].refcnt == U32 - 1;
    assert bc.OkBuf(i);
    k := bc.buf[i].key;
  }

  /** After replaying a log that was not empty, some run of bget hands one buffer to two holders under two numbers. */
  method RecoveryShares(lg: LogState, me: nat) returns (i: nat, k: Key, other: Key)
    requires Booted(lg)
    modifies lg, lg.bc
    ensures i < |lg.bc.buf| == |lg.bc.refs| && lg.bc.refs[i] == 2 && lg.bc.buf[i].key == other != k
  {
    i, k := Recover(lg, me);
    i, other := lg.bc.SharingReached(k, i);
  }

  /** After replaying a log that was not empty, some run loses an update that was logged: its buffer is recycled while
      it is pinned, no buffer is filled with the block, and the disk still has the old one. */
  method RecoveryLosesPin(lg: LogState, data: Block, me: nat) returns (i: nat, k: Key, other: Key)
    requires Booted(lg)
    modifies lg, lg.bc
    ensures k in lg.bc.contents && lg.bc.contents[k] == data && i in lg.bc.pinned
    ensures lg.bc.disk == Recovered(lg.l, old(lg.bc.disk))
    ensures forall j :: 0 <= j < |lg.bc.buf| && lg.bc.buf[j].key == k ==> !lg.bc.buf[j].valid
  {
    i, k := Recover(lg, me);
    i, other := lg.bc.PinLost(k, data, me, i);
  }
}
