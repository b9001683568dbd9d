/** The in-memory log (kernel/log.c) on top of the buffer cache. */
module Log {
  import opened Prelude
  import opened Bio
  import opened LogSpec
  import R = LogRoom

  function Indices(n: nat): (s: set<int>)
    ensures |s| == n && forall i :: i in s <==> 0 <= i < n
  {
    if n == 0 then {} else Indices(n - 1) + {n - 1}
  }

  /** Fewer than n marked indices leave one unmarked below n. */
  lemma SomeIndexOutside(s: set<int>, n: nat)
    requires |s| < n
    ensures exists i :: 0 <= i < n && i !in s
  {
    var all := Indices(n);
    assert all <= s ==> s == all + (s - all);
    assert !(all <= s);
  }

  lemma DropFirst(w: seq<int>, t: nat)
    requires t < |w|
    ensures forall i :: i in w[t..] && i != w[t] ==> i in w[t + 1..]
  {
    assert w[t..] == [w[t]] + w[t + 1..];
  }

  lemma FullSubset(a: set<int>, b: set<int>)
    requires a <= b && |a| >= |b|
    ensures a == b
  {
    assert b == a + (b - a);
  }

  lemma SmallerSet(a: set<int>, b: set<int>)
    requires a <= b
    ensures |a| <= |b|
  {
    assert b == a + (b - a);
  }

  lemma {:induction false} DistinctCount(w: seq<int>, m: nat)
    requires m <= |w| && forall s, t :: 0 <= s < t < m ==> w[s] != w[t]
    ensures |set t | 0 <= t < m :: w[t]| == m
  {
    if m > 0 {
      DistinctCount(w, m - 1);
      var rest := set t | 0 <= t < m - 1 :: w[t];
      assert (set t | 0 <= t < m :: w[t]) == rest + {w[m - 1]} && w[m - 1] !in rest;
    }
  }

  /** Every buffer is unreferenced and unlocked, but for those in busy, which the process we follow holds, and those in
      rd, which other processes hold without having changed them. */
  ghost predicate Quiet(bc: Bcache, rd: set<int>, busy: set<int>)
    reads bc
  {
    && bc.Valid()
    && (forall i :: 0 <= i < bc.n && i !in busy && i !in rd ==> bc.refs[i] == 0 && bc.buf[i].holder.None?)
    && (forall i :: i in rd ==> 0 <= i < bc.n && i !in busy && ReadOnly(bc, i))
  }

  ghost predicate ReadOnly(bc: Bcache, i: nat)
    requires bc.Valid() && i < bc.n
    reads bc
  {
    0 < bc.refs[i] < U32 - 3 && i !in bc.dirty && i !in bc.leaked
  }

  /** Buffers that cannot be recycled, whatever the process we follow does. */
  ghost function Stuck(bc: Bcache, rd: set<int>): set<int>
    reads bc`pinned, bc`leaked
  {
    bc.pinned + bc.leaked + rd
  }

  /** Some buffer can be recycled. */
  ghost predicate Spare(bc: Bcache, rd: set<int>)
    reads bc`pinned, bc`leaked
  {
    SomeOutside(bc.n, Stuck(bc, rd))
  }

  ghost predicate SomeOutside(n: nat, s: set<int>) { exists i :: 0 <= i < n && i !in s }

  /** So can another, once this process holds the first. */
  ghost predicate SpareTwo(bc: Bcache, rd: set<int>)
    reads bc`pinned, bc`leaked
  {
    exists i, j :: 0 <= i < bc.n && 0 <= j < bc.n && i != j && i !in Stuck(bc, rd) && j !in Stuck(bc, rd)
  }

  lemma SpareIff(bc: Bcache, rd: set<int>)
    requires bc.Valid() && forall i :: i in rd ==> 0 <= i < bc.n
    ensures Spare(bc, rd) <==> |Stuck(bc, rd)| < bc.n
    ensures |Stuck(bc, rd)| + 1 < bc.n ==> SpareTwo(bc, rd)
  {
    var s := Stuck(bc, rd);
    forall j | j in s ensures 0 <= j < bc.n { }
    if |s| < bc.n {
      SomeIndexOutside(s, bc.n);
      assert SomeOutside(bc.n, s);
      var i :| 0 <= i < bc.n && i !in s;
      if |s| + 1 < bc.n {
        SomeIndexOutside(s + {i}, bc.n);
      }
    } else {
      SmallerSet(s, Indices(bc.n));
      FullSubset(s, Indices(bc.n));
    }
  }

  /** bread by a process that holds at most the one buffer in busy. */
  method ReadBlock(bc: Bcache, k: Key, me: nat, ghost busy: set<int>, ghost rd: set<int>) returns (r: Option<nat>)
    requires Quiet(bc, rd, busy) && bc.Sound() && k in bc.disk
    requires forall i :: i in busy ==> 0 <= i < bc.n && bc.refs[i] == 1 && bc.buf[i].key != k && i !in Stuck(bc, rd)
    requires forall i :: i in rd ==> bc.buf[i].key != k
    modifies bc`buf, bc`refs
    ensures r.None? ==> bc.buf == old(bc.buf) && bc.refs == old(bc.refs)
    ensures r.Some? ==> Quiet(bc, rd, busy + {r.value}) && r.value < bc.n && r.value !in busy && r.value !in bc.dirty
    ensures bc.Sound() || (r.Some? && r.value in bc.leaked)
    ensures r.Some? ==> bc.refs == old(bc.refs)[r.value := 1] && old(bc.refs)[r.value] == 0
    ensures r.Some? ==> forall j :: 0 <= j < bc.n && j != r.value ==> bc.buf[j] == old(bc.buf)[j]
    ensures r.Some? ==>
              var b := bc.buf[r.value]; b.key == k && b.valid && b.holder == Some(me) && b.data == bc.contents[k]
    ensures r.Some? ==> (r.value in Stuck(bc, rd) ==> old(bc.buf)[r.value].key == k)
    ensures (exists i :: 0 <= i < bc.n && old(bc.buf)[i].key == k) ==> r.Some?
    ensures (exists i :: 0 <= i < bc.n && i !in Stuck(bc, rd) && i !in busy) ==> r.Some?
  {
    forall i | 0 <= i < bc.n
      ensures (i in Stuck(bc, rd) || i in busy <==> bc.buf[i].refcnt != 0) && bc.refs[i] < U32 - 3
      ensures i in bc.dirty ==> i in busy
    {
      assert bc.OkBuf(i);
    }
    r := bc.Bread(k, me);
  }

  /** No buffer that cannot be recycled holds block k. */
  ghost predicate NotStuck(bc: Bcache, rd: set<int>, k: Key)
    reads bc
  {
    bc.Valid() && (forall i :: i in rd ==> 0 <= i < bc.n) && forall i :: i in Stuck(bc, rd) ==> bc.buf[i].key != k
  }

  /** brelse by the only holder of buffer i. */
  method ReleaseBlock(bc: Bcache, i: nat, me: nat, ghost busy: set<int>, ghost rd: set<int>)
    requires Quiet(bc, rd, busy + {i}) && i < bc.n && i !in busy && bc.refs[i] == 1 && i !in bc.dirty
    requires bc.buf[i].holder == Some(me)
    requires forall j :: j in busy ==> 0 <= j < bc.n
    modifies bc`buf, bc`refs, bc`next, bc`prev, bc`order
    ensures Quiet(bc, rd, busy) && bc.refs == old(bc.refs)[i := 0]
    ensures forall j :: 0 <= j < bc.n && j != i ==> bc.buf[j] == old(bc.buf)[j]
    ensures bc.buf[i].key == old(bc.buf)[i].key && bc.buf[i].data == old(bc.buf)[i].data
    ensures bc.buf[i].valid == old(bc.buf)[i].valid
  {
    bc.Brelse(i, me);
  }

  /** The holder fills buffer i and writes it: cache and disk agree on the new block. */
  method WriteThrough(bc: Bcache, i: nat, data: Block, me: nat, ghost busy: set<int>, ghost rd: set<int>)
    requires Quiet(bc, rd, busy) && i < bc.n && i in busy && i !in bc.dirty && bc.refs[i] == 1 && bc.buf[i].valid
    requires bc.buf[i].holder == Some(me)
    modifies bc`buf, bc`disk, bc`contents, bc`dirty, bc`writes
    ensures Quiet(bc, rd, busy) && bc.dirty == old(bc.dirty)
    ensures bc.buf == old(bc.buf)[i := old(bc.buf)[i].(data := data)]
    ensures var k := old(bc.buf)[i].key;
            && bc.disk == old(bc.disk)[k := data] && bc.contents == old(bc.contents)[k := data]
            && bc.writes == old(bc.writes) + [(k, data)]
  {
    bc.Write(i, data, me);
    bc.Bwrite(i, me);
  }

  /** brelse of two buffers by their only holder. */
  method ReleasePair(bc: Bcache, i: nat, j: nat, me: nat, ghost rd: set<int>)
    requires Quiet(bc, rd, {i, j}) && i < bc.n && j < bc.n && i != j && i !in bc.dirty && j !in bc.dirty
    requires bc.refs[i] == 1 && bc.refs[j] == 1 && bc.buf[i].holder == Some(me) && bc.buf[j].holder == Some(me)
    modifies bc`buf, bc`refs, bc`next, bc`prev, bc`order
    ensures Quiet(bc, rd, {}) && bc.refs == old(bc.refs)[i := 0][j := 0]
    ensures forall k :: 0 <= k < bc.n ==> bc.buf[k].key == old(bc.buf)[k].key
  {
    assert {j} + {i} == {i, j};
    ReleaseBlock(bc, i, me, {j}, rd);
    assert {} + {j} == {j};
    ReleaseBlock(bc, j, me, {}, rd);
  }

  /** The process me holds the buffers t and f, unchanged and filled with two blocks. */
  ghost predicate HoldsTwo(bc: Bcache, t: nat, f: nat, me: nat, rd: set<int>)
    reads bc
  {
    && Quiet(bc, rd, {t, f}) && t < bc.n && f < bc.n && t != f && t !in bc.dirty && f !in bc.dirty
    && bc.refs[t] == 1 && bc.refs[f] == 1 && bc.buf[t].holder == Some(me) && bc.buf[f].holder == Some(me)
    && bc.buf[t].valid && bc.buf[f].valid && bc.buf[t].key != bc.buf[f].key
  }

  /** memmove(to, from), bwrite(to), brelse(from), brelse(to) on held buffers. */
  method CopyHeld(bc: Bcache, t: nat, f: nat, me: nat, ghost rd: set<int>)
    requires HoldsTwo(bc, t, f, me, rd)
    modifies bc`buf, bc`refs, bc`next, bc`prev, bc`order, bc`disk, bc`contents, bc`dirty, bc`writes
    ensures Quiet(bc, rd, {})
    ensures forall i :: 0 <= i < bc.n ==> bc.buf[i].key == old(bc.buf)[i].key
    ensures var k, d := old(bc.buf)[t].key, old(bc.buf)[f].data;
            && bc.disk == old(bc.disk)[k := d] && bc.contents == old(bc.contents)[k := d]
            && bc.writes == old(bc.writes) + [(k, d)]
    ensures bc.refs == old(bc.refs)[t := 0][f := 0]
  {
    WriteThrough(bc, t, bc.buf[f].data, me, {t, f}, rd);
    assert {t, f} == {f, t};
    ReleasePair(bc, f, t, me, rd);
  }

  /** The process me holds buffer i, filled with the current contents of block k, and nobody else refers to it. */
  ghost predicate Held(bc: Bcache, i: nat, k: Key, me: nat)
    reads bc
  {
    bc.Valid() && i < bc.n && i !in bc.dirty && bc.refs[i] == 1 && k in bc.contents
    && var b := bc.buf[i]; b.key == k && b.valid && b.holder == Some(me) && b.data == bc.contents[k]
  }

  /** The second bread of a copy loop, by the holder of the slot's buffer t. */
  method ReadHome(bc: Bcache, t: nat, slot: Key, home: Key, me: nat, ghost rd: set<int>) returns (f: Option<nat>)
    requires Quiet(bc, rd, {t}) && bc.Sound() && Held(bc, t, slot, me) && t !in Stuck(bc, rd)
    requires home in bc.disk && slot != home
    requires forall i :: i in rd ==> bc.buf[i].key != home
    modifies bc`buf, bc`refs
    ensures f.Some? ==> Held(bc, t, slot, me) && Held(bc, f.value, home, me) && Quiet(bc, rd, {t, f.value})
    ensures f.Some? ==> (f.value in Stuck(bc, rd) ==> old(bc.buf)[f.value].key == home)
    ensures forall i :: i in Stuck(bc, rd) && 0 <= i < |bc.buf| ==> bc.buf[i].key == old(bc.buf)[i].key
    ensures (exists i :: 0 <= i < bc.n && old(bc.buf)[i].key == home) ==> f.Some?
    ensures SpareTwo(bc, rd) ==> f.Some?
  {
    f := ReadBlock(bc, home, me, {t}, rd);
    if f.Some? {
      assert {t} + {f.value} == {t, f.value};
    }
  }

  /** The two breads at the top of both copy loops: the slot's buffer, then the home block's. */
  method ReadPair(bc: Bcache, slot: Key, home: Key, me: nat, ghost rd: set<int>)
    returns (t: Option<nat>, f: Option<nat>)
    requires Quiet(bc, rd, {}) && bc.Sound() && slot in bc.disk && home in bc.disk && slot != home
    requires NotStuck(bc, rd, slot)
    requires forall i :: i in rd ==> bc.buf[i].key != home
    modifies bc`buf, bc`refs
    ensures f.Some? ==> t.Some? && Held(bc, t.value, slot, me) && Held(bc, f.value, home, me)
    ensures f.Some? ==> HoldsTwo(bc, t.value, f.value, me, rd)
    ensures f.Some? ==> t.value !in Stuck(bc, rd) && (f.value in Stuck(bc, rd) ==> old(bc.buf)[f.value].key == home)
    ensures forall i :: i in Stuck(bc, rd) && 0 <= i < |bc.buf| ==> bc.buf[i].key == old(bc.buf)[i].key
    ensures Spare(bc, rd) && (exists i :: 0 <= i < bc.n && i in Stuck(bc, rd) && old(bc.buf)[i].key == home) ==>
              f.Some?
    ensures SpareTwo(bc, rd) ==> f.Some?
  {
    f := None;
    t := ReadBlock(bc, slot, me, {}, rd);
    if t.Some? {
      assert {} + {t.value} == {t.value};
      f := ReadHome(bc, t.value, slot, home, me, rd);
    }
  }

  /** The same for a home block whose buffer p is pinned. */
  method ReadPinned(bc: Bcache, slot: Key, home: Key, me: nat, ghost rd: set<int>, ghost p: int)
    returns (t: Option<nat>, f: Option<nat>)
    requires Quiet(bc, rd, {}) && bc.leaked == {} && slot in bc.disk && home in bc.disk && slot != home
    requires NotStuck(bc, rd, slot) && (forall i :: i in rd ==> bc.buf[i].key != home)
    requires p in bc.pinned && bc.buf[p].key == home
    modifies bc`buf, bc`refs
    ensures Spare(bc, rd) ==> f.Some?
    ensures f.Some? ==> t.Some? && HoldsTwo(bc, t.value, f.value, me, rd)
    ensures f.Some? ==> bc.buf[t.value].key == slot && bc.buf[f.value].data == bc.contents[home]
    ensures f.Some? ==> forall i :: i in bc.pinned + rd ==> bc.buf[i].key == old(bc.buf)[i].key
  {
    assert Stuck(bc, rd) == bc.pinned + rd;
    t, f := ReadPair(bc, slot, home, me, rd);
  }

  /** The turn of write_log's loop for one block: the cached home block is copied to its slot. Only a cache with
      nothing left to recycle makes it panic. */
  method CopyToSlot(bc: Bcache, slot: Key, home: Key, me: nat, ghost rd: set<int>, ghost p: int) returns (ok: bool)
    requires Quiet(bc, rd, {}) && bc.leaked == {} && slot in bc.disk && home in bc.disk && slot != home
    requires NotStuck(bc, rd, slot) && (forall i :: i in rd ==> bc.buf[i].key != home)
    requires p in bc.pinned && bc.buf[p].key == home
    modifies bc`buf, bc`refs, bc`next, bc`prev, bc`order, bc`disk, bc`contents, bc`dirty, bc`writes
    ensures Spare(bc, rd) ==> ok
    ensures ok ==> Quiet(bc, rd, {}) && forall i :: i in bc.pinned + rd ==> bc.buf[i].key == old(bc.buf)[i].key
    ensures ok ==> var d := old(bc.contents)[home];
                   && bc.disk == old(bc.disk)[slot := d] && bc.contents == old(bc.contents)[slot := d]
                   && bc.writes == old(bc.writes) + [(slot, d)]
    ensures !ok ==> bc.writes == old(bc.writes) && bc.Journal()
  {
    var to, from := ReadPinned(bc, slot, home, me, rd, p);
    ok := from.Some?;
    if ok {
      CopyHeld(bc, to.value, from.value, me, rd);
    }
  }

  /** The turn of install_trans's loop for one block: the slot's block is copied home, written, and the home buffer
      unpinned - or, if it had no pin, left one reference short. */
  method InstallBlock(bc: Bcache, slot: Key, home: Key, me: nat, ghost rd: set<int>) returns (ok: bool, ghost i: int)
    requires Quiet(bc, rd, {}) && bc.Sound() && slot in bc.disk && home in bc.disk && slot != home
    requires NotStuck(bc, rd, slot)
    requires forall j :: j in bc.leaked ==> bc.buf[j].key != home
    requires forall i :: i in rd ==> bc.buf[i].key != home
    modifies bc
    ensures ok ==> Quiet(bc, rd, {}) && bc.Sound()
    ensures ok ==> 0 <= i < bc.n && bc.buf[i].key == home && i !in old(Stuck(bc, rd)) - old(bc.pinned)
    ensures ok ==> forall j :: j in old(bc.pinned) && old(bc.buf)[j].key == home ==> j == i
    ensures ok ==>
              && bc.pinned == old(bc.pinned) - {i}
              && bc.leaked == (if i in old(bc.pinned) then old(bc.leaked) else old(bc.leaked) + {i})
    ensures ok ==> forall j :: j in old(Stuck(bc, rd)) ==> bc.buf[j].key == old(bc.buf)[j].key
    ensures old(Spare(bc, rd) && exists j :: 0 <= j < bc.n && j in Stuck(bc, rd) && bc.buf[j].key == home) ==> ok
    ensures old(SpareTwo(bc, rd)) ==> ok
    ensures ok ==> var d := old(bc.contents)[slot];
                   && bc.disk == old(bc.disk)[home := d] && bc.contents == old(bc.contents)[home := d]
                   && bc.writes == old(bc.writes) + [(home, d)]
    ensures !ok ==> bc.disk == old(bc.disk) && bc.contents == old(bc.contents) && bc.writes == old(bc.writes)
    ensures bc.Journal()
  {
    i := 0;
    var lbuf, dbuf := ReadPair(bc, slot, home, me, rd);
    ok := dbuf.Some?;
    if ok {
      i := dbuf.value;
      PinnedIs(bc, dbuf.value);
      InstallHeld(bc, lbuf.value, dbuf.value, me, rd);
    }
  }

  /** The same for a home block whose buffer p is pinned: the pin is undone. */
  method InstallPinned(bc: Bcache, slot: Key, home: Key, me: nat, ghost rd: set<int>, ghost p: int) returns (ok: bool)
    requires Quiet(bc, rd, {}) && bc.leaked == {} && slot in bc.disk && home in bc.disk && slot != home
    requires NotStuck(bc, rd, slot) && (forall i :: i in rd ==> bc.buf[i].key != home)
    requires p in bc.pinned && bc.buf[p].key == home
    modifies bc
    ensures old(Spare(bc, rd)) ==> ok
    ensures ok ==> Quiet(bc, rd, {}) && bc.leaked == {} && bc.pinned == old(bc.pinned) - {p}
    ensures ok ==> forall j :: j in old(bc.pinned) + rd ==> bc.buf[j].key == old(bc.buf)[j].key
    ensures ok ==> var d := old(bc.contents)[slot];
                   && bc.disk == old(bc.disk)[home := d] && bc.contents == old(bc.contents)[home := d]
                   && bc.writes == old(bc.writes) + [(home, d)]
    ensures !ok ==> bc.writes == old(bc.writes)
    ensures bc.Journal()
  {
    ghost var i;
    assert Stuck(bc, rd) == bc.pinned + rd;
    ok, i := InstallBlock(bc, slot, home, me, rd);
  }

  /** A buffer in use is the only one that can be pinned for its block. */
  lemma PinnedIs(bc: Bcache, i: nat)
    requires bc.Valid() && i < bc.n && bc.refs[i] > 0
    ensures forall j :: j in bc.pinned && bc.buf[j].key == bc.buf[i].key ==> j == i
  {
    forall j | j in bc.pinned && bc.buf[j].key == bc.buf[i].key ensures j == i {
      assert bc.OkBuf(j);
      bc.OneBufferPerBlock(i, j);
    }
  }

  /** memmove(dbuf, lbuf), bwrite(dbuf), bunpin(dbuf). */
  method InstallWrite(bc: Bcache, t: nat, f: nat, me: nat, ghost rd: set<int>)
    requires HoldsTwo(bc, t, f, me, rd) && f !in bc.leaked
    modifies bc`buf, bc`disk, bc`contents, bc`dirty, bc`writes, bc`pinned, bc`leaked
    ensures HoldsTwo(bc, t, f, me, rd) && bc.pinned == old(bc.pinned) - {f}
    ensures bc.leaked == if f in old(bc.pinned) then old(bc.leaked) else old(bc.leaked) + {f}
    ensures forall i :: 0 <= i < bc.n ==> bc.buf[i].key == old(bc.buf)[i].key
    ensures var k, d := old(bc.buf)[f].key, old(bc.buf)[t].data;
            && bc.disk == old(bc.disk)[k := d] && bc.contents == old(bc.contents)[k := d]
            && bc.writes == old(bc.writes) + [(k, d)]
  {
    WriteThrough(bc, f, bc.buf[t].data, me, {t, f}, rd);
    bc.Bunpin(f);
  }

  /** memmove(dbuf, lbuf), bwrite(dbuf), bunpin(dbuf), brelse(lbuf), brelse(dbuf) on held buffers. */
  method InstallHeld(bc: Bcache, t: nat, f: nat, me: nat, ghost rd: set<int>)
    requires HoldsTwo(bc, t, f, me, rd) && f !in bc.leaked
    modifies bc
    ensures Quiet(bc, rd, {}) && bc.pinned == old(bc.pinned) - {f}
    ensures bc.leaked == if f in old(bc.pinned) then old(bc.leaked) else old(bc.leaked) + {f}
    ensures forall i :: 0 <= i < bc.n ==> bc.buf[i].key == old(bc.buf)[i].key
    ensures var k, d := old(bc.buf)[f].key, old(bc.buf)[t].data;
            && bc.disk == old(bc.disk)[k := d] && bc.contents == old(bc.contents)[k := d]
            && bc.writes == old(bc.writes) + [(k, d)]
    ensures bc.refs == old(bc.refs)[t := 0][f := 0]
  {
    InstallWrite(bc, t, f, me, rd);
    ReleasePair(bc, t, f, me, rd);
  }

  /** The loops of write_head: the count and the block numbers go into the header block. */
  method FillHeader(before: Block, bs: seq<nat>) returns (h: Block)
    requires |bs| <= LOGSIZE
    ensures h == HeaderOf(before, bs)
  {
    h := before[0 := |bs|];
    var i := 0;
    while i < |bs|
      invariant 0 <= i <= |bs| && |h| == WORDS && h[0] == |bs|
      invariant forall j :: 1 <= j <= i ==> h[j] == bs[j - 1]
      invariant forall j :: i < j < WORDS ==> h[j] == before[j]
    {
      h := h[1 + i := bs[i]];
      i := i + 1;
    }
  }

  /** write_head for the block numbers bs. */
  method PutHeader(bc: Bcache, hdr: Key, bs: seq<nat>, me: nat, ghost rd: set<int>) returns (ok: bool)
    requires Quiet(bc, rd, {}) && bc.Sound() && hdr in bc.disk && NotStuck(bc, rd, hdr) && |bs| <= LOGSIZE
    modifies bc`buf, bc`refs, bc`next, bc`prev, bc`order, bc`disk, bc`contents, bc`dirty, bc`writes
    ensures ok ==> Quiet(bc, rd, {}) && bc.Sound()
    ensures ok ==> forall j :: j in Stuck(bc, rd) ==> bc.buf[j].key == old(bc.buf)[j].key
    ensures ok <==> Spare(bc, rd)
    ensures ok ==> var d := HeaderOf(old(bc.contents)[hdr], bs);
                   && bc.disk == old(bc.disk)[hdr := d] && bc.contents == old(bc.contents)[hdr := d]
                   && bc.writes == old(bc.writes) + [(hdr, d)]
    ensures !ok ==> bc.disk == old(bc.disk) && bc.contents == old(bc.contents) && bc.writes == old(bc.writes)
    ensures bc.Journal()
  {
    var r := ReadFree(bc, hdr, me, rd);
    ok := r.Some?;
    if ok {
      HeaderHeld(bc, r.value, bs, me, rd);
    }
  }

  /** bread of a block that no stuck buffer holds: it needs a buffer that is not stuck. */
  method ReadFree(bc: Bcache, k: Key, me: nat, ghost rd: set<int>) returns (r: Option<nat>)
    requires Quiet(bc, rd, {}) && bc.Sound() && k in bc.disk && NotStuck(bc, rd, k)
    modifies bc`buf, bc`refs
    ensures r.Some? <==> Spare(bc, rd)
    ensures r.Some? ==>
              && Quiet(bc, rd, {r.value}) && r.value < bc.n && r.value !in bc.dirty && r.value !in Stuck(bc, rd)
              && bc.refs[r.value] == 1
    ensures r.Some? ==>
              var b := bc.buf[r.value]; b.key == k && b.valid && b.holder == Some(me) && b.data == bc.contents[k]
    ensures r.Some? ==> forall j :: 0 <= j < bc.n && j != r.value ==> bc.buf[j] == old(bc.buf)[j]
  {
    r := ReadBlock(bc, k, me, {}, rd);
    if r.Some? {
      assert {} + {r.value} == {r.value};
    }
  }

  /** The rest of write_head on the held header buffer. */
  method HeaderHeld(bc: Bcache, b: nat, bs: seq<nat>, me: nat, ghost rd: set<int>)
    requires Quiet(bc, rd, {b}) && b < bc.n && b !in bc.dirty && bc.refs[b] == 1 && bc.buf[b].valid
    requires bc.buf[b].holder == Some(me) && |bs| <= LOGSIZE
    modifies bc`buf, bc`refs, bc`next, bc`prev, bc`order, bc`disk, bc`contents, bc`dirty, bc`writes
    ensures Quiet(bc, rd, {})
    ensures forall i :: 0 <= i < bc.n ==> bc.buf[i].key == old(bc.buf)[i].key
    ensures var k, d := old(bc.buf)[b].key, HeaderOf(old(bc.buf)[b].data, bs);
            && bc.disk == old(bc.disk)[k := d] && bc.contents == old(bc.contents)[k := d]
            && bc.writes == old(bc.writes) + [(k, d)]
  {
    var h := FillHeader(bc.buf[b].data, bs);
    WriteThrough(bc, b, h, me, {b}, rd);
    assert {} + {b} == {b};
    ReleaseBlock(bc, b, me, {}, rd);
  }

  /** One more of the writes ws is made. */
  lemma NextWrite(w0: Writes, ws: Writes, t: nat, was: Writes, now: Writes)
    requires t < |ws| && was == w0 + ws[..t] && now == was + [ws[t]]
    ensures now == w0 + ws[..t + 1]
  {
    assert ws[..t + 1] == ws[..t] + [ws[t]];
  }

  /** The writes of a commit that stops in its first phase. */
  lemma PhaseFirst(l: Layout, before: Block, bs: seq<nat>, datas: seq<Block>, w0: Writes, w1: Writes, j: nat)
    requires |bs| == |datas| <= LOGSIZE && j <= |bs| && w1 == w0 + SlotWrites(l, datas)[..j]
    ensures w1 == w0 + CommitWrites(l, before, bs, datas)[..j]
  {
    assert CommitWrites(l, before, bs, datas)[..j] == SlotWrites(l, datas)[..j];
  }

  /** The writes of a whole commit, phase by phase. */
  lemma PhaseAll(l: Layout, before: Block, bs: seq<nat>, datas: seq<Block>, w0: Writes, w1: Writes, w2: Writes, j: nat)
    requires |bs| == |datas| <= LOGSIZE && j == 2 * |bs| + 2
    requires w1 == w0 + SlotWrites(l, datas)[..|bs|] + [(Hdr(l), HeaderOf(before, bs))]
    requires w2 == w1 + HomeWrites(l, bs, datas)[..|bs|] + [(Hdr(l), HeaderOf(HeaderOf(before, bs), []))]
    ensures |CommitWrites(l, before, bs, datas)| == j && w2 == w0 + CommitWrites(l, before, bs, datas)[..j]
  {
    var m, all := |bs|, CommitWrites(l, before, bs, datas);
    assert all[..2 * m + 2] == all && SlotWrites(l, datas)[..m] == SlotWrites(l, datas);
    assert HomeWrites(l, bs, datas)[..m] == HomeWrites(l, bs, datas);
  }

  lemma RecoveryShape(w0: Writes, a: Writes, x: (Key, Block))
    ensures forall j :: 0 <= j <= |a| ==> w0 + (a + [x])[..j] == w0 + a[..j]
    ensures w0 + (a + [x])[..|a| + 1] == w0 + a[..|a|] + [x]
  {
    forall j | 0 <= j <= |a| ensures w0 + (a + [x])[..j] == w0 + a[..j] {
      assert (a + [x])[..j] == a[..j];
    }
  }

  lemma ApplyLast(d: Disk, a: Writes, x: (Key, Block))
    ensures Apply(d, a + [x]) == Apply(d, a)[x.0 := x.1]
  {
    assert (a + [x])[..|a|] == a;
  }

  /** The first t slots hold the first t of datas. */
  ghost predicate SlotsHold(c: Disk, l: Layout, datas: seq<Block>, t: nat) {
    t <= |datas| && forall i :: 0 <= i < t ==> Slot(l, i) in c && c[Slot(l, i)] == datas[i]
  }

  /** Writing inside the log changes no home block. */
  lemma LogWriteKeepsHome(l: Layout, c0: Disk, c: Disk, k: Key, d: Block)
    requires SameHome(l, c0, c) && InLog(l, k) && k in c
    ensures SameHome(l, c0, c[k := d])
  {
  }

  /** The home blocks bs read datas. */
  ghost predicate HomesHold(c: Disk, l: Layout, bs: seq<nat>, datas: seq<Block>) {
    |bs| == |datas| && forall t :: 0 <= t < |bs| ==> Key(l.dev, bs[t]) in c && c[Key(l.dev, bs[t])] == datas[t]
  }

  /** Writing the header after the slots keeps slots and home blocks. */
  lemma HeaderAfterSlots(l: Layout, c0: Disk, c: Disk, h: Block, bs: seq<nat>, datas: seq<Block>)
    requires Logging(l, c0, c, datas, |datas|) && InLog(l, Hdr(l)) && HomesHold(c0, l, bs, datas) && HomesOk(l, c0, bs)
    ensures var c' := c[Hdr(l) := h];
            SameHome(l, c0, c') && SlotsHold(c', l, datas, |datas|) && HomesHold(c', l, bs, datas)
  {
  }

  /** Where write_log stands after t blocks: the slots hold them, and nothing else has changed since c0. */
  ghost predicate Logging(l: Layout, c0: Disk, c: Disk, datas: seq<Block>, t: nat) {
    SameHome(l, c0, c) && SlotsHold(c, l, datas, t) && Hdr(l) in c && Hdr(l) in c0 && c[Hdr(l)] == c0[Hdr(l)]
  }

  lemma LoggingStep(l: Layout, c0: Disk, c: Disk, datas: seq<Block>, t: nat)
    requires Logging(l, c0, c, datas, t) && t < |datas| && Slot(l, t) in c && InLog(l, Slot(l, t))
    ensures Logging(l, c0, c[Slot(l, t) := datas[t]], datas, t + 1)
  {
  }

  lemma ApplyStep(d: Disk, ws: Writes, t: nat)
    requires t < |ws|
    ensures Apply(d, ws[..t + 1]) == Apply(d, ws[..t])[ws[t].0 := ws[t].1]
  {
    assert ws[..t + 1][..t] == ws[..t];
  }

  ghost predicate PinnedIn(buf: seq<Buf>, pinned: set<int>, k: Key) {
    exists i :: 0 <= i < |buf| && i in pinned && buf[i].key == k
  }

  /** The pinned buffers of a device are exactly those of the blocks bs. */
  ghost predicate PinsIn(dev: nat, bs: seq<nat>, buf: seq<Buf>, pinned: set<int>) {
    && (forall i :: i in pinned && 0 <= i < |buf| && buf[i].key.dev == dev ==> buf[i].key.blockno in bs)
    && (forall t :: 0 <= t < |bs| ==> PinnedIn(buf, pinned, Key(dev, bs[t])))
  }

  lemma PinsAdd(dev: nat, bs: seq<nat>, buf0: seq<Buf>, buf: seq<Buf>, pinned: set<int>, b: nat, blockno: nat)
    requires PinsIn(dev, bs, buf0, pinned) && b < |buf| == |buf0| && buf[b].key == Key(dev, blockno)
    requires forall i :: 0 <= i < |buf| ==> buf[i].key == buf0[i].key
    ensures PinsIn(dev, bs + [blockno], buf, pinned + {b})
  {
    var more := bs + [blockno];
    forall t | 0 <= t < |more| ensures PinnedIn(buf, pinned + {b}, Key(dev, more[t])) {
      if t < |bs| {
        assert PinnedIn(buf0, pinned, Key(dev, bs[t]));
        var i :| 0 <= i < |buf0| && i in pinned && buf0[i].key == Key(dev, bs[t]);
        assert i in pinned + {b} && buf[i].key == Key(dev, more[t]);
      } else {
        assert b in pinned + {b};
      }
    }
  }

  /** A pinned buffer for each of the blocks bs. */
  lemma Witnesses(dev: nat, bs: seq<nat>, buf: seq<Buf>, pinned: set<int>) returns (w: seq<int>)
    requires forall t :: 0 <= t < |bs| ==> PinnedIn(buf, pinned, Key(dev, bs[t]))
    ensures |w| == |bs|
    ensures forall t :: 0 <= t < |bs| ==> 0 <= w[t] < |buf| && w[t] in pinned && buf[w[t]].key == Key(dev, bs[t])
  {
    w := [];
    while |w| < |bs|
      invariant |w| <= |bs|
      invariant forall t :: 0 <= t < |w| ==> 0 <= w[t] < |buf| && w[t] in pinned && buf[w[t]].key == Key(dev, bs[t])
    {
      assert PinnedIn(buf, pinned, Key(dev, bs[|w|]));
      var i :| 0 <= i < |buf| && i in pinned && buf[i].key == Key(dev, bs[|w|]);
      w := w + [i];
    }
  }

  /** Of the first done blocks of bs, each has its own buffer in leaked. */
  ghost predicate LeakedIn(l: Layout, bs: seq<nat>, buf: seq<Buf>, leaked: set<int>, done: nat) {
    && |leaked| == done <= |bs|
    && (forall i :: i in leaked && 0 <= i < |buf| ==> buf[i].key.dev == l.dev && buf[i].key.blockno in bs[..done])
  }

  lemma LeakedNext(l: Layout, bs: seq<nat>, buf0: seq<Buf>, buf: seq<Buf>, leaked: set<int>, i: int, done: nat)
    requires LeakedIn(l, bs, buf0, leaked, done) && done < |bs| && |buf| == |buf0|
    requires i !in leaked && 0 <= i < |buf| && buf[i].key == Key(l.dev, bs[done])
    requires forall j :: j in leaked && 0 <= j < |buf| ==> buf[j].key == buf0[j].key
    ensures LeakedIn(l, bs, buf, leaked + {i}, done + 1)
  {
    assert bs[..done + 1] == bs[..done] + [bs[done]];
  }

  /** No other process holds a block of the log or one of bs. */
  ghost predicate AsideIn(l: Layout, bs: seq<nat>, buf: seq<Buf>, rd: set<int>) {
    forall i :: i in rd && 0 <= i < |buf| && buf[i].key.dev == l.dev ==>
                  !InLog(l, buf[i].key) && buf[i].key.blockno !in bs
  }

  /** The log's blocks and the home blocks bs are there, and the cache is not ahead of the log's. */
  ghost predicate LogWhole(l: Layout, bs: seq<nat>, disk: Disk, contents: Disk) {
    && |bs| < l.size && Hdr(l) in disk && (forall i :: 0 <= i < l.size - 1 ==> Slot(l, i) in disk)
    && HomesOk(l, disk, bs) && contents.Keys == disk.Keys
    && (forall k :: k in disk && InLog(l, k) ==> contents[k] == disk[k])
  }

  /** w[t] is the pinned buffer of block bs[t], for t from done on, and no other buffer of the device is pinned. */
  ghost predicate PinsFrom(l: Layout, bs: seq<nat>, w: seq<int>, done: nat, buf: seq<Buf>, pinned: set<int>) {
    && done <= |bs| == |w|
    && (forall t :: done <= t < |bs| ==> 0 <= w[t] < |buf| && w[t] in pinned && buf[w[t]].key == Key(l.dev, bs[t]))
    && (forall i :: i in pinned && 0 <= i < |buf| && buf[i].key.dev == l.dev ==> i in w[done..])
  }

  /** Nothing changes while pinned and read buffers keep their blocks. */
  lemma CommitKept(l: Layout, bs: seq<nat>, w: seq<int>, done: nat, buf0: seq<Buf>, buf: seq<Buf>, pinned: set<int>,
                   rd: set<int>)
    requires PinsFrom(l, bs, w, done, buf0, pinned) && AsideIn(l, bs, buf0, rd) && |buf| == |buf0|
    requires forall i :: i in pinned + rd && 0 <= i < |buf| ==> buf[i].key == buf0[i].key
    ensures PinsFrom(l, bs, w, done, buf, pinned) && AsideIn(l, bs, buf, rd)
  {
    forall i | i in rd && 0 <= i < |buf| ensures buf[i].key == buf0[i].key {
      assert i in pinned + rd;
    }
    forall i | i in pinned && 0 <= i < |buf| ensures buf[i].key == buf0[i].key {
      assert i in pinned + rd;
    }
  }

  /** Undoing the pin of bs[done]. */
  lemma PinUndone(l: Layout, bs: seq<nat>, w: seq<int>, done: nat, buf: seq<Buf>, pinned: set<int>)
    requires PinsFrom(l, bs, w, done, buf, pinned) && done < |bs| && R.Distinct(bs)
    ensures PinsFrom(l, bs, w, done + 1, buf, pinned - {w[done]})
  {
    DropFirst(w, done);
  }

  /** The contents of the blocks bs of one device, in order. */
  function DatasOf(c: Disk, dev: nat, bs: seq<nat>): seq<Block>
    requires forall t :: 0 <= t < |bs| ==> Key(dev, bs[t]) in c
  {
    seq(|bs|, t requires 0 <= t < |bs| => c[Key(dev, bs[t])])
  }

  class LogState {
    const bc: Bcache
    const l: Layout
    var n: nat                       // lh.n
    var block: seq<nat>              // lh.block
    var outstanding: nat
    var committing: bool
    ghost var ops: seq<set<nat>>     // operations in progress
    ghost var readers: set<int>      // buffers that other processes hold, to read them, while the log is at work

    /** The pinned buffers of this device are exactly those of the logged blocks. */
    ghost predicate PinsMatch()
      reads `n, `block, bc
    {
      bc.Valid() && n <= |block| && PinsIn(l.dev, block[..n], bc.buf, bc.pinned)
    }

    ghost predicate Header()
      reads `n, `block
    {
      |block| == LOGSIZE && n <= LOGSIZE && R.Distinct(block[..n])
    }

    ghost predicate DiskOk()
      reads `n, `block, bc`disk, bc`contents
    {
      && LogOk(l, bc.disk) && bc.disk[Hdr(l)][0] == 0
      && n <= |block| && HomesOk(l, bc.disk, block[..n])
      && (forall k :: k in bc.disk && InLog(l, k) && k in bc.contents ==> bc.contents[k] == bc.disk[k])
    }

    ghost predicate Reserved()
      reads `n, `block, `ops, `outstanding, `committing
    {
      |ops| == outstanding && (committing ==> outstanding == 0) && n <= |block| && R.Reserved(block[..n], ops)
    }

    ghost predicate Valid()
      reads `n, `block, `ops, `outstanding, `committing, bc
    {
      Header() && DiskOk() && PinsMatch() && Reserved() && bc.leaked == {}
    }

    constructor (bc: Bcache, l: Layout)
      ensures this.bc == bc && this.l == l && n == 0 && |block| == LOGSIZE && outstanding == 0 && !committing
      ensures ops == [] && readers == {}
    {
      this.bc, this.l := bc, l;
      n, block, outstanding, committing, ops, readers := 0, seq(LOGSIZE, _ => 0), 0, false, [], {};
    }

    /** One pass of begin_op's loop: false means it sleeps and tries again. */
    method BeginOp() returns (ok: bool)
      requires Valid()
      modifies this`outstanding, this`ops
      ensures Valid()
      ensures ok <==> !old(committing) && R.Admits(n, old(outstanding))
      ensures ok <==> !old(committing) && n + 10 * (old(outstanding) + 1) <= 30
      ensures outstanding == if ok then old(outstanding) + 1 else old(outstanding)
      ensures ops == if ok then old(ops) + [{}] else old(ops)
    {
      if committing {
        ok := false;
      } else if n + (outstanding + 1) * MAXOPBLOCKS > LOGSIZE {
        ok := false;
      } else {
        outstanding := outstanding + 1;
        R.BeginReserved(block[..n], ops);
        ops := ops + [{}];
        ok := true;
      }
    }

    /** end_op up to the release of the lock: the last operation turns the commit over to its caller. */
    method EndOp(ghost op: nat) returns (doCommit: bool)
      requires Valid() && op < |ops|
      modifies this`outstanding, this`ops, this`committing
      ensures Valid() && !old(committing)
      ensures ops == R.Without(old(ops), op)
      ensures doCommit <==> outstanding == 0
      ensures committing <==> doCommit
    {
      R.EndReserved(block[..n], ops, op);
      outstanding := outstanding - 1;
      ops := R.Without(ops, op);
      if outstanding == 0 {
        doCommit := true;
        committing := true;
      } else {
        doCommit := false;
      }
    }

    /** The scan of log_write. */
    method FindLogged(b: nat) returns (i: nat)
      requires Header()
      ensures i <= n && (i < n ==> block[i] == b) && (i == n <==> b !in block[..n])
    {
      i := 0;
      while i < n
        invariant i <= n && b !in block[..i]
      {
        if block[i] == b {
          return;
        }
        i := i + 1;
      }
    }

    /** The tests at the top of log_write, made without the lock: what they see may change before the lock is taken. */
    method CheckRoom() returns (panic: bool)
      requires Valid()
      ensures panic <==> !R.HasRoom(n, l.size) || outstanding < 1
    {
      panic := n >= LOGSIZE || n >= l.size - 1 || outstanding < 1;
    }

    /** log_write from acquire to release, on a held buffer, by operation op. Whatever others have logged since the
        tests, op's own reservation is room enough: the block is pinned and listed once, and no store goes behind
        lh.block. */
    method Absorb(b: nat, me: nat, ghost op: nat)
      requires Valid() && op < |ops| && b < bc.n
      requires bc.buf[b].valid && bc.refs[b] > 0 && bc.buf[b].holder == Some(me)
      requires bc.buf[b].key.dev == l.dev && !InLog(l, bc.buf[b].key)
      requires |ops[op] + {bc.buf[b].key.blockno}| <= MAXOPBLOCKS
      modifies this`n, this`block, this`ops, bc`buf, bc`pinned, bc`dirty
      ensures Valid() && b !in bc.dirty && b in bc.pinned
      ensures block[..n] == R.Added(old(block[..n]), old(bc.buf)[b].key.blockno)
      ensures ops == old(ops)[op := old(ops)[op] + {old(bc.buf)[b].key.blockno}]
      ensures bc.dirty == old(bc.dirty) - {b} && bc.pinned == old(bc.pinned) + {b}
      ensures BumpedOnly(old(bc.buf), bc.buf, b)
    {
      var blockno := bc.buf[b].key.blockno;
      R.AddReserved(block[..n], ops, op, blockno);
      Store(b, blockno);
      ops := ops[op := ops[op] + {blockno}];
    }

    /** Only buffer b may differ, and only in its count. */
    static ghost predicate BumpedOnly(was: seq<Buf>, now: seq<Buf>, b: nat) {
      && |now| == |was| && b < |was|
      && forall i :: 0 <= i < |was| ==> now[i] == if i == b then was[i].(refcnt := now[i].refcnt) else was[i]
    }

    /** log_write, run without interruption: it panics exactly when the log looks full, and otherwise never fills more
        slots than the log has. */
    method LogWrite(b: nat, me: nat, ghost op: nat) returns (panic: bool)
      requires Valid() && op < |ops| && b < bc.n
      requires bc.buf[b].valid && bc.refs[b] > 0 && bc.buf[b].holder == Some(me)
      requires bc.buf[b].key.dev == l.dev && !InLog(l, bc.buf[b].key)
      requires |ops[op] + {bc.buf[b].key.blockno}| <= MAXOPBLOCKS
      modifies this`n, this`block, this`ops, bc`buf, bc`pinned, bc`dirty
      ensures Valid()
      ensures panic <==> !R.HasRoom(old(n), l.size)
      ensures panic && l.size > LOGSIZE ==> old(n) == LOGSIZE && old(bc.buf)[b].key.blockno in block[..n]
      ensures panic ==> n == old(n) && block == old(block) && ops == old(ops) && bc.pinned == old(bc.pinned)
      ensures panic ==> bc.buf == old(bc.buf) && bc.dirty == old(bc.dirty)
      ensures !panic ==> n < l.size && block[..n] == R.Added(old(block[..n]), old(bc.buf)[b].key.blockno)
      ensures !panic ==> ops == old(ops)[op := old(ops)[op] + {old(bc.buf)[b].key.blockno}]
      ensures !panic ==> bc.dirty == old(bc.dirty) - {b} && bc.pinned == old(bc.pinned) + {b}
      ensures !panic ==> BumpedOnly(old(bc.buf), bc.buf, b)
    {
      R.AddReserved(block[..n], ops, op, bc.buf[b].key.blockno);
      panic := CheckRoom();
      if !panic {
        Absorb(b, me, op);
        assert |block[..n]| == n;
      }
    }

    /** Every logged block has a slot inside the log: exactly then does write_log stay inside it. */
    lemma SlotsInLogIff()
      requires n > 0
      ensures (forall t :: 0 <= t < n ==> InLog(l, Slot(l, t))) <==> n < l.size
    {
      assert InLog(l, Slot(l, n - 1)) <==> n < l.size;
    }

    /** With more than LOGSIZE blocks, whatever the interleaving, every logged block has a slot. */
    lemma LargeLogFits()
      requires Valid() && l.size > LOGSIZE
      ensures n < l.size
    {
    }

    /** The scan and the stores of log_write: an already logged block is absorbed, a new one added. */
    method Store(b: nat, blockno: nat)
      requires Header() && DiskOk() && PinsMatch() && bc.leaked == {} && (blockno !in block[..n] ==> n < LOGSIZE)
      requires b < bc.n && bc.buf[b].valid && bc.refs[b] > 0 && bc.buf[b].key == Key(l.dev, blockno)
      requires !InLog(l, bc.buf[b].key)
      modifies this`n, this`block, bc`buf, bc`pinned, bc`dirty
      ensures Header() && DiskOk() && PinsMatch()
      ensures block[..n] == R.Added(old(block[..n]), blockno)
      ensures bc.dirty == old(bc.dirty) - {b} && bc.pinned == old(bc.pinned) + {b}
      ensures BumpedOnly(old(bc.buf), bc.buf, b)
    {
      var i := FindLogged(blockno);
      if i == n {
        AddBlock(b, blockno);
      } else {
        block := block[i := blockno];
        assert block == old(block);
        LoggedIsPinned(b);
      }
    }

    /** A logged block's buffer in use is the pinned one. */
    lemma LoggedIsPinned(b: nat)
      requires Header() && PinsMatch() && b < bc.n && bc.refs[b] > 0 && bc.buf[b].key.dev == l.dev
      requires bc.buf[b].key.blockno in block[..n]
      ensures b in bc.pinned && b !in bc.dirty
    {
      var t :| 0 <= t < n && block[t] == bc.buf[b].key.blockno;
      assert PinnedIn(bc.buf, bc.pinned, Key(l.dev, block[..n][t]));
      var i :| 0 <= i < bc.n && i in bc.pinned && bc.buf[i].key == Key(l.dev, block[t]);
      assert bc.OkBuf(i);
      bc.OneBufferPerBlock(i, b);
    }

    /** log_write of a block not yet in the log: it takes the next slot and is pinned. */
    method AddBlock(b: nat, blockno: nat)
      requires Header() && DiskOk() && PinsMatch() && bc.leaked == {} && n < LOGSIZE
      requires b < bc.n && bc.buf[b].valid && bc.refs[b] > 0 && bc.buf[b].key == Key(l.dev, blockno)
      requires !InLog(l, bc.buf[b].key) && blockno !in block[..n]
      modifies this`n, this`block, bc`buf, bc`pinned, bc`dirty
      ensures Header() && DiskOk() && PinsMatch() && bc.leaked == {}
      ensures n == old(n) + 1 && block[..n] == old(block[..n]) + [blockno]
      ensures bc.pinned == old(bc.pinned) + {b} && bc.dirty == old(bc.dirty) - {b}
      ensures BumpedOnly(old(bc.buf), bc.buf, b)
    {
      assert b !in bc.pinned;
      assert bc.OkBuf(b);
      bc.Bpin(b);
      block := block[n := blockno];
      n := n + 1;
      assert block[..n] == old(block[..n]) + [blockno];
      PinsAdd(l.dev, old(block[..n]), old(bc.buf), bc.buf, old(bc.pinned), b, blockno);
    }

    ghost predicate Aside()
      reads `n, `block, `readers, bc`buf
    {
      n <= |block| && AsideIn(l, block[..n], bc.buf, readers)
    }

    /** What holds between the phases of a commit: w[t] is the pinned buffer of logged block t, for t from done on. */
    ghost predicate InCommit(w: seq<int>, done: nat)
      reads `n, `block, `readers, bc
    {
      && Header() && Quiet(bc, readers, {}) && bc.leaked == {} && LogWhole(l, block[..n], bc.disk, bc.contents)
      && PinsFrom(l, block[..n], w, done, bc.buf, bc.pinned) && AsideIn(l, block[..n], bc.buf, readers)
    }

    /** There is a pinned buffer for every logged block. */
    lemma PinnedCount()
      requires Header() && PinsMatch()
      ensures n <= |bc.pinned|
    {
      var w := Witnesses(l.dev, block[..n], bc.buf, bc.pinned);
      forall s, t | 0 <= s < t < n ensures w[s] != w[t] {
        assert block[..n][s] != block[..n][t];
      }
      var all := set t | 0 <= t < n :: w[t];
      DistinctCount(w, n);
      SmallerSet(all, bc.pinned);
    }

    lemma StartCommit(w: seq<int>)
      requires Valid() && n < l.size && Quiet(bc, readers, {}) && Aside() && |w| == n
      requires forall s ::
                 0 <= s < n ==> 0 <= w[s] < bc.n && w[s] in bc.pinned && bc.buf[w[s]].key == Key(l.dev, block[s])
      ensures InCommit(w, 0)
    {
      forall i | i in bc.pinned && bc.buf[i].key.dev == l.dev ensures i in w[0..] {
        assert bc.buf[i].key.blockno in block[..n];
        var t :| 0 <= t < n && block[t] == bc.buf[i].key.blockno;
        assert bc.OkBuf(i) && bc.OkBuf(w[t]);
        bc.OneBufferPerBlock(i, w[t]);
      }
    }

    lemma SlotsFree(w: seq<int>, done: nat, k: Key)
      requires InCommit(w, done) && InLog(l, k)
      ensures NotStuck(bc, readers, k) && Stuck(bc, readers) == bc.pinned + readers
    {
      forall i | i in Stuck(bc, readers) ensures bc.buf[i].key != k {
        if bc.buf[i].key.dev == l.dev && i in bc.pinned {
          assert i in w[done..];
          var t :| 0 <= t < |w[done..]| && w[done..][t] == i;
          assert block[..n][done + t] == block[done + t];
        }
      }
    }

    /** The slot and the home block of logged block t, and the buffer pinned for it. */
    lemma AtBlock(w: seq<int>, done: nat, t: nat)
      requires InCommit(w, done) && done <= t < n
      ensures var slot, home := Slot(l, t), Key(l.dev, block[t]);
              && slot in bc.disk && home in bc.disk && slot in bc.contents && home in bc.contents && slot != home
              && InLog(l, slot) && !InLog(l, home) && NotStuck(bc, readers, slot)
              && (forall i :: i in readers ==> 0 <= i < bc.n && bc.buf[i].key != home)
              && w[t] in bc.pinned && 0 <= w[t] < bc.n && bc.buf[w[t]].key == home
    {
      assert block[..n][t] == block[t];
      SlotsFree(w, done, Slot(l, t));
    }

    /** One turn of write_log's loop. */
    method LogOne(tail: nat, me: nat, ghost w: seq<int>) returns (ok: bool)
      requires InCommit(w, 0) && tail < n
      modifies bc`buf, bc`refs, bc`next, bc`prev, bc`order, bc`disk, bc`contents, bc`dirty, bc`writes
      ensures Key(l.dev, block[tail]) in old(bc.contents)
      ensures Spare(bc, readers) ==> ok
      ensures ok ==> InCommit(w, 0)
      ensures ok ==> var d := old(bc.contents)[Key(l.dev, block[tail])];
                     && bc.contents == old(bc.contents)[Slot(l, tail) := d]
                     && bc.writes == old(bc.writes) + [(Slot(l, tail), d)]
                     && bc.disk == old(bc.disk)[Slot(l, tail) := d]
      ensures !ok ==> bc.writes == old(bc.writes)
      ensures bc.Journal()
    {
      var slot, home := Slot(l, tail), Key(l.dev, block[tail]);
      AtBlock(w, 0, tail);
      ok := CopyToSlot(bc, slot, home, me, readers, w[tail]);
      if ok {
        CommitKept(l, block[..n], w, 0, old(bc.buf), bc.buf, bc.pinned, readers);
      }
    }

    /** Where write_log stands after t blocks, having started with contents c0 and writes w0. */
    ghost predicate LoggedUpTo(w: seq<int>, datas: seq<Block>, c0: Disk, w0: Writes, t: nat)
      reads this, bc
    {
      && InCommit(w, 0) && t <= n == |datas| && HomesHold(c0, l, block[..n], datas)
      && bc.writes == w0 + SlotWrites(l, datas)[..t] && Logging(l, c0, bc.contents, datas, t)
    }

    /** A turn of write_log's loop. */
    method LogNext(tail: nat, me: nat, ghost w: seq<int>, ghost datas: seq<Block>, ghost c0: Disk, ghost w0: Writes)
      returns (ok: bool)
      requires LoggedUpTo(w, datas, c0, w0, tail) && tail < n
      modifies bc`buf, bc`refs, bc`next, bc`prev, bc`order, bc`disk, bc`contents, bc`dirty, bc`writes
      ensures Spare(bc, readers) ==> ok
      ensures bc.Journal() && if ok then LoggedUpTo(w, datas, c0, w0, tail + 1) else bc.writes == old(bc.writes)
    {
      ghost var ws := SlotWrites(l, datas);
      assert Slot(l, tail) in bc.disk && InLog(l, Slot(l, tail));
      LoggingStep(l, c0, bc.contents, datas, tail);
      assert bc.contents[Key(l.dev, block[tail])] == datas[tail] by {
        assert !InLog(l, Key(l.dev, block[..n][tail])) && c0[Key(l.dev, block[..n][tail])] == datas[tail];
      }
      ok := LogOne(tail, me, w);
      if ok {
        NextWrite(w0, ws, tail, old(bc.writes), bc.writes);
      }
    }

    lemma SlotsWritten(w: seq<int>, datas: seq<Block>)
      requires InCommit(w, 0) && |datas| == n && SlotsHold(bc.contents, l, datas, n)
      ensures SlotsOnDisk(l, bc.disk, datas)
    {
      forall i | 0 <= i < |datas| ensures SlotOnDisk(l, bc.disk, i, datas[i]) {
        assert Slot(l, i) in bc.disk && InLog(l, Slot(l, i));
      }
    }

    /** write_log. Either every logged block is copied to its slot, or the cache had nothing left to recycle. */
    method WriteLog(me: nat, ghost w: seq<int>, ghost datas: seq<Block>) returns (ok: bool, ghost j: nat)
      requires InCommit(w, 0)
      requires |datas| == n && HomesHold(bc.contents, l, block[..n], datas)
      modifies bc`buf, bc`refs, bc`next, bc`prev, bc`order, bc`disk, bc`contents, bc`dirty, bc`writes
      ensures bc.Journal() && j <= n && bc.writes == old(bc.writes) + SlotWrites(l, datas)[..j]
      ensures Spare(bc, readers) ==> ok
      ensures ok ==> j == n && InCommit(w, 0) && Logging(l, old(bc.contents), bc.contents, datas, n)
      ensures ok ==> SlotsOnDisk(l, bc.disk, datas)
    {
      var tail := 0;
      ok, j := true, 0;
      assert SlotWrites(l, datas)[..0] == [];
      while tail < n
        invariant 0 <= tail == j <= n && LoggedUpTo(w, datas, old(bc.contents), old(bc.writes), tail)
      {
        ok := LogNext(tail, me, w, datas, old(bc.contents), old(bc.writes));
        if !ok {
          return;
        }
        tail, j := tail + 1, j + 1;
      }
      SlotsWritten(w, datas);
    }

    /** One turn of install_trans's loop after a commit: the home block's pin is undone. */
    method InstallOne(tail: nat, me: nat, ghost w: seq<int>) returns (ok: bool)
      requires InCommit(w, tail) && tail < n
      modifies bc
      ensures Slot(l, tail) in old(bc.contents)
      ensures old(Spare(bc, readers)) ==> ok
      ensures ok ==> InCommit(w, tail + 1) && (old(Spare(bc, readers)) ==> Spare(bc, readers))
      ensures ok ==> var d, home := old(bc.contents)[Slot(l, tail)], Key(l.dev, block[tail]);
                     && bc.contents == old(bc.contents)[home := d] && bc.writes == old(bc.writes) + [(home, d)]
                     && bc.disk == old(bc.disk)[home := d]
      ensures !ok ==> bc.writes == old(bc.writes)
      ensures bc.Journal()
    {
      var slot, home := Slot(l, tail), Key(l.dev, block[tail]);
      AtBlock(w, tail, tail);
      ok := InstallPinned(bc, slot, home, me, readers, w[tail]);
      if ok {
        CommitKept(l, block[..n], w, tail, old(bc.buf), bc.buf, old(bc.pinned), readers);
        PinUndone(l, block[..n], w, tail, bc.buf, old(bc.pinned));
      }
      assert ok ==> Stuck(bc, readers) <= old(Stuck(bc, readers));
    }

    /** Where install_trans stands after t blocks, having started with contents c0 and writes w0, and a
        buffer to spare if sp. */
    ghost predicate InstalledUpTo(w: seq<int>, datas: seq<Block>, c0: Disk, w0: Writes, sp: bool, t: nat)
      reads this, bc
    {
      && InCommit(w, t) && |datas| == n && SlotsHold(c0, l, datas, n) && HomesHold(c0, l, block[..n], datas)
      && bc.writes == w0 + HomeWrites(l, block[..n], datas)[..t] && bc.contents == c0
      && (sp ==> Spare(bc, readers))
    }

    /** A turn of its loop. */
    method InstallNext(tail: nat, me: nat, ghost w: seq<int>, ghost datas: seq<Block>, ghost c0: Disk, ghost w0: Writes,
                       ghost sp: bool) returns (ok: bool)
      requires InstalledUpTo(w, datas, c0, w0, sp, tail) && tail < n
      modifies bc
      ensures bc.Journal()
      ensures sp ==> ok
      ensures if ok then InstalledUpTo(w, datas, c0, w0, sp, tail + 1) else bc.writes == old(bc.writes)
    {
      ghost var ws := HomeWrites(l, block[..n], datas);
      ghost var d := bc.contents[Slot(l, tail)];
      assert block[..n][tail] == block[tail] && d == datas[tail];
      ok := InstallOne(tail, me, w);
      if ok {
        NextWrite(w0, ws, tail, old(bc.writes), bc.writes);
      }
    }

    /** install_trans at the end of a commit: home blocks on disk now equal the cache, which nobody saw change. */
    method InstallTrans(me: nat, ghost w: seq<int>, ghost datas: seq<Block>) returns (ok: bool, ghost j: nat)
      requires InCommit(w, 0) && |datas| == n && SlotsHold(bc.contents, l, datas, n)
      requires HomesHold(bc.contents, l, block[..n], datas)
      modifies bc
      ensures bc.Journal()
      ensures j <= n && bc.writes == old(bc.writes) + HomeWrites(l, block[..n], datas)[..j]
      ensures old(Spare(bc, readers)) ==> ok
      ensures ok ==> j == n && InCommit(w, n) && bc.contents == old(bc.contents)
      ensures ok && old(Spare(bc, readers)) ==> Spare(bc, readers)
    {
      var tail := 0;
      ok, j := true, 0;
      assert HomeWrites(l, block[..n], datas)[..0] == [];
      while tail < n
        invariant 0 <= tail == j <= n
        invariant InstalledUpTo(w, datas, old(bc.contents), old(bc.writes), old(Spare(bc, readers)), tail)
      {
        ok := InstallNext(tail, me, w, datas, old(bc.contents), old(bc.writes), old(Spare(bc, readers)));
        if !ok {
          return;
        }
        tail, j := tail + 1, j + 1;
      }
    }

    /** write_head during a commit. */
    method WriteHead(bs: seq<nat>, me: nat, ghost w: seq<int>, ghost done: nat) returns (ok: bool)
      requires InCommit(w, done) && |bs| <= LOGSIZE
      modifies bc`buf, bc`refs, bc`next, bc`prev, bc`order, bc`disk, bc`contents, bc`dirty, bc`writes
      ensures ok <==> Spare(bc, readers)
      ensures ok ==> InCommit(w, done)
      ensures ok ==> var d := HeaderOf(old(bc.contents)[Hdr(l)], bs);
                     && bc.contents == old(bc.contents)[Hdr(l) := d] && bc.writes == old(bc.writes) + [(Hdr(l), d)]
                     && bc.disk == old(bc.disk)[Hdr(l) := d] && HeaderOnDisk(l, bc.disk, bs)
      ensures !ok ==> bc.writes == old(bc.writes)
      ensures bc.Journal()
    {
      assert InLog(l, Hdr(l));
      SlotsFree(w, done, Hdr(l));
      ok := PutHeader(bc, Hdr(l), bs, me, readers);
      if ok {
        CommitKept(l, block[..n], w, done, old(bc.buf), bc.buf, bc.pinned, readers);
      }
    }

    /** The first half of commit: slots, then the header that makes them count. */
    method Prepare(me: nat, ghost w: seq<int>, ghost before: Block, ghost datas: seq<Block>)
      returns (ok: bool, ghost j: nat)
      requires InCommit(w, 0) && |datas| == n && bc.contents[Hdr(l)] == before
      requires HomesHold(bc.contents, l, block[..n], datas)
      modifies bc`buf, bc`refs, bc`next, bc`prev, bc`order, bc`disk, bc`contents, bc`dirty, bc`writes
      ensures bc.Journal()
      ensures j <= n && (!ok ==> bc.writes == old(bc.writes) + SlotWrites(l, datas)[..j])
      ensures ok ==> bc.writes == old(bc.writes) + SlotWrites(l, datas)[..n] + [(Hdr(l), HeaderOf(before, block[..n]))]
      ensures (ok <==> old(Spare(bc, readers))) && (ok ==> Spare(bc, readers))
      ensures ok ==>
                && j == n && InCommit(w, 0) && SameHome(l, old(bc.contents), bc.contents)
                && bc.contents[Hdr(l)] == HeaderOf(before, block[..n])
      ensures ok ==> SlotsHold(bc.contents, l, datas, n)
      ensures ok ==> HomesHold(bc.contents, l, block[..n], datas)
    {
      ok, j := WriteLog(me, w, datas);
      if ok {
        ghost var c := bc.contents;
        ok := WriteHead(block[..n], me, w, 0);
        assert InLog(l, Hdr(l));
        HeaderAfterSlots(l, old(bc.contents), c, HeaderOf(before, block[..n]), block[..n], datas);
      }
    }

    /** The second half of commit: home blocks, then the empty header. */
    method Finish(me: nat, ghost w: seq<int>, ghost datas: seq<Block>) returns (ok: bool, ghost j: nat)
      requires InCommit(w, 0) && |datas| == n && SlotsHold(bc.contents, l, datas, n)
      requires HomesHold(bc.contents, l, block[..n], datas)
      modifies bc
      ensures bc.Journal()
      ensures j <= n && (!ok ==> bc.writes == old(bc.writes) + HomeWrites(l, block[..n], datas)[..j])
      ensures ok ==>
                bc.writes ==
                  old(bc.writes) + HomeWrites(l, block[..n], datas)[..n]
                    + [(Hdr(l), HeaderOf(old(bc.contents)[Hdr(l)], []))]
      ensures old(Spare(bc, readers)) ==> ok
      ensures ok ==> j == n && InCommit(w, n) && SameHome(l, old(bc.contents), bc.contents) && bc.disk[Hdr(l)][0] == 0
    {
      ok, j := InstallTrans(me, w, datas);
      if ok {
        assert InLog(l, Hdr(l));
        LogWriteKeepsHome(l, bc.contents, bc.contents, Hdr(l), HeaderOf(bc.contents[Hdr(l)], []));
        ok := WriteHead([], me, w, n);
      }
    }

    /** The four phases of commit. */
    method Phases(me: nat, ghost w: seq<int>, ghost before: Block, ghost datas: seq<Block>)
      returns (ok: bool, ghost j: nat)
      requires InCommit(w, 0) && |datas| == n && bc.contents[Hdr(l)] == before
      requires HomesHold(bc.contents, l, block[..n], datas)
      modifies bc
      ensures bc.Journal()
      ensures j <= 2 * n + 2 && bc.writes == old(bc.writes) + CommitWrites(l, before, block[..n], datas)[..j]
      ensures ok <==> old(Spare(bc, readers))
      ensures ok ==>
                && j == 2 * n + 2 && InCommit(w, n) && SameHome(l, old(bc.contents), bc.contents)
                && bc.disk[Hdr(l)][0] == 0
    {
      ghost var w0, bs := bc.writes, block[..n];
      ok, j := Prepare(me, w, before, datas);
      if ok {
        ghost var w1 := bc.writes;
        ok, j := Finish(me, w, datas);
        j := 2 * n + 2;
        PhaseAll(l, before, bs, datas, w0, w1, bc.writes, j);
      } else {
        PhaseFirst(l, before, bs, datas, w0, bc.writes, j);
      }
    }

    /** The disk d after the first i writes of a commit recovers to the transaction's state before or after it. */
    static ghost predicate Survives(l: Layout, d: Disk, bs: seq<nat>, datas: seq<Block>, ws: Writes, i: nat) {
      && i <= |ws| && |bs| == |datas| && LogOk(l, Apply(d, ws[..i]))
      && SameHome(l, Recovered(l, Apply(d, ws[..i])), if i <= |bs| then d else Post(l, d, bs, datas))
    }

    /** commit of a log with something in it. */
    method CommitLogged(me: nat, ghost before: Block, ghost datas: seq<Block>)
      returns (ok: bool, ghost j: nat)
      requires Valid() && committing && Quiet(bc, readers, {}) && Aside() && n < l.size
      requires before == bc.disk[Hdr(l)] && datas == DatasOf(bc.contents, l.dev, block[..n])
      modifies this`n, bc
      ensures var ws := CommitWrites(l, before, old(block[..n]), datas);
              j <= |ws| && bc.writes == old(bc.writes) + ws[..j] && (ok ==> j == |ws|)
      ensures bc.Journal()
      ensures ok <==> old(Spare(bc, readers))
      ensures ok ==> Valid() && n == 0 && SameHome(l, old(bc.contents), bc.contents) && Quiet(bc, readers, {})
    {
      ghost var w := Witnesses(l.dev, block[..n], bc.buf, bc.pinned);
      StartCommit(w);
      ok, j := Phases(me, w, before, datas);
      if ok {
        n := 0;
        EndCommit();
      }
    }

    /** commit, by the process that set committing. Its disk writes are a prefix of CommitWrites, and all of them
        exactly when some buffer is neither pinned nor held; then the disk has caught up with what readers see. A crash
        between any two of them leaves a disk that recovers to all of the transaction or to nothing of it. */
    method Commit(me: nat) returns (ok: bool, ghost j: nat, ghost ws: Writes)
      requires Valid() && committing && Quiet(bc, readers, {}) && Aside() && n < l.size
      modifies this`n, bc
      ensures TxnOk(l, old(bc.disk), old(block[..n]), DatasOf(old(bc.contents), l.dev, old(block[..n])))
      ensures ws ==
                if old(n) == 0
                then []
                else CommitWrites(l, old(bc.disk)[Hdr(l)], old(block[..n]),
                       DatasOf(old(bc.contents), l.dev, old(block[..n])))
      ensures j <= |ws| && bc.writes == old(bc.writes) + ws[..j] && bc.disk == Apply(old(bc.disk), ws[..j])
      ensures forall i ::
                0 <= i <= j ==>
                  Survives(l, old(bc.disk), old(block[..n]), DatasOf(old(bc.contents), l.dev, old(block[..n])), ws, i)
      ensures ok <==> old(Spare(bc, readers)) || old(n) == 0
      ensures ok ==> j == |ws| && Valid() && n == 0 && Quiet(bc, readers, {})
      ensures ok ==> SameHome(l, old(bc.contents), bc.contents)
    {
      ghost var d, bs, before := bc.disk, block[..n], bc.disk[Hdr(l)];
      ghost var datas := DatasOf(bc.contents, l.dev, bs);
      ok, j, ws := true, 0, [];
      if n > 0 {
        ws := CommitWrites(l, before, bs, datas);
        ok, j := CommitLogged(me, before, datas);
      }
      ApplyAppend(bc.start, old(bc.writes), ws[..j]);
      CommitSurvives(l, d, bs, datas, ws, j);
    }

    static lemma CommitSurvives(l: Layout, d: Disk, bs: seq<nat>, datas: seq<Block>, ws: Writes, j: nat)
      requires TxnOk(l, d, bs, datas) && j <= |ws|
      requires ws == if bs == [] then [] else CommitWrites(l, d[Hdr(l)], bs, datas)
      ensures forall i :: 0 <= i <= j ==> Survives(l, d, bs, datas, ws, i)
    {
      forall i: nat | i <= j ensures Survives(l, d, bs, datas, ws, i) {
        if bs == [] {
          assert ws[..i] == [];
          EmptyLogRecovers(l, d);
        } else {
          CommitCrash(l, d, bs, datas, i);
        }
      }
    }

    /** With nobody changing a buffer, the disk is behind what readers see only at logged blocks. */
    lemma BehindIsLogged(k: Key)
      requires Valid() && Quiet(bc, readers, {}) && k in bc.disk && k.dev == l.dev && bc.contents[k] != bc.disk[k]
      ensures exists t :: 0 <= t < n && block[t] == k.blockno
    {
      var i: nat :| Bcache.AheadIn(bc.buf, bc.pinned, bc.dirty, i, k);
      assert bc.OkBuf(i);
      assert k.blockno in block[..n];
    }

    /** What the transaction makes of the home blocks is what readers of the cache see before the commit. */
    lemma PostIsContents(k: Key)
      requires Valid() && Quiet(bc, readers, {}) && k in bc.disk && k.dev == l.dev
      ensures var post := Post(l, bc.disk, block[..n], DatasOf(bc.contents, l.dev, block[..n]));
              k in post && post[k] == bc.contents[k]
    {
      var bs := block[..n];
      var ws := HomeWrites(l, bs, DatasOf(bc.contents, l.dev, bs));
      ApplyAt(bc.disk, ws, k);
      LastWritten(ws, k);
      assert forall t :: 0 <= t < n ==> ws[t].0 == Key(l.dev, block[t]);
      if Last(ws, k).Some? {
        LastAmong(ws, k);
      } else if bc.contents[k] != bc.disk[k] {
        BehindIsLogged(k);
      }
    }

    lemma EndCommit()
      requires n == 0 && |block| == LOGSIZE && ops == [] && outstanding == 0
      requires l.size >= 1 && Quiet(bc, readers, {}) && bc.leaked == {}
      requires Hdr(l) in bc.disk && bc.disk[Hdr(l)][0] == 0 && forall i :: 0 <= i < l.size - 1 ==> Slot(l, i) in bc.disk
      requires forall i :: i in bc.pinned ==> bc.buf[i].key.dev != l.dev
      requires forall k :: k in bc.disk && InLog(l, k) ==> bc.contents[k] == bc.disk[k]
      ensures Valid()
    {
      assert Logged(bc.disk[Hdr(l)]) == [];
    }

    /** A commit that does not panic: all its writes are made, and the disk has caught up with what readers see. */
    method CommitAll(me: nat) returns (ok: bool, ghost ws: Writes)
      requires Valid() && committing && Quiet(bc, readers, {}) && Aside() && n < l.size
      modifies this`n, bc
      ensures ok <==> old(Spare(bc, readers)) || old(n) == 0
      ensures ok ==> Valid() && n == 0 && Quiet(bc, readers, {}) && SameHome(l, old(bc.contents), bc.contents)
      ensures ok ==> bc.disk == Apply(old(bc.disk), ws)
      ensures ok ==> forall k :: k in bc.disk && k.dev == l.dev ==> bc.disk[k] == bc.contents[k]
    {
      ghost var j;
      ok, j, ws := Commit(me);
      if ok {
        assert ws[..j] == ws;
        CaughtUp();
      }
    }

    /** end_op of the last operation, as a whole: its transaction is on disk, and begin_op admits operations again. */
    method EndLastOp(me: nat) returns (ok: bool, ghost ws: Writes)
      requires Valid() && |ops| == 1 && Quiet(bc, readers, {}) && Aside() && n < l.size
      modifies this`n, this`outstanding, this`ops, this`committing, bc
      ensures ok <==> old(Spare(bc, readers)) || old(n) == 0
      ensures ok ==> Valid() && n == 0 && ops == [] && Quiet(bc, readers, {}) && !committing && R.Admits(n, outstanding)
      ensures ok ==> SameHome(l, old(bc.contents), bc.contents) && bc.disk == Apply(old(bc.disk), ws)
      ensures ok ==> forall k :: k in bc.disk && k.dev == l.dev ==> bc.disk[k] == bc.contents[k]
    {
      var doCommit := EndOp(0);
      ok, ws := CommitAll(me);
      if ok {
        committing := false;
      }
    }

    /** With nothing logged and nobody changing a buffer, the device is what readers see. */
    lemma CaughtUp()
      requires Valid() && Quiet(bc, readers, {}) && n == 0
      ensures forall k :: k in bc.disk && k.dev == l.dev ==> bc.disk[k] == bc.contents[k]
    {
      forall k | k in bc.disk && k.dev == l.dev ensures bc.disk[k] == bc.contents[k] {
        if bc.disk[k] != bc.contents[k] {
          BehindIsLogged(k);
        }
      }
    }

    /** What holds while recovery installs blocks: done of them are home, each leaving one buffer a reference short. */
    ghost predicate InRecovery(d0: Disk, done: nat)
      reads this, bc
    {
      && Header() && n < l.size && done <= n && readers == {} && Quiet(bc, readers, {}) && bc.Sound() && bc.pinned == {}
      && LogOk(l, d0) && Logged(d0[Hdr(l)]) == block[..n] && HomesOk(l, d0, block[..n])
      && bc.contents == bc.disk && bc.disk.Keys == d0.Keys
      && (forall k :: k in d0 && InLog(l, k) ==> bc.disk[k] == d0[k])
      && LeakedIn(l, block[..n], bc.buf, bc.leaked, done)
    }

    lemma RecoveryFree(d0: Disk, done: nat)
      requires InRecovery(d0, done)
      ensures forall k :: InLog(l, k) ==> NotStuck(bc, readers, k)
      ensures Stuck(bc, readers) == bc.leaked
      ensures done < n ==> forall i :: i in bc.leaked ==> bc.buf[i].key != Key(l.dev, block[done])
    {
      forall k, i | InLog(l, k) && i in Stuck(bc, readers) ensures bc.buf[i].key != k {
        var t :| 0 <= t < done && block[t] == bc.buf[i].key.blockno;
        assert block[..n][t] == block[t];
      }
    }

    /** One turn of install_trans's loop during recovery, where no block is pinned. */
    method ReplayOne(tail: nat, me: nat, ghost d0: Disk) returns (ok: bool)
      requires InRecovery(d0, tail) && tail < n
      modifies bc
      ensures tail + 1 < bc.n ==> ok
      ensures ok ==> InRecovery(d0, tail + 1)
      ensures ok ==> var d, home := d0[Slot(l, tail)], Key(l.dev, block[tail]);
                     bc.disk == old(bc.disk)[home := d] && bc.writes == old(bc.writes) + [(home, d)]
      ensures !ok ==> bc.writes == old(bc.writes)
    {
      var slot, home := Slot(l, tail), Key(l.dev, block[tail]);
      RecoveryFree(d0, tail);
      SpareIff(bc, readers);
      assert InLog(l, slot) && slot in d0;
      assert block[..n][tail] == block[tail];
      ghost var i: int;
      ok, i := InstallBlock(bc, slot, home, me, readers);
      if ok {
        LeakedNext(l, block[..n], old(bc.buf), bc.buf, old(bc.leaked), i, tail);
      }
    }

    /** The loop of read_head. */
    method LoadHeader(h: Block)
      requires |block| == LOGSIZE && h[0] <= LOGSIZE
      modifies this`n, this`block
      ensures |block| == LOGSIZE && n == h[0] && block[..n] == Logged(h)
    {
      n := h[0];
      var i := 0;
      while i < n
        invariant 0 <= i <= n == h[0] <= LOGSIZE && |block| == LOGSIZE
        invariant forall j :: 0 <= j < i ==> block[j] == h[1 + j]
      {
        block := block[i := h[1 + i]];
        i := i + 1;
      }
    }

    /** read_head. */
    method ReadHead(me: nat) returns (ok: bool)
      requires |block| == LOGSIZE && Quiet(bc, readers, {}) && bc.Sound() && Stuck(bc, readers) == {}
      requires LogOk(l, bc.disk) && bc.contents == bc.disk
      modifies this`n, this`block, bc`buf, bc`refs, bc`next, bc`prev, bc`order
      ensures bc.n > 0 ==> ok
      ensures ok ==>
                && Quiet(bc, readers, {}) && bc.Sound() && |block| == LOGSIZE && n == bc.disk[Hdr(l)][0]
                && block[..n] == Logged(bc.disk[Hdr(l)])
    {
      assert 0 !in Stuck(bc, readers);
      var r := ReadBlock(bc, Hdr(l), me, {}, readers);
      ok := r.Some?;
      if ok {
        LoadHeader(bc.buf[r.value].data);
        assert {} + {r.value} == {r.value};
        ReleaseBlock(bc, r.value, me, {}, readers);
      }
    }

    /** Where recovery stands after t blocks, having started with disk d0 and writes w0. */
    ghost predicate ReplayedUpTo(d0: Disk, w0: Writes, t: nat)
      reads this, bc
    {
      InRecovery(d0, t)
      && var hs := HomeWrites(l, block[..n], SlotData(l, d0, n));
         bc.writes == w0 + hs[..t] && bc.disk == Apply(d0, hs[..t])
    }

    /** A turn of its loop. */
    method ReplayNext(tail: nat, me: nat, ghost d0: Disk, ghost w0: Writes) returns (ok: bool)
      requires ReplayedUpTo(d0, w0, tail) && tail < n
      modifies bc
      ensures tail + 1 < bc.n ==> ok
      ensures if ok then ReplayedUpTo(d0, w0, tail + 1) else bc.writes == old(bc.writes)
    {
      ghost var hs := HomeWrites(l, block[..n], SlotData(l, d0, n));
      assert block[..n][tail] == block[tail];
      ApplyStep(d0, hs, tail);
      ok := ReplayOne(tail, me, d0);
      if ok {
        NextWrite(w0, hs, tail, old(bc.writes), bc.writes);
      }
    }

    /** install_trans during recovery. */
    method Replay(me: nat, ghost d0: Disk) returns (ok: bool, ghost j: nat)
      requires InRecovery(d0, 0) && bc.disk == d0
      modifies bc
      ensures var hs := HomeWrites(l, block[..n], SlotData(l, d0, n));
              j <= n && bc.writes == old(bc.writes) + hs[..j] && (ok ==> j == n && bc.disk == Apply(d0, hs))
      ensures n < bc.n ==> ok
      ensures ok ==> InRecovery(d0, n)
    {
      ghost var hs := HomeWrites(l, block[..n], SlotData(l, d0, n));
      var tail := 0;
      ok, j := true, 0;
      assert hs[..0] == [];
      while tail < n
        invariant 0 <= tail == j <= n && ReplayedUpTo(d0, old(bc.writes), tail)
      {
        ok := ReplayNext(tail, me, d0, old(bc.writes));
        if !ok {
          return;
        }
        tail, j := tail + 1, j + 1;
      }
      assert hs[..n] == hs;
    }

    /** A home block of the log's device, and one of bs. */
    predicate Replayed(bs: seq<nat>, k: Key) { k.dev == l.dev && k.blockno in bs }

    /** recover_from_log at boot. Its writes are a prefix of RecoveryWrites, and all of them exactly when the cache has
        more buffers than the log has blocks. The cache then has every reference accounted for exactly when the log was
        empty. */
    method RecoverFromLog(me: nat) returns (ok: bool, ghost j: nat)
      requires |block| == LOGSIZE && ops == [] && outstanding == 0 && !committing && bc.n > 0
      requires readers == {} && Quiet(bc, readers, {}) && bc.pinned == {} && bc.leaked == {}
      requires LogOk(l, bc.disk) && bc.contents == bc.disk
      requires var bs := Logged(bc.disk[Hdr(l)]); forall s, t :: 0 <= s < t < |bs| ==> bs[s] != bs[t]
      modifies this`n, this`block, bc
      ensures var ws := RecoveryWrites(l, old(bc.disk));
              && j <= |ws| && bc.writes == old(bc.writes) + ws[..j]
              && (ok ==> j == |ws| && bc.disk == Recovered(l, old(bc.disk)))
      ensures ok <==> old(bc.disk)[Hdr(l)][0] < bc.n
      ensures ok ==> Quiet(bc, readers, {}) && bc.contents == bc.disk && n == 0
      ensures ok ==> |bc.leaked| == old(bc.disk)[Hdr(l)][0] && bc.pinned == {} && bc.disk.Keys == old(bc.disk).Keys
      ensures ok ==> forall i :: i in bc.leaked ==> Replayed(Logged(old(bc.disk)[Hdr(l)]), bc.buf[i].key)
      ensures ok ==> (Valid() <==> old(bc.disk)[Hdr(l)][0] == 0)
    {
      ghost var d0 := bc.disk;
      j := 0;
      ok := ReadHead(me);
      if ok {
        assert InRecovery(d0, 0);
        ok, j := ReplayAndClear(me, d0);
        if ok {
          n := 0;
          EndRecovery();
        }
      }
    }

    /** recover_from_log after read_head. */
    method ReplayAndClear(me: nat, ghost d0: Disk) returns (ok: bool, ghost j: nat)
      requires InRecovery(d0, 0) && bc.disk == d0
      modifies bc
      ensures var ws := RecoveryWrites(l, d0);
              j <= |ws| && bc.writes == old(bc.writes) + ws[..j] && (ok ==> j == |ws| && bc.disk == Apply(d0, ws))
      ensures ok <==> n < bc.n
      ensures ok ==> Quiet(bc, readers, {}) && bc.contents == bc.disk && bc.pinned == {} && |bc.leaked| == n
      ensures ok ==> forall i :: i in bc.leaked ==> Replayed(block[..n], bc.buf[i].key)
      ensures ok ==> Hdr(l) in bc.disk && bc.disk[Hdr(l)][0] == 0 && bc.disk.Keys == d0.Keys
    {
      ghost var hs := HomeWrites(l, block[..n], SlotData(l, d0, n));
      ghost var clear := (Hdr(l), HeaderOf(d0[Hdr(l)], []));
      RecoveryShape(bc.writes, hs, clear);
      assert RecoveryWrites(l, d0) == hs + [clear];
      ok, j := Replay(me, d0);
      if ok {
        RecoveryFree(d0, n);
        SpareIff(bc, readers);
        assert InLog(l, Hdr(l));
        ApplyLast(d0, hs, clear);
        ok := PutHeader(bc, Hdr(l), [], me, readers);
        j := if ok then j + 1 else j;
      }
    }

    lemma EndRecovery()
      requires n == 0 && |block| == LOGSIZE && ops == [] && outstanding == 0 && l.size >= 1
      requires Quiet(bc, readers, {}) && bc.pinned == {} && bc.contents == bc.disk
      requires Hdr(l) in bc.disk && bc.disk[Hdr(l)][0] == 0 && forall i :: 0 <= i < l.size - 1 ==> Slot(l, i) in bc.disk
      ensures Valid() <==> bc.leaked == {}
    {
      assert Logged(bc.disk[Hdr(l)]) == [];
    }
  }
}
