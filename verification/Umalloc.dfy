/** malloc and free of user/umalloc.c: an address-ordered circular list of free blocks, each with a header that holds
    the next pointer and the size. Addresses and sizes count header units (16 bytes). */
module Umalloc {
  import opened UmallocSpec

  type Words = map<int, int>

  /** The address the header of block i points to. */
  ghost function NextAddr(bs: seq<Block>, i: nat): int
    requires i < |bs|
  {
    if i + 1 < |bs| then bs[i + 1].addr else bs[0].addr
  }

  ghost predicate OkNode(ptr: Words, size: Words, bs: seq<Block>, i: nat) {
    i < |bs| ==>
      var a := bs[i].addr;
      a in ptr && a in size && ptr[a] == NextAddr(bs, i) && size[a] == bs[i].size
  }

  /** The headers link the blocks into one cycle in order of address. */
  ghost predicate Ring(ptr: Words, size: Words, bs: seq<Block>) { forall i :: OkNode(ptr, size, bs, i) }

  /** The header updates of free: bp goes behind p and is joined with its neighbours. */
  function LinkedNext(ptr: Words, size: Words, p: int, bp: int): (Words, Words)
    requires p in ptr && bp in size && ptr[p] in ptr && ptr[p] in size
  {
    var next := ptr[p];
    if bp + size[bp] == next then (ptr[bp := ptr[next]], size[bp := size[bp] + size[next]]) else (ptr[bp := next], size)
  }

  function LinkedPrev(ptr: Words, size: Words, p: int, bp: int): (Words, Words)
    requires p in ptr && p in size && bp in ptr && bp in size
  {
    if p + size[p] == bp then (ptr[p := ptr[bp]], size[p := size[p] + size[bp]]) else (ptr[p := bp], size)
  }

  ghost function NextIndex(bs: seq<Block>, i: nat): nat { if i + 1 < |bs| then i + 1 else 0 }

  lemma LinkedRing(ptr: Words, size: Words, bs: seq<Block>, x: Block, j: nat)
    requires Ordered(bs) && Ring(ptr, size, bs) && Fits(bs, x, j) && x.addr in size && size[x.addr] == x.size
    ensures OkNode(ptr, size, bs, j) && OkNode(ptr, size, bs, NextIndex(bs, j))
    ensures var (ptr1, size1) := LinkedNext(ptr, size, bs[j].addr, x.addr);
            var (ptr2, size2) := LinkedPrev(ptr1, size1, bs[j].addr, x.addr); Ring(ptr2, size2, Put(bs, x, j))
  {
    assert OkNode(ptr, size, bs, j) && OkNode(ptr, size, bs, NextIndex(bs, j));
    var (ptr1, size1) := LinkedNext(ptr, size, bs[j].addr, x.addr);
    var (ptr2, size2) := LinkedPrev(ptr1, size1, bs[j].addr, x.addr);
    forall k: nat ensures OkNode(ptr2, size2, Put(bs, x, j), k) { LinkedNode(ptr, size, bs, x, j, k); }
  }

  lemma LinkedNode(ptr: Words, size: Words, bs: seq<Block>, x: Block, j: nat, k: nat)
    requires Ordered(bs) && Ring(ptr, size, bs) && Fits(bs, x, j) && x.addr in size && size[x.addr] == x.size
    ensures OkNode(ptr, size, bs, j) && OkNode(ptr, size, bs, NextIndex(bs, j))
    ensures var (ptr1, size1) := LinkedNext(ptr, size, bs[j].addr, x.addr);
            var (ptr2, size2) := LinkedPrev(ptr1, size1, bs[j].addr, x.addr); OkNode(ptr2, size2, Put(bs, x, j), k)
  {
    var r, lo, hi := Put(bs, x, j), Lo(bs, x, j), Hi(bs, x, j);
    assert OkNode(ptr, size, bs, j) && OkNode(ptr, size, bs, NextIndex(bs, j));
    if k < |r| {
      PutAt(bs, x, j, k);
      PutAt(bs, x, j, 0);
      if k + 1 < |r| {
        PutAt(bs, x, j, k + 1);
      }
      var k0 := if k < lo then k else k + hi - lo - 1;
      assert Before(bs, 0, j) && OkNode(ptr, size, bs, k0);
      assert Before(bs, k0, j) && Before(bs, j, k0) && Before(bs, j + 1, k0);
    }
  }

  /** The header updates of malloc when it takes n units from block i, whose predecessor on the list is prev. */
  function TakenPtr(ptr: Words, size: Words, prev: int, p: int, n: nat): Words
    requires p in ptr && p in size
  {
    if size[p] == n then ptr[prev := ptr[p]] else ptr
  }

  function TakenSize(size: Words, p: int, n: nat): Words
    requires p in size
  {
    if size[p] == n then size else size[p := size[p] - n][p + size[p] - n := n]
  }

  lemma TakenRing(ptr: Words, size: Words, bs: seq<Block>, i: nat, n: nat)
    requires Ordered(bs) && Ring(ptr, size, bs) && 0 < i < |bs| && 0 < n <= bs[i].size
    ensures OkNode(ptr, size, bs, i)
    ensures Ring(TakenPtr(ptr, size, bs[i - 1].addr, bs[i].addr, n), TakenSize(size, bs[i].addr, n), Taken(bs, i, n))
    ensures var size1 := TakenSize(size, bs[i].addr, n); var a := Tail(bs, i, n).addr; a in size1 && size1[a] == n
  {
    assert OkNode(ptr, size, bs, i);
    var ptr1, size1, r := TakenPtr(ptr, size, bs[i - 1].addr, bs[i].addr, n), TakenSize(size, bs[i].addr, n),
                            Taken(bs, i, n);
    forall k: nat ensures OkNode(ptr1, size1, r, k) {
      var k0 := if k < i || bs[i].size != n then k else k + 1;
      assert && OkNode(ptr, size, bs, k0) && Before(bs, k0, i) && Before(bs, i, k0) && Before(bs, k0, i - 1)
             && Before(bs, i - 1, k0);
    }
  }

  // ---------------------------------------------------------------- live blocks

  ghost predicate InBlock(live: map<int, nat>, a: int, u: int) { a in live && a <= u < a + live[a] }

  ghost predicate InLive(live: map<int, nat>, u: int) { exists a :: InBlock(live, a, u) }

  /** Unit u is got from sbrk exactly when it is in the free list or in a live block, and it is in one block at most. */
  ghost predicate OkUnit(bs: seq<Block>, live: map<int, nat>, got: set<int>, u: int) {
    && (u in got <==> InSome(bs, u) || InLive(live, u))
    && !(InSome(bs, u) && InLive(live, u))
    && (forall a, b :: InBlock(live, a, u) && InBlock(live, b, u) ==> a == b)
  }

  ghost predicate OkLive(size: Words, live: map<int, nat>, base: int, a: int) {
    a in live ==> live[a] > 0 && a > base && a in size && size[a] == live[a]
  }

  class Heap {
    const base: int
    var freep: int
    var ptr: Words
    var size: Words
    var top: int
    ghost var blocks: seq<Block>
    ghost var live: map<int, nat>
    ghost var got: set<int>
    ghost var refusals: nat   // how often sbrk has failed

    /** The free list is one address-ordered cycle with no two adjacent blocks; free and live blocks tile what sbrk has
        given. */
    ghost predicate Valid()
      reads this
    {
      && 0 < base < top && Ordered(blocks) && blocks[0] == Block(base, 0)
      && (freep == 0 ==> blocks == [Block(base, 0)] && live == map[])
      && (freep != 0 ==> Ring(ptr, size, blocks) && exists f :: 0 <= f < |blocks| && blocks[f].addr == freep)
      && (forall a :: OkLive(size, live, base, a))
      && (forall u :: OkUnit(blocks, live, got, u))
      && (forall u :: u in got ==> base < u < top)
    }

    /** Nothing has been asked for yet: the list is set up by the first malloc. */
    constructor (base: int, top: int)
      requires 0 < base < top
      ensures Valid() && freep == 0 && this.base == base && this.top == top && got == {}
    {
      this.base, this.top := base, top;
      freep, ptr, size := 0, map[], map[];
      blocks, live, got, refusals := [Block(base, 0)], map[], {}, 0;
    }

    /** The place of bp on the list: the search loop of free. */
    method Search(bp: int) returns (p: int, ghost j: nat)
      requires Valid() && freep != 0 && bp > base && forall i :: 0 <= i < |blocks| ==> blocks[i].addr != bp
      ensures Gap(blocks, bp, j) && p == blocks[j].addr
    {
      ghost var n := |blocks|;
      ghost var goal := GapExists(blocks, bp);
      p := freep;
      ghost var i: nat :| i < n && blocks[i].addr == p;
      while !(bp > p && bp < ptr[p])
        invariant i < n && p == blocks[i].addr && OkNode(ptr, size, blocks, i)
        decreases if i <= goal then goal - i else n - i + goal
      {
        assert Before(blocks, 0, i) && Before(blocks, i, i + 1);
        if p >= ptr[p] && (bp > p || bp < ptr[p]) {
          return p, i;
        }
        GapOnly(blocks, bp, goal, i);
        p, i := ptr[p], NextIndex(blocks, i);
        assert OkNode(ptr, size, blocks, i);
      }
      j := i;
      assert Before(blocks, 0, j);
    }

    /** The header updates of free. */
    method Link(p: int, bp: int, ghost x: Block, ghost j: nat)
      requires Ordered(blocks) && Ring(ptr, size, blocks) && Fits(blocks, x, j) && bp == x.addr && p == blocks[j].addr
      requires bp in size && size[bp] == x.size
      modifies this`ptr, this`size, this`freep
      ensures Ring(ptr, size, Put(blocks, x, j)) && freep == p
      ensures forall a :: a in old(size) && a != p && a != bp ==> a in size && size[a] == old(size)[a]
    {
      LinkedRing(ptr, size, blocks, x, j);
      var next := ptr[p];
      if bp + size[bp] == next {
        size := size[bp := size[bp] + size[next]];
        ptr := ptr[bp := ptr[next]];
      } else {
        ptr := ptr[bp := next];
      }
      if p + size[p] == bp {
        size := size[p := size[p] + size[bp]];
        ptr := ptr[p := ptr[bp]];
      } else {
        ptr := ptr[p := bp];
      }
      freep := p;
    }

    /** free: the block leaves the live ones; its units join the free list. */
    method Free(ap: int) returns (ghost j: nat)
      requires Valid() && ap - 1 in live
      modifies this
      ensures Valid() && freep != 0 && live == old(live) - {ap - 1} && got == old(got) && top == old(top)
      ensures refusals == old(refusals)
      ensures Fits(old(blocks), Block(ap - 1, old(live)[ap - 1]), j)
      ensures blocks == Put(old(blocks), Block(ap - 1, old(live)[ap - 1]), j) && freep == old(blocks)[j].addr
    {
      var bp := ap - 1;
      ghost var x := Block(bp, live[bp]);
      LiveApart(blocks, live, got, size, base, bp);
      var p;
      p, j := Search(bp);
      LiveFits(blocks, live, got, size, base, bp, j);
      assert OkLive(size, live, base, bp) && Before(blocks, 0, j);
      Link(p, bp, x, j);
      PutOk(blocks, x, j);
      FreedUnits(blocks, live, got, x, j);
      FreedLive(blocks, live, got, old(size), size, base, p, bp, j);
      PutHeader(blocks, x, j);
      blocks, live := Put(blocks, x, j), live - {bp};
    }

    /** sbrk: fails, or gives n units somewhere above everything given before. */
    method Sbrk(n: nat) returns (p: int)
      requires top > 0
      modifies this`top, this`refusals
      ensures p == -1 ==> top == old(top) && refusals == old(refusals) + 1
      ensures p != -1 ==> p >= old(top) && top == p + n && refusals == old(refusals)
    {
      var gap: int := *;
      if gap < 0 {
        refusals := refusals + 1;
        return -1;
      }
      p := top + gap;
      top := p + n;
    }

    /** The new region as one block in use. */
    method AddRegion(hp: int, nu: nat)
      requires 0 < base < hp && Ordered(blocks) && blocks[0] == Block(base, 0) && freep != 0 && nu > 0 && top == hp + nu
      requires Ring(ptr, size, blocks) && (exists f :: 0 <= f < |blocks| && blocks[f].addr == freep)
      requires (forall a :: OkLive(size, live, base, a)) && (forall u :: OkUnit(blocks, live, got, u))
      requires forall u :: u in got ==> base < u < hp
      modifies this`size, this`live, this`got
      ensures Valid() && hp !in old(live) && live == old(live)[hp := nu] && got == old(got) + Given(hp, nu)
    {
      HeadersBelow(blocks, live, got, base, hp);
      ghost var live1, got1 := live[hp := nu], got + Given(hp, nu);
      NewUnits(blocks, live, got, size, base, hp, nu, live1, got1, size[hp := nu]);
      size := size[hp := nu];
      forall i: nat ensures OkNode(ptr, size, blocks, i) { assert OkNode(ptr, old(size), blocks, i); }
      live, got := live1, got1;
    }

    /** morecore: gets n units, or 4096 if that is more, and frees them. */
    method Morecore(n: nat) returns (p: int, ghost hp: int)
      requires Valid() && freep != 0 && 0 < n
      modifies this
      ensures Valid() && freep != 0 && live == old(live)
      ensures p == 0 ==>
                blocks == old(blocks) && got == old(got) && freep == old(freep) && refusals == old(refusals) + 1
      ensures p != 0 ==> refusals == old(refusals) && p == freep && exists i :: 0 < i < |blocks| && blocks[i].size >= n
      ensures p != 0 ==> got == old(got) + Given(hp, if n > 4096 then n else 4096)
      ensures old(got) <= got
    {
      var nu := MoreUnits(n);
      var at := Sbrk(nu);
      hp := at;
      if at == -1 {
        return 0, at;
      }
      AddRegion(at, nu);
      ghost var j;
      j := Free(at + 1);
      PutBig(old(blocks), Block(at, nu), j);
      assert live == old(live);
      p := freep;
    }

    /** Takes n units from block i and hands them out. */
    method Take(prev: int, p: int, n: nat, ghost i: nat) returns (a: int)
      requires Valid() && freep != 0 && 0 < i < |blocks| && 0 < n <= blocks[i].size && p == blocks[i].addr
      requires prev == blocks[i - 1].addr
      modifies this
      ensures Valid() && a !in old(live) && live == old(live)[a := n] && got == old(got) && refusals == old(refusals)
      ensures blocks == Taken(old(blocks), i, n) && a == Tail(old(blocks), i, n).addr && freep == prev != 0 && a > 0
    {
      TakenRing(ptr, size, blocks, i, n);
      TakenOk(blocks, i, n);
      TakenLive(blocks, live, got, size, TakenSize(size, p, n), base, i, n, live[Tail(blocks, i, n).addr := n]);
      assert Before(blocks, 0, i) && Before(blocks, 0, i - 1);
      a := p;
      if size[p] == n {
        ptr := ptr[prev := ptr[p]];
      } else {
        size := size[p := size[p] - n];
        a := p + size[p];
        size := size[a := n];
      }
      freep := prev;
      live := live[a := n];
      blocks := Taken(blocks, i, n);
      assert blocks[i - 1].addr == prev;
    }

    /** The first malloc sets up the list. */
    method Start() returns (ghost f: nat)
      requires Valid()
      modifies this`ptr, this`size, this`freep
      ensures Valid() && freep != 0 && f < |blocks| && blocks[f].addr == freep
      ensures freep == if old(freep) == 0 then base else old(freep)
    {
      if freep == 0 {
        ptr, freep, size := ptr[base := base], base, size[base := 0];
        forall i: nat ensures OkNode(ptr, size, blocks, i) { }
        assert blocks[0].addr == freep;
        forall a ensures OkLive(size, live, base, a) { assert OkLive(old(size), live, base, a); }
      }
      f :| f < |blocks| && blocks[f].addr == freep;
    }

    /** morecore, with the place of freep on the new list. */
    method Refill(n: nat) returns (p: int, ghost f: nat)
      requires Valid() && freep != 0 && 0 < n
      modifies this
      ensures Valid() && freep != 0 && live == old(live) && old(got) <= got
      ensures p == 0 ==> blocks == old(blocks) && got == old(got) && refusals > old(refusals)
      ensures p != 0 ==>
                refusals == old(refusals) && f < |blocks| && blocks[f].addr == freep == p && BigEnough(blocks, n)
    {
      ghost var hp;
      p, hp := Morecore(n);
      f := 0;
      if p != 0 {
        f :| f < |blocks| && blocks[f].addr == freep;
      }
    }

    /** malloc looks at block i, the next of block h, having found too small those since block f, that of freep. */
    ghost predicate LooksAt(prevp: int, p: int, n: nat, h: nat, i: nat, f: nat)
      reads this
    {
      && f < |blocks| && h < |blocks| && i == NextIndex(blocks, h) < |blocks|
      && blocks[f].addr == freep && blocks[h].addr == prevp && blocks[i].addr == p && SmallBetween(blocks, n, i, f)
    }

    /** malloc goes on from a block that is too small: to the next or, all round, to a refilled list; 0 if there is no
        memory. */
    method Advance(p: int, n: nat, ghost i: nat, ghost f: nat)
      returns (prev: int, next: int, ghost h1: nat, ghost i1: nat, ghost f1: nat, ghost round: bool)
      requires Valid() && freep != 0 && 0 < n && i < |blocks| && f < |blocks| && blocks[i].addr == p
      requires blocks[f].addr == freep
      requires SmallBetween(blocks, n, i, f) && blocks[i].size < n
      modifies this
      ensures Valid() && freep != 0 && live == old(live) && old(got) <= got
      ensures !round || prev == 0 ==> blocks == old(blocks) && got == old(got)
      ensures if prev == 0
              then refusals > old(refusals)
              else refusals == old(refusals) && LooksAt(prev, next, n, h1, i1, f1)
      ensures !round ==> f1 == f && prev != 0 && Ahead(|blocks|, i1, f) < Ahead(|blocks|, i, f)
      ensures round ==> !BigEnough(old(blocks), n) && (prev != 0 ==> BigEnough(blocks, n))
    {
      assert OkNode(ptr, size, blocks, i) && Before(blocks, 0, i);
      prev, next, h1, i1, f1, round := p, ptr[p], i, NextIndex(blocks, i), f, false;
      if p == freep {
        SameIndex(blocks, i, f);
        AllSmall(blocks, n, f);
        round := true;
        prev, f1 := Refill(n);
        if prev != 0 {
          assert OkNode(ptr, size, blocks, f1);
          SmallNone(blocks, n, f1);
          next, h1, i1 := ptr[prev], f1, NextIndex(blocks, f1);
        }
      } else {
        SmallNext(blocks, n, i, f);
      }
    }

    /** malloc: a block of enough units, from the free list or, if that has none, from a fresh region; 0 if there is
        none. From the list it is the first big enough behind block f, where the last call has left off, and the next
        search starts at the block before it. */
    method Malloc(nbytes: nat) returns (r: int, ghost at: nat, ghost f: nat)
      requires Valid() && nbytes <= 0x7fff_ffe0
      modifies this
      ensures Valid() && old(got) <= got
      ensures r != 0 ==> r - 1 !in old(live) && live == old(live)[r - 1 := UnitsFor(nbytes)]
      ensures r != 0 && BigEnough(old(blocks), UnitsFor(nbytes)) ==>
                && got == old(got) && TakenAt(old(blocks), blocks, at, UnitsFor(nbytes), r - 1)
                && f < |old(blocks)| && old(blocks)[f].addr == (if old(freep) == 0 then base else old(freep))
                && SmallBetween(old(blocks), UnitsFor(nbytes), at, f) && freep == old(blocks)[at - 1].addr
      ensures r == 0 <==> refusals > old(refusals)
      ensures r == 0 ==>
                live == old(live) && got == old(got) && blocks == old(blocks) && !BigEnough(blocks, UnitsFor(nbytes))
    {
      var n := UnitsFor(nbytes);
      at := 0;
      f := Start();
      ghost var f0 := f;
      assert OkNode(ptr, size, blocks, f);
      SmallNone(blocks, n, f);
      var prevp, p := freep, ptr[freep];
      ghost var more, round, h: nat, i: nat := false, false, f, NextIndex(blocks, f);
      while true
        invariant Valid() && freep != 0 && live == old(live) && old(got) <= got && n > 0
        invariant LooksAt(prevp, p, n, h, i, f) && refusals == old(refusals)
        invariant if more
                  then BigEnough(blocks, n) && !BigEnough(old(blocks), n)
                  else got == old(got) && blocks == old(blocks) && f == f0
        decreases !more, Ahead(|blocks|, i, f)
      {
        assert OkNode(ptr, size, blocks, i);
        if size[p] >= n {
          var a := Take(prevp, p, n, i);
          return a + 1, i, f;
        }
        prevp, p, h, i, f, round := Advance(p, n, i, f);
        if prevp == 0 {
          return 0, 0, 0;
        }
        more := more || round;
      }
    }
  }

  /** The blocks passed on the way round the list from f to i are too small. */
  ghost predicate SmallBetween(bs: seq<Block>, n: nat, i: nat, f: nat)
    requires i < |bs| && f < |bs|
  {
    forall k :: 0 <= k < |bs| && Ahead(|bs|, k, f) > Ahead(|bs|, i, f) ==> bs[k].size < n
  }

  lemma AllSmall(bs: seq<Block>, n: nat, f: nat)
    requires f < |bs| && SmallBetween(bs, n, f, f) && bs[f].size < n
    ensures !BigEnough(bs, n)
  {
    forall k: nat | k < |bs| ensures bs[k].size < n { assert k != f ==> Ahead(|bs|, k, f) > Ahead(|bs|, f, f); }
  }

  lemma SmallNone(bs: seq<Block>, n: nat, f: nat)
    requires f < |bs|
    ensures SmallBetween(bs, n, NextIndex(bs, f), f)
  {
  }

  lemma SmallNext(bs: seq<Block>, n: nat, i: nat, f: nat)
    requires i < |bs| && f < |bs| && i != f && SmallBetween(bs, n, i, f) && bs[i].size < n
    ensures SmallBetween(bs, n, NextIndex(bs, i), f) && Ahead(|bs|, NextIndex(bs, i), f) < Ahead(|bs|, i, f)
  {
    forall k: nat | k < |bs| && Ahead(|bs|, k, f) > Ahead(|bs|, NextIndex(bs, i), f) ensures bs[k].size < n {
      assert k != i ==> Ahead(|bs|, k, f) > Ahead(|bs|, i, f);
    }
  }

  /** The n units at a have been taken from block i. */
  ghost predicate TakenAt(bs: seq<Block>, bs1: seq<Block>, i: nat, n: nat, a: int) {
    0 < i < |bs| && 0 < n <= bs[i].size && bs1 == Taken(bs, i, n) && a == Tail(bs, i, n).addr
  }

  ghost predicate BigEnough(bs: seq<Block>, n: nat) { exists i :: 0 <= i < |bs| && bs[i].size >= n }

  lemma SameIndex(bs: seq<Block>, i: nat, f: nat)
    requires Ordered(bs) && i < |bs| && f < |bs| && bs[i].addr == bs[f].addr
    ensures i == f
  {
    assert Before(bs, i, f) && Before(bs, f, i);
  }

  /** Handing out the tail of a free block keeps the tiling. */
  lemma TakenLive(bs: seq<Block>, live: map<int, nat>, got: set<int>, size: Words, size1: Words, base: int, i: nat,
                  n: nat, live1: map<int, nat>)
    requires Ordered(bs) && bs[0] == Block(base, 0) && (forall u :: OkUnit(bs, live, got, u))
    requires forall a :: OkLive(size, live, base, a)
    requires 0 < i < |bs| && 0 < n <= bs[i].size && live1 == live[Tail(bs, i, n).addr := n]
    requires bs[i].addr in size && size[bs[i].addr] == bs[i].size && size1 == TakenSize(size, bs[i].addr, n)
    ensures forall u :: OkUnit(Taken(bs, i, n), live1, got, u)
    ensures Tail(bs, i, n).addr !in live && forall a :: OkLive(size1, live1, base, a)
  {
    var bs1, x := Taken(bs, i, n), Tail(bs, i, n);
    TakenOk(bs, i, n);
    assert Before(bs, 0, i);
    forall a | a in live ensures !In(bs[i], a) {
      assert OkLive(size, live, base, a) && OkUnit(bs, live, got, a) && InBlock(live, a, a);
    }
    assert In(bs[i], x.addr) && In(bs[i], bs[i].addr);
    forall u ensures OkUnit(bs1, live1, got, u) {
      assert OkUnit(bs, live, got, u);
      assert forall a :: a != x.addr ==> (InBlock(live1, a, u) <==> InBlock(live, a, u));
      assert InBlock(live1, x.addr, u) <==> In(x, u);
    }
    forall a ensures OkLive(size1, live1, base, a) { assert OkLive(size, live, base, a); }
  }

  /** How far block k comes before block f, going round the list. */
  ghost function Ahead(n: nat, k: nat, f: nat): (d: nat)
    requires k < n && f < n
    ensures d < n && (d == 0 <==> k == f)
  {
    if k <= f then f - k else n - k + f
  }

  /** The n units from hp on. */
  ghost function Given(hp: int, n: nat): set<int> { set u | hp <= u < hp + n && In(Block(hp, n), u) }

  /** Units above everything given before make a new live block. */
  lemma NewUnits(bs: seq<Block>, live: map<int, nat>, got: set<int>, size: Words, base: int, hp: int, n: nat,
                 live1: map<int, nat>, got1: set<int>, size1: Words)
    requires (forall u :: OkUnit(bs, live, got, u)) && (forall a :: OkLive(size, live, base, a)) && n > 0 && hp > base
    requires forall u :: u in got ==> u < hp
    requires live1 == live[hp := n] && got1 == got + Given(hp, n) && size1 == size[hp := n]
    ensures forall u :: OkUnit(bs, live1, got1, u)
    ensures hp !in live && forall a :: OkLive(size1, live1, base, a)
  {
    forall a | a in live ensures a < a + live[a] <= hp {
      var u := a + live[a] - 1;
      assert OkLive(size, live, base, a) && OkUnit(bs, live, got, u) && InBlock(live, a, u);
    }
    forall u ensures OkUnit(bs, live1, got1, u) {
      assert OkUnit(bs, live, got, u);
      assert forall a :: a != hp ==> (InBlock(live1, a, u) <==> InBlock(live, a, u));
      assert InBlock(live1, hp, u) <==> In(Block(hp, n), u);
    }
    forall a ensures OkLive(size1, live1, base, a) { assert OkLive(size, live, base, a); }
  }

  /** The headers on the list lie below what sbrk gives next. */
  lemma HeadersBelow(bs: seq<Block>, live: map<int, nat>, got: set<int>, base: int, top: int)
    requires Ordered(bs) && bs[0] == Block(base, 0) && base < top && (forall u :: OkUnit(bs, live, got, u))
    requires forall u :: u in got ==> u < top
    ensures forall i :: 0 <= i < |bs| ==> bs[i].addr < top
  {
    forall i: nat | 0 < i < |bs| ensures bs[i].addr < top {
      assert In(bs[i], bs[i].addr) && OkUnit(bs, live, got, bs[i].addr);
    }
  }

  lemma PutBig(bs: seq<Block>, x: Block, j: nat)
    requires Ordered(bs) && Fits(bs, x, j)
    ensures exists i :: 0 < i < |Put(bs, x, j)| && Put(bs, x, j)[i].size >= x.size
  {
    var lo := Lo(bs, x, j);
    PutAt(bs, x, j, lo);
    assert Put(bs, x, j)[lo].size >= x.size;
  }

  /** The header of block j is still on the list. */
  lemma PutHeader(bs: seq<Block>, x: Block, j: nat)
    requires j < |bs|
    ensures j < |Put(bs, x, j)| && Put(bs, x, j)[j].addr == bs[j].addr
  {
    PutAt(bs, x, j, j);
  }

  lemma FreedLive(bs: seq<Block>, live: map<int, nat>, got: set<int>, size: Words, size1: Words, base: int, p: int,
                  bp: int, j: nat)
    requires Ordered(bs) && bs[0] == Block(base, 0) && (forall u :: OkUnit(bs, live, got, u))
    requires forall a :: OkLive(size, live, base, a)
    requires j < |bs| && p == bs[j].addr
    requires forall a :: a in size && a != p && a != bp ==> a in size1 && size1[a] == size[a]
    ensures forall a :: OkLive(size1, live - {bp}, base, a)
  {
    var live1 := live - {bp};
    forall a ensures OkLive(size1, live1, base, a) {
      assert OkLive(size, live, base, a);
      if a in live {
        LiveApart(bs, live, got, size, base, a);
      }
    }
  }

  /** A live block shares no unit, and so no header, with the free list. */
  lemma LiveApart(bs: seq<Block>, live: map<int, nat>, got: set<int>, size: Words, base: int, a: int)
    requires Ordered(bs) && bs[0] == Block(base, 0) && a in live && (forall u :: OkUnit(bs, live, got, u))
    requires forall b :: OkLive(size, live, base, b)
    ensures a > base && forall i :: 0 <= i < |bs| ==> bs[i].addr != a
  {
    assert OkLive(size, live, base, a) && OkUnit(bs, live, got, a) && InBlock(live, a, a);
    forall i: nat | i < |bs| ensures bs[i].addr != a { assert i > 0 && bs[i].addr == a ==> In(bs[i], a); }
  }

  lemma LiveFits(bs: seq<Block>, live: map<int, nat>, got: set<int>, size: Words, base: int, a: int, j: nat)
    requires Ordered(bs) && bs[0] == Block(base, 0) && a in live && (forall u :: OkUnit(bs, live, got, u))
    requires forall b :: OkLive(size, live, base, b)
    requires Gap(bs, a, j)
    ensures Fits(bs, Block(a, live[a]), j)
  {
    assert OkLive(size, live, base, a) && OkUnit(bs, live, got, a) && InBlock(live, a, a);
    assert !In(bs[j], a);
    if j + 1 < |bs| {
      var u := bs[j + 1].addr;
      assert OkUnit(bs, live, got, u) && In(bs[j + 1], u);
      assert !InBlock(live, a, u);
    }
  }

  /** Moving a live block to the free list keeps the tiling. */
  lemma FreedUnits(bs: seq<Block>, live: map<int, nat>, got: set<int>, x: Block, j: nat)
    requires Ordered(bs) && Fits(bs, x, j) && x.addr in live && live[x.addr] == x.size
    requires forall u :: OkUnit(bs, live, got, u)
    ensures forall u :: OkUnit(Put(bs, x, j), live - {x.addr}, got, u)
  {
    PutOk(bs, x, j);
    var bs1, live1 := Put(bs, x, j), live - {x.addr};
    forall u ensures OkUnit(bs1, live1, got, u) {
      assert OkUnit(bs, live, got, u);
      assert forall a :: InBlock(live1, a, u) ==> InBlock(live, a, u);
      assert forall a :: InBlock(live, a, u) && a != x.addr ==> InBlock(live1, a, u);
      assert In(x, u) <==> InBlock(live, x.addr, u);
    }
  }

  lemma GapExists(bs: seq<Block>, a: int) returns (j: nat)
    requires Ordered(bs) && bs[0].addr < a && forall i :: 0 <= i < |bs| ==> bs[i].addr != a
    ensures Gap(bs, a, j)
  {
    j := 0;
    while j + 1 < |bs| && bs[j + 1].addr < a
      invariant j < |bs| && bs[j].addr < a
    {
      j := j + 1;
    }
  }

  /** Block i is where a belongs exactly when it is the goal. */
  lemma GapOnly(bs: seq<Block>, a: int, goal: nat, i: nat)
    requires Ordered(bs) && Gap(bs, a, goal) && i < |bs|
    ensures Gap(bs, a, i) <==> i == goal
  {
    assert Before(bs, i, goal) && Before(bs, i + 1, goal) && Before(bs, goal, i) && Before(bs, goal + 1, i);
  }
}
