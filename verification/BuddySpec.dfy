/** The buddy system as a tree of blocks: geometry, the invariant, and what the four elementary moves keep. */
module BuddySpec {

  const LEAF_SIZE: nat := 16   // written out below, so that the arithmetic stays linear

  function Pow2(n: nat): (r: nat)
    ensures r > 0
  {
    if n == 0 then 1 else 2 * Pow2(n - 1)
  }

  function BlkSize(k: nat): (r: nat)
    ensures r > 0
  {
    if k == 0 then 16 else 2 * BlkSize(k - 1)
  }

  /** Index of the block of size class k that holds the byte at offset n. */
  function BlkIndex(k: nat, n: nat): nat {
    if k == 0 then n / 16 else BlkIndex(k - 1, n) / 2
  }

  /** Offset of the first byte of block bi of class k. */
  function Addr(k: nat, bi: nat): nat {
    if k == 0 then bi * 16 else Addr(k - 1, 2 * bi)
  }

  // ---------------------------------------------------------------- geometry

  lemma {:induction false} AddrNext(k: nat, bi: nat)
    ensures Addr(k, bi + 1) == Addr(k, bi) + BlkSize(k)
  {
    if k > 0 {
      AddrNext(k - 1, 2 * bi);
      AddrNext(k - 1, 2 * bi + 1);
    }
  }

  /** A byte lies in block bi exactly when bi is its index. */
  lemma {:induction false} IndexInterval(k: nat, bi: nat, n: nat)
    ensures BlkIndex(k, n) == bi <==> Addr(k, bi) <= n < Addr(k, bi) + BlkSize(k)
  {
    if k > 0 {
      IndexInterval(k - 1, 2 * bi, n);
      IndexInterval(k - 1, 2 * bi + 1, n);
      AddrNext(k - 1, 2 * bi);
    }
  }

  lemma IndexOfAddr(k: nat, bi: nat)
    ensures BlkIndex(k, Addr(k, bi)) == bi
  {
    IndexInterval(k, bi, Addr(k, bi));
  }

  lemma QuotientUnique(n: nat, d: nat, q: nat, r: nat)
    requires d > 0 && n == q * d + r && r < d
    ensures n / d == q
  {
    var q' := n / d;
    assert n == q' * d + n % d;
    ProductGap(q, q', d);
    ProductGap(q', q, d);
  }

  lemma Distribute(a: nat, b: nat, d: nat)
    ensures (a + b) * d == a * d + b * d && b * d >= 0
  {
  }

  lemma ProductGap(a: nat, b: nat, d: nat)
    ensures a < b ==> a * d + d <= b * d
  {
    if a < b {
      Distribute(a, b - a, d);
      Distribute(1, b - a - 1, d);
    }
  }

  /** The closed forms the allocator computes with. */
  lemma {:induction false} ClosedForms(k: nat, bi: nat, n: nat)
    ensures BlkSize(k) == 16 * Pow2(k)
    ensures Addr(k, bi) == bi * BlkSize(k)
    ensures BlkIndex(k, n) == n / BlkSize(k)
  {
    AddrProduct(k, bi);
    AddrProduct(k, BlkIndex(k, n));
    IndexInterval(k, BlkIndex(k, n), n);
    QuotientUnique(n, BlkSize(k), BlkIndex(k, n), n - Addr(k, BlkIndex(k, n)));
  }

  lemma {:induction false} AddrProduct(k: nat, bi: nat)
    ensures BlkSize(k) == 16 * Pow2(k)
    ensures Addr(k, bi) == bi * BlkSize(k)
  {
    if k > 0 {
      AddrProduct(k - 1, 2 * bi);
      assert (2 * bi) * BlkSize(k - 1) == bi * (2 * BlkSize(k - 1));
    }
  }

  lemma SizeMonotone(j: nat, k: nat)
    requires j <= k
    ensures BlkSize(j) <= BlkSize(k)
    decreases k
  {
    if j < k {
      SizeMonotone(j, k - 1);
    }
  }

  // ---------------------------------------------------------------- blocks

  datatype Blk = Blk(k: nat, i: nat)

  function Parent(b: Blk): Blk { Blk(b.k + 1, b.i / 2) }

  function Left(b: Blk): Blk
    requires b.k > 0
  {
    Blk(b.k - 1, 2 * b.i)
  }

  function Right(b: Blk): Blk
    requires b.k > 0
  {
    Blk(b.k - 1, 2 * b.i + 1)
  }

  function Buddy(b: Blk): Blk {
    Blk(b.k, if b.i % 2 == 0 then b.i + 1 else b.i - 1)
  }

  /** The byte at offset n lies inside block b. */
  predicate Contains(b: Blk, n: nat) { BlkIndex(b.k, n) == b.i }

  predicate Fits(top: nat, b: Blk) {
    b.k <= top && b.i < Pow2(top - b.k)
  }

  lemma FitsFamily(top: nat, b: Blk)
    requires Fits(top, b)
    ensures b.k < top ==> Fits(top, Parent(b)) && Fits(top, Buddy(b))
    ensures b.k > 0 ==> Fits(top, Left(b)) && Fits(top, Right(b))
  {
    if b.k < top {
      assert Pow2(top - b.k) == 2 * Pow2(top - b.k - 1);
    }
    if b.k > 0 {
      assert Pow2(top - (b.k - 1)) == 2 * Pow2(top - b.k);
    }
  }

  lemma ByteFits(top: nat, k: nat, n: nat)
    requires k <= top && n < BlkSize(top)
    ensures Fits(top, Blk(k, BlkIndex(k, n)))
    decreases top - k
  {
    if k == top {
      TopIsZero(top);
      IndexInterval(top, 0, n);
    } else {
      ByteFits(top, k + 1, n);
      assert Pow2(top - k) == 2 * Pow2(top - k - 1);
    }
  }

  lemma {:induction false} TopIsZero(k: nat)
    ensures Addr(k, 0) == 0
  {
    if k > 0 {
      TopIsZero(k - 1);
    }
  }

  /** A block that fits ends inside the managed range. */
  lemma {:induction false} BlockInRange(top: nat, b: Blk)
    requires Fits(top, b)
    ensures Addr(b.k, b.i) + BlkSize(b.k) <= BlkSize(top)
    decreases top - b.k
  {
    if b.k < top {
      FitsFamily(top, b);
      BlockInRange(top, Parent(b));
      AddrNext(b.k, 2 * (b.i / 2));
    } else {
      TopIsZero(top);
    }
  }

  /** If two blocks share a byte, the larger holds every byte of the smaller. */
  lemma {:induction false} Nested(b: Blk, f: Blk, n: nat, m: nat)
    requires b.k <= f.k && Contains(b, n) && Contains(f, n) && Contains(b, m)
    ensures Contains(f, m)
    decreases f.k - b.k
  {
    if b.k < f.k {
      Nested(Parent(b), f, n, m);
    }
  }

  // ---------------------------------------------------------------- the invariant

  /** Which blocks are marked allocated, which are marked split, and which are on a free list. */
  datatype Heap = Heap(top: nat, alloc: set<Blk>, split: set<Blk>, free: set<Blk>)

  /** Blocks handed out (or reserved) and not divided further. */
  function Live(h: Heap): set<Blk> { h.alloc - h.split }

  /** The invariant at one block: a parent is split iff one of its children is allocated, a split
      block is allocated, and the free lists hold exactly the unallocated children of split blocks. */
  ghost predicate Ok(h: Heap, b: Blk) {
    && (b in h.alloc ==> Fits(h.top, b) && (b.k < h.top ==> Parent(b) in h.split))
    && (b in h.split ==> b.k > 0 && b in h.alloc && (Left(b) in h.alloc || Right(b) in h.alloc))
    && (b in h.free <==> Fits(h.top, b) && b.k < h.top && b !in h.alloc && Parent(b) in h.split)
  }

  ghost predicate Inv(h: Heap) {
    Blk(h.top, 0) in h.alloc && forall b :: Ok(h, b)
  }

  lemma OkAt(h: Heap, b: Blk)
    requires Inv(h)
    ensures Ok(h, b)
  {
  }

  // ---------------------------------------------------------------- the elementary moves

  function Take(h: Heap, b: Blk): Heap {
    h.(alloc := h.alloc + {b}, free := h.free - {b})
  }

  function Divide(h: Heap, b: Blk): Heap
    requires b.k > 0
  {
    h.(split := h.split + {b}, alloc := h.alloc + {Left(b)}, free := h.free + {Right(b)})
  }

  function Release(h: Heap, b: Blk): Heap {
    h.(alloc := h.alloc - {b}, free := h.free + {b})
  }

  function Merge(h: Heap, b: Blk): Heap {
    h.(alloc := h.alloc - {b}, free := h.free - {Buddy(b)}, split := h.split - {Parent(b)})
  }

  lemma TakeKeeps(h: Heap, b: Blk)
    requires Inv(h) && b in h.free
    ensures Inv(Take(h, b)) && Live(Take(h, b)) == Live(h) + {b} && b !in h.alloc
  {
    assert Ok(h, b);
    forall c ensures Ok(Take(h, b), c) {
      assert Ok(h, c);
    }
  }

  lemma DivideKeeps(h: Heap, b: Blk)
    requires Inv(h) && b in Live(h) && b.k > 0
    ensures Inv(Divide(h, b))
    ensures Live(Divide(h, b)) == Live(h) - {b} + {Left(b)}
    ensures Left(b) !in h.alloc && Right(b) !in h.alloc && Left(b) !in h.free && Right(b) !in h.free
  {
    var l, r := Left(b), Right(b);
    assert Ok(h, b) && Ok(h, l) && Ok(h, r);
    FitsFamily(h.top, b);
    BuddyFacts(l);
    forall c ensures Ok(Divide(h, b), c) {
      assert Ok(h, c);
      assert Parent(c) == b ==> c == l || c == r;
    }
  }

  lemma BuddyFacts(b: Blk)
    ensures Parent(Buddy(b)) == Parent(b) && Buddy(Buddy(b)) == b && Buddy(b) != b
    ensures forall c :: Parent(c) == Parent(b) ==> c == b || c == Buddy(b)
    ensures b.i % 2 == 0 ==> Left(Parent(b)) == b && Right(Parent(b)) == Buddy(b)
    ensures b.i % 2 == 1 ==> Left(Parent(b)) == Buddy(b) && Right(Parent(b)) == b
  {
  }

  lemma ReleaseKeeps(h: Heap, b: Blk)
    requires Inv(h) && b in Live(h) && b.k < h.top && Buddy(b) in h.alloc
    ensures Inv(Release(h, b)) && Live(Release(h, b)) == Live(h) - {b} && b !in h.free
  {
    BuddyFacts(b);
    assert Ok(h, b) && Ok(h, Buddy(b));
    forall c ensures Ok(Release(h, b), c) {
      assert Ok(h, c);
      if c in h.split && (Left(c) == b || Right(c) == b) {
        assert c == Parent(b);
      }
    }
  }

  lemma MergeKeeps(h: Heap, b: Blk)
    requires Inv(h) && b in Live(h) && b.k < h.top && Buddy(b) !in h.alloc
    ensures Buddy(b) in h.free && Parent(b) in h.split && Parent(b) in h.alloc
    ensures Inv(Merge(h, b)) && Live(Merge(h, b)) == Live(h) - {b} + {Parent(b)}
  {
    BuddyFacts(b);
    assert Ok(h, b) && Ok(h, Buddy(b)) && Ok(h, Parent(b));
    FitsFamily(h.top, b);
    forall c ensures Ok(Merge(h, b), c) {
      assert Ok(h, c);
      if c in h.split && (Left(c) == b || Right(c) == b) {
        assert c == Parent(b);
      }
    }
  }

  // ---------------------------------------------------------------- consequences

  /** Nothing inside an undivided block is allocated or free. */
  lemma {:induction false} NothingBelow(h: Heap, b: Blk, c: Blk, n: nat)
    requires Inv(h) && Fits(h.top, b) && b !in h.split && c.k < b.k && Contains(b, n) && Contains(c, n)
    ensures c !in h.alloc && c !in h.free
    decreases b.k - c.k
  {
    assert Ok(h, c) && Ok(h, Parent(c));
    if c.k + 1 == b.k {
      assert Parent(c) == b;
    } else {
      NothingBelow(h, b, Parent(c), n);
    }
  }

  /** Every byte below an allocated block lies in some live or free block. */
  lemma {:induction false} Covered(h: Heap, k: nat, n: nat) returns (b: Blk)
    requires Inv(h) && k <= h.top && n < BlkSize(h.top) && Blk(k, BlkIndex(k, n)) in h.alloc
    ensures b in Live(h) + h.free && Contains(b, n)
    decreases k
  {
    b := Blk(k, BlkIndex(k, n));
    assert Ok(h, b);
    if b in h.split {
      var c := Blk(k - 1, BlkIndex(k - 1, n));
      assert Parent(c) == b && Ok(h, c);
      if c in h.alloc {
        b := Covered(h, k - 1, n);
      } else {
        ByteFits(h.top, k - 1, n);
        b := c;
      }
    }
  }

  /** Two different live or free blocks share no byte. */
  lemma Disjoint(h: Heap, b: Blk, c: Blk, n: nat)
    requires Inv(h) && b in Live(h) + h.free && c in Live(h) + h.free && Contains(b, n) && Contains(c, n)
    ensures b == c
  {
    assert Ok(h, b) && Ok(h, c);
    if c.k < b.k {
      NothingBelow(h, b, c, n);
    } else if b.k < c.k {
      NothingBelow(h, c, b, n);
    }
  }

  /** Some live or free block holds the byte at offset n. */
  ghost predicate Held(h: Heap, n: nat) {
    exists b :: b in Live(h) + h.free && Contains(b, n)
  }

  /** Live and free blocks tile the managed range: each byte is in exactly one of them, and none reaches past it. */
  lemma Tiling(h: Heap)
    requires Inv(h)
    ensures forall n: nat :: n < BlkSize(h.top) ==> Held(h, n)
    ensures forall b, c, n: nat ::
              b in Live(h) + h.free && c in Live(h) + h.free && Contains(b, n) && Contains(c, n) ==> b == c
    ensures forall b :: b in Live(h) + h.free ==> Addr(b.k, b.i) + BlkSize(b.k) <= BlkSize(h.top)
  {
    forall n: nat | n < BlkSize(h.top) ensures Held(h, n) {
      TopIsZero(h.top);
      IndexInterval(h.top, 0, n);
      var w := Covered(h, h.top, n);
    }
    forall b, c, n: nat | b in Live(h) + h.free && c in Live(h) + h.free && Contains(b, n) && Contains(c, n)
      ensures b == c
    {
      Disjoint(h, b, c, n);
    }
    forall b | b in Live(h) + h.free ensures Addr(b.k, b.i) + BlkSize(b.k) <= BlkSize(h.top) {
      assert Ok(h, b);
      BlockInRange(h.top, b);
    }
  }

  lemma {:induction false} AllocDetermined(g: Heap, h: Heap, b: Blk)
    requires Inv(g) && Inv(h) && g.top == h.top && Live(g) == Live(h) && b in g.alloc
    ensures b in h.alloc && (b in g.split ==> b in h.split)
    decreases b.k
  {
    assert Ok(g, b) && Ok(h, b);
    if b in Live(g) {
      assert b in Live(h);
    } else {
      var c := if Left(b) in g.alloc then Left(b) else Right(b);
      AllocDetermined(g, h, c);
      assert Parent(c) == b && Ok(h, c) && Ok(g, c);
    }
  }

  /** The whole allocator state is a function of the set of live blocks. */
  lemma LiveDeterminesHeap(g: Heap, h: Heap)
    requires Inv(g) && Inv(h) && g.top == h.top && Live(g) == Live(h)
    ensures g == h
  {
    forall b ensures (b in g.alloc <==> b in h.alloc) && (b in g.split <==> b in h.split) {
      assert Ok(g, b) && Ok(h, b);
      if b in g.alloc {
        AllocDetermined(g, h, b);
      }
      if b in h.alloc {
        AllocDetermined(h, g, b);
      }
    }
    assert g.alloc == h.alloc && g.split == h.split;
    forall b ensures b in g.free <==> b in h.free {
      assert Ok(g, b) && Ok(h, b);
    }
    assert g.free == h.free;
  }

  /** No live block overlaps block b. */
  ghost predicate WhollyFree(h: Heap, b: Blk) {
    forall c, n: nat :: c in Live(h) && Contains(c, n) ==> !Contains(b, n)
  }

  /** A wholly free block lies inside a block of some free list at its class or above. */
  lemma {:induction false} FreeAbove(h: Heap, b: Blk, c: Blk, n: nat) returns (f: Blk)
    requires Inv(h) && Fits(h.top, c) && b.k <= c.k && WhollyFree(h, b)
    requires Contains(b, n) && Contains(c, n) && c !in h.alloc
    ensures f in h.free && f.k >= b.k
    decreases h.top - c.k
  {
    var p := Parent(c);
    assert c.k < h.top;
    FitsFamily(h.top, c);
    assert Contains(p, n);
    assert Ok(h, c);
    if p !in h.alloc {
      f := FreeAbove(h, b, p, n);
    } else {
      assert p !in Live(h);
      f := c;
    }
  }

  lemma {:induction false} AllocHasLive(h: Heap, b: Blk) returns (c: Blk, n: nat)
    requires Inv(h) && b in h.alloc
    ensures c in Live(h) && Contains(c, n) && Contains(b, n)
    decreases b.k
  {
    assert Ok(h, b);
    if b in Live(h) {
      c, n := b, Addr(b.k, b.i);
      IndexOfAddr(b.k, b.i);
    } else {
      var d := if Left(b) in h.alloc then Left(b) else Right(b);
      c, n := AllocHasLive(h, d);
      assert Parent(d) == b;
    }
  }

  lemma FreeIsWhollyFree(h: Heap, f: Blk)
    requires Inv(h) && f in h.free
    ensures WhollyFree(h, f)
  {
    assert Ok(h, f);
    forall c, n: nat | c in Live(h) && Contains(c, n) ensures !Contains(f, n) {
      if Contains(f, n) {
        Disjoint(h, c, f, n);
      }
    }
  }

  /** The first block of class k inside free block f. */
  lemma FreeHoldsFit(h: Heap, f: Blk, k: nat) returns (b: Blk)
    requires Inv(h) && f in h.free && k <= f.k
    ensures b.k == k && Fits(h.top, b) && WhollyFree(h, b)
  {
    var n := Addr(f.k, f.i);
    IndexOfAddr(f.k, f.i);
    b := Blk(k, BlkIndex(k, n));
    assert Ok(h, f);
    BlockInRange(h.top, f);
    ByteFits(h.top, k, n);
    forall c, m: nat | c in Live(h) && Contains(c, m)
      ensures !Contains(b, m)
    {
      if Contains(b, m) {
        Nested(b, f, n, m);
        Disjoint(h, c, f, m);
      }
    }
  }

  /** A block that overlaps no live block exists at class k exactly when some free list at k or above is non-empty. */
  lemma FitIffFreeList(h: Heap, k: nat)
    requires Inv(h)
    ensures (exists b: Blk :: b.k == k && Fits(h.top, b) && WhollyFree(h, b)) <==> (exists f :: f in h.free && f.k >= k)
  {
    if b: Blk :| b.k == k && Fits(h.top, b) && WhollyFree(h, b) {
      IndexOfAddr(b.k, b.i);
      if b in h.alloc {
        var c, m := AllocHasLive(h, b);
        assert false;
      }
      var f := FreeAbove(h, b, b, Addr(b.k, b.i));
    }
    if f :| f in h.free && f.k >= k {
      var b := FreeHoldsFit(h, f, k);
    }
  }

  /** The class of a live block is the least k whose enclosing block of class k + 1 is split. */
  lemma ClassOfLive(h: Heap, b: Blk, n: nat)
    requires Inv(h) && b in Live(h) && b.k < h.top && Contains(b, n)
    ensures Blk(b.k + 1, BlkIndex(b.k + 1, n)) in h.split
    ensures forall j :: 0 < j <= b.k ==> Blk(j, BlkIndex(j, n)) !in h.split
  {
    assert Parent(b) == Blk(b.k + 1, BlkIndex(b.k + 1, n));
    assert Ok(h, b);
    forall j | 0 < j <= b.k
      ensures Blk(j, BlkIndex(j, n)) !in h.split
    {
      var c := Blk(j, BlkIndex(j, n));
      assert Ok(h, c);
      if c.k < b.k {
        NothingBelow(h, b, c, n);
      } else {
        assert c == b;
      }
    }
  }

  // ---------------------------------------------------------------- runs

  datatype Op = Malloc(b: Blk) | Free(b: Blk)

  /** One call seen from outside: which live block appears or disappears. */
  ghost predicate Call(g: Heap, op: Op, h: Heap) {
    && Inv(g) && Inv(h) && g.top == h.top
    && match op
       case Malloc(b) => b !in Live(g) && Live(h) == Live(g) + {b}
       case Free(b) => b in Live(g) && Live(h) == Live(g) - {b}
  }

  ghost predicate Run(hs: seq<Heap>, ops: seq<Op>) {
    && |hs| == |ops| + 1
    && forall j :: 0 <= j < |ops| ==> Call(hs[j], ops[j], hs[j + 1])
  }

  /** The set of live blocks after a run, from its calls alone. */
  function After(live: set<Blk>, ops: seq<Op>): set<Blk> {
    if ops == [] then live
    else
      var before := After(live, ops[..|ops| - 1]);
      match ops[|ops| - 1]
      case Malloc(b) => before + {b}
      case Free(b) => before - {b}
  }

  lemma {:induction false} RunLive(hs: seq<Heap>, ops: seq<Op>)
    requires Run(hs, ops)
    ensures Live(hs[|ops|]) == After(Live(hs[0]), ops) && hs[|ops|].top == hs[0].top
    decreases |ops|
  {
    if ops != [] {
      var m := |ops| - 1;
      RunLive(hs[..|hs| - 1], ops[..m]);
      assert Call(hs[m], ops[m], hs[m + 1]);
    }
  }

  /** A run whose calls cancel out restores both bitmaps and every free set. */
  lemma CancellingRunRestores(hs: seq<Heap>, ops: seq<Op>)
    requires Run(hs, ops) && ops != [] && After(Live(hs[0]), ops) == Live(hs[0])
    ensures hs[|ops|] == hs[0]
  {
    RunLive(hs, ops);
    assert Call(hs[0], ops[0], hs[1]);
    assert Call(hs[|ops| - 1], ops[|ops| - 1], hs[|ops|]);
    LiveDeterminesHeap(hs[|ops|], hs[0]);
  }

  function Frees(bs: seq<Blk>): (ops: seq<Op>)
    ensures |ops| == |bs| && forall j :: 0 <= j < |bs| ==> ops[j] == Free(bs[j])
  {
    seq(|bs|, j requires 0 <= j < |bs| => Free(bs[j]))
  }

  lemma {:induction false} AfterFrees(live: set<Blk>, ops: seq<Op>, bs: seq<Blk>)
    ensures After(live, ops + Frees(bs)) == After(live, ops) - (set b | b in bs)
    decreases |bs|
  {
    if bs == [] {
      assert ops + Frees(bs) == ops;
    } else {
      var m := |bs| - 1;
      var all := ops + Frees(bs);
      assert all[..|all| - 1] == ops + Frees(bs[..m]);
      AfterFrees(live, ops, bs[..m]);
      assert bs == bs[..m] + [bs[m]];
    }
  }

  /** Whatever was called before, freeing every block allocated since the start, in any order, returns to the start. */
  lemma FreeAllInAnyOrder(hs: seq<Heap>, ops: seq<Op>, bs: seq<Blk>)
    requires bs != [] && Run(hs, ops + Frees(bs))
    requires Live(hs[0]) <= After(Live(hs[0]), ops)
    requires forall b :: b in bs <==> b in After(Live(hs[0]), ops) - Live(hs[0])
    ensures hs[|hs| - 1] == hs[0]
  {
    AfterFrees(Live(hs[0]), ops, bs);
    CancellingRunRestores(hs, ops + Frees(bs));
  }
}
