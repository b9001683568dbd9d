/** What bd_init must leave behind: the maximal aligned decomposition of the free range, and its arithmetic. */
module BuddyInit {
  import opened BuddySpec

  /** First block of class k that starts at or after offset n (blk_index_next). */
  function BlkIndexNext(k: nat, n: nat): nat {
    var bi := BlkIndex(k, n);
    if Addr(k, bi) != n then bi + 1 else bi
  }

  lemma {:induction false} NextHalves(k: nat, n: nat)
    ensures BlkIndexNext(k + 1, n) == (BlkIndexNext(k, n) + 1) / 2
  {
    var bi := BlkIndex(k, n);
    AddrNext(k, 2 * (bi / 2));
    IndexInterval(k, bi, n);
  }

  /** Blocks of class k below l or from r on are marked; those in between are free. */
  datatype Range = Range(l: nat, r: nat)

  function RangeAt(k: nat, meta: nat, stop: nat): Range {
    Range(BlkIndexNext(k, meta), BlkIndex(k, stop))
  }

  function Halve(g: Range): Range { Range((g.l + 1) / 2, g.r / 2) }

  predicate Marked(g: Range, i: nat) { i < g.l || i >= g.r }

  function AllBlocks(top: nat): (s: set<Blk>)
    ensures forall b :: b in s <==> Fits(top, b)
  {
    var s := set k, i | 0 <= k <= top && 0 <= i < Pow2(top - k) :: Blk(k, i);
    assert forall b :: Fits(top, b) ==> b == Blk(b.k, b.i) && b in s;
    s
  }

  /** The state bd_init is to reach for a heap whose first meta bytes and whose bytes from stop on are reserved. */
  function InitHeap(top: nat, meta: nat, stop: nat): Heap {
    var alloc := set b: Blk | b in AllBlocks(top) && Marked(RangeAt(b.k, meta, stop), b.i);
    var split := set b: Blk | b in alloc && b.k > 0;
    var free := set b: Blk | b in AllBlocks(top) && b.k < top && OnList(RangeAt(b.k, meta, stop), b.i);
    Heap(top, alloc, split, free)
  }

  /** Block i belongs to the decomposition at its class: it is free and its parent is not. */
  predicate OnList(g: Range, i: nat) {
    g.l <= i < g.r && ((i == g.l && g.l % 2 == 1) || (i == g.r - 1 && g.r % 2 == 1))
  }

  lemma OnListIff(g: Range, i: nat)
    ensures OnList(g, i) <==> !Marked(g, i) && Marked(Halve(g), i / 2)
  {
  }

  lemma RangeHalves(k: nat, meta: nat, stop: nat)
    ensures RangeAt(k + 1, meta, stop) == Halve(RangeAt(k, meta, stop))
  {
    NextHalves(k, meta);
  }

  /** What the initial heap says of block b. */
  ghost predicate InitAt(h: Heap, meta: nat, stop: nat, b: Blk) {
    var g := RangeAt(b.k, meta, stop);
    && (b in h.alloc <==> Fits(h.top, b) && Marked(g, b.i))
    && (b in h.split <==> Fits(h.top, b) && b.k > 0 && Marked(g, b.i))
    && (b in h.free <==> Fits(h.top, b) && b.k < h.top && OnList(g, b.i))
  }

  ghost predicate IsInitHeap(h: Heap, top: nat, meta: nat, stop: nat) {
    h.top == top && forall b :: InitAt(h, meta, stop, b)
  }

  lemma InitHeapExists(top: nat, meta: nat, stop: nat) returns (h: Heap)
    ensures IsInitHeap(h, top, meta, stop)
  {
    h := InitHeap(top, meta, stop);
  }

  lemma MarkedChild(g: Range, i: nat)
    ensures Marked(Halve(g), i) <==> Marked(g, 2 * i) || Marked(g, 2 * i + 1)
  {
  }

  lemma InitOk(h: Heap, meta: nat, stop: nat, b: Blk)
    requires forall c :: InitAt(h, meta, stop, c)
    ensures Ok(h, b)
  {
    assert InitAt(h, meta, stop, b);
    var g := RangeAt(b.k, meta, stop);
    RangeHalves(b.k, meta, stop);
    if Fits(h.top, b) {
      FitsFamily(h.top, b);
      OnListIff(g, b.i);
      assert InitAt(h, meta, stop, Parent(b));
      MarkedChild(g, b.i / 2);
      if b.k > 0 {
        RangeHalves(b.k - 1, meta, stop);
        MarkedChild(RangeAt(b.k - 1, meta, stop), b.i);
        assert InitAt(h, meta, stop, Left(b)) && InitAt(h, meta, stop, Right(b));
      }
    }
  }

  /** The state bd_init aims at satisfies the allocator's invariant; its live blocks are the reserved leaves. */
  lemma InitHeapInv(top: nat, meta: nat, stop: nat, h: Heap)
    requires 0 < meta && stop < BlkSize(top)
    requires IsInitHeap(h, top, meta, stop)
    ensures Inv(h)
    ensures forall b :: b in Live(h) <==> b.k == 0 && Fits(top, b) && Marked(RangeAt(0, meta, stop), b.i)
    ensures Live(h) != {}
  {
    forall b ensures Ok(h, b) { InitOk(h, meta, stop, b); }
    assert Blk(top, 0) in h.alloc by {
      TopIsZero(top);
      IndexInterval(top, 0, stop);
      assert InitAt(h, meta, stop, Blk(top, 0));
    }
    forall b ensures b in Live(h) <==> b.k == 0 && Fits(top, b) && Marked(RangeAt(0, meta, stop), b.i) {
      assert InitAt(h, meta, stop, b);
    }
    ByteFits(top, 0, 0);
    assert BlkIndexNext(0, meta) > 0;
    assert Blk(0, 0) in Live(h);
  }

  // ---------------------------------------------------------------- the total

  /** Bytes bd_initfree_pair puts on list k for the pair that holds block bi. */
  function PairBytes(k: nat, g: Range, bi: nat): nat
  {
    var buddy := if bi % 2 == 0 then bi + 1 else bi - 1;
    if Marked(g, bi) != Marked(g, buddy) then BlkSize(k) else 0
  }

  function ClassBytes(k: nat, g: Range): nat {
    PairBytes(k, g, g.l) + if g.r <= g.l then 0 else PairBytes(k, g, g.r)
  }

  /** Bytes bd_initfree puts on the lists from class k up. */
  function InitFreeBytes(k: nat, top: nat, g: Range): nat
    decreases top - k
  {
    if k >= top then 0
    else
      ClassBytes(k, g) + InitFreeBytes(k + 1, top, Halve(g))
  }

  /** At this class the free range is a single block that is the first of its pair: both calls of
      bd_initfree_pair look at that pair and push the same block twice. */
  predicate Doubled(g: Range) { g.r == g.l + 1 && g.l % 2 == 0 }

  /** Some class in [k, top) pushes a block twice. */
  predicate SomeDoubled(k: nat, top: nat, g: Range)
    decreases top - k
  {
    k < top && (Doubled(g) || SomeDoubled(k + 1, top, Halve(g)))
  }

  lemma {:induction false} EmptyRangeAddsNothing(k: nat, top: nat, g: Range)
    requires g.l >= g.r
    ensures InitFreeBytes(k, top, g) == 0 && !SomeDoubled(k, top, g)
    decreases top - k
  {
    if k < top {
      EmptyRangeAddsNothing(k + 1, top, Halve(g));
    }
  }

  /** Free bytes at class k, as bd_init expects them. */
  function RangeBytes(k: nat, g: Range): int { Addr(k, g.r) - Addr(k, g.l) }

  lemma AddrStep(k: nat, i: nat)
    ensures Addr(k, i) == Addr(k + 1, i / 2) + (if i % 2 == 1 then BlkSize(k) else 0)
    ensures i % 2 == 1 ==> Addr(k + 1, (i + 1) / 2) == Addr(k, i) + BlkSize(k)
  {
    AddrNext(k, i);
    AddrNext(k, 2 * (i / 2));
  }

  lemma PairsAtClass(k: nat, g: Range)
    requires 0 < g.l < g.r
    ensures PairBytes(k, g, g.l) == (if g.l % 2 == 1 || Doubled(g) then BlkSize(k) else 0)
    ensures PairBytes(k, g, g.r) == (if g.r % 2 == 1 then BlkSize(k) else 0)
  {
  }

  lemma RangeBytesStep(k: nat, g: Range)
    ensures RangeBytes(k, g) ==
              (if g.l % 2 == 1 then BlkSize(k) else 0) + (if g.r % 2 == 1 then BlkSize(k) else 0)
                + RangeBytes(k + 1, Halve(g))
  {
    AddrStep(k, g.l);
    AddrStep(k, g.r);
  }

  /** The final check of bd_init passes exactly when no class pushes a block twice. */
  lemma {:induction false} TotalExactIff(k: nat, top: nat, g: Range)
    requires k <= top && g.l <= g.r && g.r < Pow2(top - k) && g.l > 0
    ensures InitFreeBytes(k, top, g) >= RangeBytes(k, g)
    ensures InitFreeBytes(k, top, g) == RangeBytes(k, g) <==> !SomeDoubled(k, top, g)
    decreases top - k
  {
    if g.l == g.r {
      EmptyRangeAddsNothing(k, top, g);
    } else {
      assert k < top;
      assert Pow2(top - k) == 2 * Pow2(top - k - 1);
      PairsAtClass(k, g);
      RangeBytesStep(k, g);
      TotalExactIff(k + 1, top, Halve(g));
    }
  }

  /** In a region of 320 bytes, whose metadata takes 208, block 4 of class 2 is pushed twice: bd_init panics. */
  lemma SmallRegionDoubles()
    ensures MetaBytes(5) == 208 && BlkSize(4) < 320 < BlkSize(5)
    ensures var g := RangeAt(0, 208, StopOf(320));
            SomeDoubled(0, 5, g) && InitFreeBytes(0, 5, g) != StopOf(320) - 208
  {
    assert Pow2(3) == 8;
    assert RowBytes(3) == 4;
    assert RowBytes(4) == 6;
    assert Pow2(5) == 32;
    assert RowBytes(5) == 10;
    assert BlkSize(4) == 256;
    var g := RangeAt(0, 208, StopOf(320));
    assert g == Range(13, 20);
    assert Halve(g) == Range(7, 10) && Halve(Halve(g)) == Range(4, 5);
    assert SomeDoubled(2, 5, Range(4, 5)) && SomeDoubled(1, 5, Range(7, 10));
    TotalExactIff(0, 5, g);
  }

  /** With the metadata inside the first quarter and the end in the second half, no block is pushed twice. */
  lemma {:induction false} QuarterNeverDoubled(k: nat, top: nat, g: Range)
    requires k + 2 <= top && 0 < g.l <= Pow2(top - k - 2) && 2 * Pow2(top - k - 2) <= g.r < Pow2(top - k)
    ensures !SomeDoubled(k, top, g)
    decreases top - k
  {
    var q := Pow2(top - k - 2);
    assert Pow2(top - k) == 4 * q;
    if k + 2 == top {
      assert q == 1 && g.l == 1 && (g.r == 2 || g.r == 3);
      var h := Halve(g);
      assert h.l == 1 && h.r == 1;
      EmptyRangeAddsNothing(k + 1, top, h);
    } else {
      assert q == 2 * Pow2(top - k - 3);
      QuarterNeverDoubled(k + 1, top, Halve(g));
    }
  }

  // ---------------------------------------------------------------- the metadata

  const SZ_INFO: nat := 32   // two list pointers and two bitmap pointers

  function BytesFor(n: nat): nat { (n + 7) / 8 }

  /** Bytes of the bitmaps of classes whose block counts are 2^0 .. 2^j. */
  function RowBytes(j: nat): nat {
    BytesFor(Pow2(j)) + (if j == 0 then 0 else RowBytes(j - 1))
  }

  function RoundUp(n: nat): (r: nat)
    ensures n <= r <= n + 15 && r % 16 == 0
  { (n + 15) / 16 * 16 }

  /** Size table, alloc bitmaps of every class, split bitmaps of every class but the smallest. */
  function MetaBytes(top: nat): nat {
    RoundUp(SZ_INFO * (top + 1) + RowBytes(top) + (if top == 0 then 0 else RowBytes(top - 1)))
  }

  lemma {:induction false} RowBytesBound(j: nat)
    ensures 8 * RowBytes(j) <= 2 * Pow2(j) + 7 * (j + 1)
  {
    if j > 0 {
      RowBytesBound(j - 1);
    }
  }

  lemma {:induction false} PowerBeatsTable(top: nat)
    requires top >= 7
    ensures 14 * Pow2(top) >= 136 * top + 300
  {
    if top == 7 {
      assert Pow2(7) == 128;
    } else {
      PowerBeatsTable(top - 1);
    }
  }

  lemma SevenClasses()
    ensures MetaBytes(6) == 256 && BlkSize(6) == 1024
  {
    assert Pow2(3) == 8;
    assert RowBytes(3) == 4;
    assert Pow2(5) == 32;
    assert RowBytes(5) == 10;
    assert RowBytes(6) == 18;
  }

  /** From seven size classes on (over 512 bytes), the metadata fits in the first quarter of the heap. */
  lemma MetaInFirstQuarter(top: nat)
    requires top >= 6
    ensures 0 < MetaBytes(top) && 4 * MetaBytes(top) <= BlkSize(top) && MetaBytes(top) % 16 == 0
  {
    if top == 6 {
      SevenClasses();
    } else {
      var raw := SZ_INFO * (top + 1) + RowBytes(top) + RowBytes(top - 1);
      assert MetaBytes(top) == RoundUp(raw);
      var p := Pow2(top);
      assert 8 * RowBytes(top) <= 2 * p + 7 * (top + 1) by { RowBytesBound(top); }
      assert 8 * RowBytes(top - 1) <= p + 7 * top by { RowBytesBound(top - 1); }
      assert 14 * p >= 136 * top + 300 by { PowerBeatsTable(top); }
      assert BlkSize(top) == 16 * p by { AddrProduct(top, 0); }
    }
  }

  /** Where the free range stops: the end rounded down to a leaf. */
  function StopOf(span: nat): nat { span / 16 * 16 }

  lemma StopRounded(top: nat, span: nat)
    requires span < BlkSize(top)
    ensures BlkSize(top) - RoundUp(BlkSize(top) - span) == StopOf(span)
    ensures BlkSize(top) % 16 == 0 && StopOf(span) % 16 == 0
  {
    AddrProduct(top, 0);
    RoundDown(Pow2(top), span);
  }

  lemma RoundDown(x: nat, span: nat)
    requires span < 16 * x
    ensures 16 * x - RoundUp(16 * x - span) == span / 16 * 16
    ensures (16 * x) % 16 == 0 && (span / 16 * 16) % 16 == 0
  {
    var q, r := span / 16, span % 16;
    assert 16 * x - span == 16 * (x - q) - r;
    assert r == 0 ==> (16 * (x - q) + 15) / 16 == x - q;
    assert r > 0 ==> (16 * (x - q) - r + 15) / 16 == x - q;
  }

  lemma {:induction false} LeftInRange(k: nat, top: nat, meta: nat)
    requires k < top && 2 * meta <= BlkSize(top)
    ensures BlkIndexNext(k, meta) <= Pow2(top - 1 - k)
    ensures meta > 0 ==> BlkIndexNext(k, meta) > 0
  {
    if k == 0 {
      AddrProduct(top, 0);
    } else {
      LeftInRange(k - 1, top, meta);
      NextHalves(k - 1, meta);
    }
  }

  /** With the metadata in the first quarter and the end in the second half, bd_init's total is exact and no push
      repeats. */
  lemma InitRangeGood(top: nat, meta: nat, stop: nat)
    requires top >= 2 && 0 < meta && 4 * meta <= BlkSize(top) && meta % 16 == 0 && stop % 16 == 0
    requires BlkSize(top) <= 2 * stop && stop < BlkSize(top)
    ensures !SomeDoubled(0, top, RangeAt(0, meta, stop))
    ensures InitFreeBytes(0, top, RangeAt(0, meta, stop)) == stop - meta
  {
    var g := RangeAt(0, meta, stop);
    AddrProduct(top, 0);
    var q := Pow2(top - 2);
    assert Pow2(top) == 4 * q;
    assert 0 < g.l <= q && 2 * q <= g.r < 4 * q;
    QuarterNeverDoubled(0, top, g);
    TotalExactIff(0, top, g);
  }

  lemma {:induction false} IndexOfHeapEnd(k: nat, top: nat)
    requires k <= top
    ensures BlkIndex(k, BlkSize(top)) == Pow2(top - k)
  {
    if k == 0 {
      AddrProduct(top, 0);
    } else {
      IndexOfHeapEnd(k - 1, top);
    }
  }

  /** The pair at the right end is a pair of blocks of the heap exactly when the region is not the whole heap. If it is,
      the byte that bd_initfree_pair looks at lies past the bitmap of every class with at least eight blocks. */
  lemma EndPairInBitmapIff(k: nat, top: nat, stop: nat)
    requires k < top && stop <= BlkSize(top)
    ensures Fits(top, Blk(k, BlkIndex(k, stop))) <==> stop < BlkSize(top)
    ensures BlkIndex(k, stop) / 8 < BytesFor(Pow2(top - k)) <==> stop < BlkSize(top) || top - k < 3
  {
    if stop < BlkSize(top) {
      ByteFits(top, k, stop);
      ByteOfBit(BlkIndex(k, stop), Pow2(top - k));
    } else {
      IndexOfHeapEnd(k, top);
      PastTheBits(top - k);
    }
  }

  lemma PastTheBits(n: nat)
    requires n > 0
    ensures Pow2(n) / 8 < BytesFor(Pow2(n)) <==> n < 3
  {
    if n >= 3 {
      EighthOfPower(n);
    } else {
      assert Pow2(1) == 2 && Pow2(2) == 4;
    }
  }

  lemma ByteOfBit(i: nat, n: nat)
    requires i < n
    ensures i / 8 < BytesFor(n)
  {
  }

  lemma EighthOfPower(n: nat)
    requires n >= 3
    ensures Pow2(n) == 8 * Pow2(n - 3)
  {
    assert Pow2(n - 1) == 4 * Pow2(n - 3);
  }

  /** The unmarked member of the pair that holds block bi. */
  function PairFree(g: Range, k: nat, bi: nat): Blk {
    if Marked(g, bi) then Buddy(Blk(k, bi)) else Blk(k, bi)
  }

  /** The pairs at the two ends push different blocks. */
  lemma PairsDiffer(g: Range, k: nat)
    requires 0 < g.l < g.r && !Doubled(g)
    ensures PairBytes(k, g, g.l) > 0 ==> PairFree(g, k, g.r) != PairFree(g, k, g.l)
  {
  }

  /** Every block of the decomposition at class k is the free member of one of the two pairs. */
  lemma EndPairsSuffice(g: Range, k: nat, i: nat)
    requires 0 < g.l && OnList(g, i)
    ensures || (PairBytes(k, g, g.l) > 0 && PairFree(g, k, g.l) == Blk(k, i))
            || (g.l < g.r && PairBytes(k, g, g.r) > 0 && PairFree(g, k, g.r) == Blk(k, i))
  {
  }

  lemma {:induction false} EndInRange(k: nat, top: nat, stop: nat)
    requires k <= top && stop <= BlkSize(top)
    ensures BlkIndexNext(k, stop) <= Pow2(top - k)
    ensures stop == BlkSize(top) ==> BlkIndexNext(k, stop) == Pow2(top - k)
    ensures BlkIndex(k, 0) == 0
  {
    if k == 0 {
      AddrProduct(top, 0);
    } else {
      EndInRange(k - 1, top, stop);
      NextHalves(k - 1, stop);
    }
  }

  /** Least top class whose block covers the span, as log2 and the final increment compute it. */
  function Log2Of(n: nat): nat {
    if n <= 1 then 0 else 1 + Log2Of(n / 2)
  }

  lemma {:induction false} Log2Bounds(n: nat)
    requires n > 0
    ensures Pow2(Log2Of(n)) <= n < 2 * Pow2(Log2Of(n))
  {
    if n > 1 {
      Log2Bounds(n / 2);
    }
  }
}
