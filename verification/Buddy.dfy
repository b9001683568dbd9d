/** The buddy allocator (kernel/buddy.c): packed bitmaps and intrusive free lists, refining BuddySpec.
    Addresses are byte offsets from bd_base. */
module BuddyAllocator {
  import opened Prelude
  import opened BuddySpec
  import Bits
  import opened List
  import BI = BuddyInit
  import opened BuddyInt

  /** A list node: the head embedded in the size table, or the first bytes of a free block. */
  datatype Node = Head(k: nat) | Elem(addr: nat)

  type NodePtrs = Ptrs<Node>

  const TWO63: nat := 0x8000_0000_0000_0000

  /** Both bitmaps agree with the abstract heap at block b. */
  ghost predicate BitsAgree(alloc: seq<seq<bv8>>, split: seq<seq<bv8>>, h: Heap, b: Blk) {
    Fits(h.top, b) ==>
      && b.k < |alloc| && b.i / 8 < |alloc[b.k]| && (b in h.alloc <==> Bits.IsSet(alloc[b.k], b.i))
      && b.k < |split| && b.i / 8 < |split[b.k]| && (b in h.split <==> Bits.IsSet(split[b.k], b.i))
  }

  lemma BitsAt(alloc: seq<seq<bv8>>, split: seq<seq<bv8>>, h: Heap, b: Blk)
    requires forall c :: BitsAgree(alloc, split, h, c)
    ensures BitsAgree(alloc, split, h, b)
  {
  }

  function NodeOf(b: Blk): Node { Elem(Addr(b.k, b.i)) }

  /** Free list k holds only first bytes of free blocks of class k. */
  ghost predicate ListSound(lists: seq<seq<Node>>, h: Heap, k: nat) {
    k < |lists| ==>
      forall x :: x in lists[k] ==>
        x.Elem? && Blk(k, BlkIndex(k, x.addr)) in h.free && x == NodeOf(Blk(k, BlkIndex(k, x.addr)))
  }

  /** Free list k holds the first bytes of exactly the free blocks of class k. */
  ghost predicate ListAgrees(lists: seq<seq<Node>>, h: Heap, k: nat) {
    ListSound(lists, h, k) && (k < |lists| ==> forall b :: b in h.free && b.k == k ==> NodeOf(b) in lists[k])
  }

  /** Different free blocks, of whatever class, start at different addresses. */
  lemma ListsDisjoint(lists: seq<seq<Node>>, h: Heap, j: nat, k: nat, x: Node)
    requires Inv(h) && ListSound(lists, h, j) && ListSound(lists, h, k)
    requires j < |lists| && k < |lists| && x in lists[j] && x in lists[k]
    ensures j == k
  {
    Disjoint(h, Blk(j, BlkIndex(j, x.addr)), Blk(k, BlkIndex(k, x.addr)), x.addr);
  }

  /** The first byte of a live block is on no free list. */
  lemma LiveNotListed(lists: seq<seq<Node>>, h: Heap, b: Blk, k: nat)
    requires Inv(h) && b in Live(h) && ListAgrees(lists, h, k) && k < |lists|
    ensures NodeOf(b) !in lists[k]
  {
    var n := Addr(b.k, b.i);
    IndexOfAddr(b.k, b.i);
    OkAt(h, b);
    if NodeOf(b) in lists[k] {
      Disjoint(h, b, Blk(k, BlkIndex(k, n)), n);
    }
  }

  /** Least size class whose blocks hold n bytes. */
  ghost predicate IsFirstK(k: nat, n: nat) {
    n <= BlkSize(k) && forall j :: 0 <= j < k ==> BlkSize(j) < n
  }

  /** What firstk's uint64 variable size holds after j doublings. */
  function WrappedSize(j: nat): nat {
    if j == 0 then LEAF_SIZE else (WrappedSize(j - 1) * 2) % (2 * TWO63)
  }

  lemma WrappedSizeExact(j: nat)
    ensures j <= 59 ==> WrappedSize(j) == BlkSize(j) <= TWO63
    ensures j == 59 ==> WrappedSize(j) == TWO63
    ensures j >= 60 ==> WrappedSize(j) == 0
  {
    if j <= 60 {
      Doublings();
    }
  }

  lemma Doublings()
    ensures BlkSize(59) == TWO63
    ensures forall j :: 0 <= j <= 59 ==> WrappedSize(j) == BlkSize(j) <= TWO63
  {
    assert BlkSize(10) == 0x4000;
    assert BlkSize(20) == 0x100_0000;
    assert BlkSize(30) == 0x4_0000_0000;
    assert BlkSize(40) == 0x1000_0000_0000;
    assert BlkSize(50) == 0x40_0000_0000_0000;
    assert BlkSize(59) == TWO63;
    forall j | 0 <= j <= 59 ensures WrappedSize(j) == BlkSize(j) <= TWO63 {
      SizeMonotone(j, 59);
      WrapLow(j);
    }
  }

  lemma {:induction false} WrapLow(j: nat)
    requires BlkSize(j) <= TWO63
    ensures WrappedSize(j) == BlkSize(j)
  {
    if j > 0 {
      WrapLow(j - 1);
    }
  }

  /** firstk's loop has an exit exactly for requests up to 2^63 bytes: above that, size wraps to 0 and stays there. */
  lemma FirstKTerminatesIff(n: nat)
    requires n < 2 * TWO63
    ensures (exists j: nat :: !(WrappedSize(j) < n)) <==> n <= TWO63
  {
    if n <= TWO63 {
      WrappedSizeExact(59);
    } else {
      forall j: nat ensures WrappedSize(j) < n {
        WrappedSizeExact(j);
      }
    }
  }

  method FirstK(n: nat) returns (k: nat)
    requires n <= TWO63
    ensures IsFirstK(k, n)
  {
    k := 0;
    var size := LEAF_SIZE;
    Doublings();
    while size < n
      invariant size == WrappedSize(k) == BlkSize(k)
      invariant k <= 59
      invariant forall j :: 0 <= j < k ==> BlkSize(j) < n
      decreases 59 - k
    {
      k := k + 1;
      size := (size * 2) % (2 * TWO63);
    }
  }

  method Log2(n: nat) returns (k: nat)
    ensures k == BI.Log2Of(n)
  {
    k := 0;
    var m := n;
    while m > 1
      invariant k + BI.Log2Of(m) == BI.Log2Of(n)
    {
      k := k + 1;
      m := m / 2;
    }
  }

  lemma TopFromSpan(t: nat, span: nat)
    requires span > 512 && forall k: nat :: span != BlkSize(k)
    requires var l := BI.Log2Of(span / 16); t == if span > BlkSize(l) then l + 1 else l
    ensures t >= 6 && IsFirstK(t, span) && span < BlkSize(t) <= 2 * BI.StopOf(span)
  {
    var l := BI.Log2Of(span / 16);
    var p := Pow2(l);
    assert p <= span / 16 < 2 * p by { BI.Log2Bounds(span / 16); }
    assert BlkSize(l) == 16 * p by { AddrProduct(l, 0); }
    assert span != BlkSize(l);
    assert BlkSize(l) < span < 2 * BlkSize(l);
    assert t == l + 1 && BlkSize(t) == 2 * BlkSize(l);
    assert 16 * p <= span / 16 * 16;
    SmallTops(l);
    forall j | 0 <= j < t ensures BlkSize(j) < span {
      SizeMonotone(j, l);
    }
  }

  lemma SmallTops(l: nat)
    ensures l < 5 ==> 2 * BlkSize(l) <= 512
  {
    if l < 5 {
      SizeMonotone(l, 4);
      assert BlkSize(4) == 256;
    }
  }

  /** A region below 2^31 bytes has a heap of at most 2^31. */
  lemma SmallHeap(t: nat, span: nat)
    requires IsFirstK(t, span) && span < TWO31
    ensures BlkSize(t) <= TWO31
  {
    assert BlkSize(5) == 0x200;
    assert BlkSize(10) == 0x4000;
    assert BlkSize(15) == 0x8_0000;
    assert BlkSize(20) == 0x100_0000;
    assert BlkSize(25) == 0x2000_0000;
    assert BlkSize(27) == TWO31;
    assert t <= 27;
    SizeMonotone(t, 27);
  }

  /** One zeroed bitmap per class; bytes counts those of class from and up. */
  method MakeRows(top: nat, from: nat) returns (rows: seq<seq<bv8>>, bytes: nat)
    requires from <= top
    ensures Shaped(rows, top)
    ensures AllClear(rows)
    ensures bytes == BI.RowBytes(top - from)
  {
    rows, bytes := [], 0;
    for k := 0 to top + 1
      invariant |rows| == k
      invariant forall j :: 0 <= j < k ==> rows[j] == seq(BI.BytesFor(Pow2(top - j)), _ => 0 as bv8)
      invariant bytes + (if k < from then BI.RowBytes(top - from) else if k <= top then BI.RowBytes(top - k) else 0) ==
                  BI.RowBytes(top - from)
    {
      var sz := BI.BytesFor(Pow2(top - k));
      rows := rows + [seq(sz, _ => 0 as bv8)];
      if k >= from {
        bytes := bytes + sz;
      }
    }
    forall k, i: nat | 0 <= k <= top && i / 8 < |rows[k]| ensures !Bits.IsSet(rows[k], i) {
      Bits.ZeroIsClear(|rows[k]|, i);
    }
  }

  /** The first part of bd_init: size classes, zeroed bitmaps, metadata size, unusable tail. */
  method Layout(span: nat) returns (t: nat, rows: seq<seq<bv8>>, more: seq<seq<bv8>>, meta: nat, unavailable: nat)
    requires 512 < span < TWO31 && forall k: nat :: span != BlkSize(k)
    ensures t >= 6 && IsFirstK(t, span) && BlkSize(t) <= TWO31
    ensures Shaped(rows, t) && Shaped(more, t) && AllClear(rows) && AllClear(more)
    ensures meta == BI.MetaBytes(t) && meta % 16 == 0 && 0 < 4 * meta <= BlkSize(t)
    ensures BlkSize(t) == unavailable + BI.StopOf(span) && unavailable > 0
    ensures BlkSize(t) <= 2 * BI.StopOf(span) && BI.StopOf(span) % 16 == 0 && BlkSize(t) % 16 == 0
  {
    t := Log2(span / 16);
    if span > BlkSize(t) {
      t := t + 1;
    }
    assert t >= 6 && IsFirstK(t, span) && span < BlkSize(t) <= 2 * BI.StopOf(span) by { TopFromSpan(t, span); }
    SmallHeap(t, span);
    meta, rows, more := MetaRows(t);
    unavailable := Unavailable(t, span);
  }

  /** bd_mark_unavailable's count: what the heap has past the end, rounded up to leaves. */
  method Unavailable(t: nat, span: nat) returns (unavailable: nat)
    requires 16 <= span < BlkSize(t) <= TWO31
    ensures BlkSize(t) == unavailable + BI.StopOf(span) && unavailable > 0
    ensures BI.StopOf(span) % 16 == 0 && BlkSize(t) % 16 == 0
  {
    BI.StopRounded(t, span);
    IntExact(BlkSize(t) - span);
    IntExact(BI.RoundUp(BlkSize(t) - span));
    unavailable := Int(BI.RoundUp(Int(BlkSize(t) - span)));
  }

  /** The metadata's size, as bd_mark_data_structures keeps it. */
  method MetaSize(t: nat, allocBytes: nat, splitBytes: nat) returns (meta: nat)
    requires t >= 6 && BlkSize(t) <= TWO31 && allocBytes == BI.RowBytes(t) && splitBytes == BI.RowBytes(t - 1)
    ensures meta == BI.MetaBytes(t) && meta % 16 == 0 && 0 < 4 * meta <= BlkSize(t)
  {
    var p := BI.RoundUp(BI.SZ_INFO * (t + 1) + allocBytes + splitBytes);
    assert p == BI.MetaBytes(t);
    BI.MetaInFirstQuarter(t);
    IntExact(p);
    meta := Int(p);
  }

  method MetaRows(t: nat) returns (meta: nat, rows: seq<seq<bv8>>, more: seq<seq<bv8>>)
    requires t >= 6 && BlkSize(t) <= TWO31
    ensures Shaped(rows, t) && Shaped(more, t) && AllClear(rows) && AllClear(more)
    ensures meta == BI.MetaBytes(t) && meta % 16 == 0 && 0 < 4 * meta <= BlkSize(t)
  {
    var allocBytes, splitBytes: nat;
    rows, allocBytes := MakeRows(t, 0);
    more, splitBytes := MakeRows(t, 1);
    meta := MetaSize(t, allocBytes, splitBytes);
  }

  ghost predicate Shaped(rows: seq<seq<bv8>>, top: nat) {
    |rows| == top + 1 && forall k :: 0 <= k <= top ==> |rows[k]| == BI.BytesFor(Pow2(top - k))
  }

  ghost predicate AllClear(rows: seq<seq<bv8>>) {
    forall k, i: nat :: 0 <= k < |rows| && i / 8 < |rows[k]| ==> !Bits.IsSet(rows[k], i)
  }

  /** At every class from the given one up, exactly the bits below the metadata's end are set. */
  ghost predicate PrefixMarked(rows: seq<seq<bv8>>, from: nat, meta: nat) {
    forall k, i: nat ::
      0 <= k < |rows| && i / 8 < |rows[k]| ==> (Bits.IsSet(rows[k], i) <==> k >= from && i < BI.BlkIndexNext(k, meta))
  }

  lemma FirstMark(top: nat, alloc: seq<seq<bv8>>, split: seq<seq<bv8>>, alloc': seq<seq<bv8>>, split': seq<seq<bv8>>,
                  meta: nat)
    requires Shaped(alloc, top) && Shaped(split, top) && Shaped(alloc', top) && Shaped(split', top)
    requires AllClear(alloc) && AllClear(split) && split'[0] == split[0] && meta <= BlkSize(top)
    requires forall k :: 0 <= k <= top ==> RowMarked(alloc'[k], alloc[k], BlkIndex(k, 0), BI.BlkIndexNext(k, meta))
    requires forall k :: 0 < k <= top ==> RowMarked(split'[k], split[k], BlkIndex(k, 0), BI.BlkIndexNext(k, meta))
    ensures PrefixMarked(alloc', 0, meta) && PrefixMarked(split', 1, meta)
  {
    forall k, i: nat | 0 <= k <= top && i / 8 < |alloc'[k]|
      ensures Bits.IsSet(alloc'[k], i) <==> i < BI.BlkIndexNext(k, meta)
    {
      BI.EndInRange(k, top, meta);
      assert RowMarked(alloc'[k], alloc[k], 0, BI.BlkIndexNext(k, meta));
    }
    forall k, i: nat | 0 <= k <= top && i / 8 < |split'[k]|
      ensures Bits.IsSet(split'[k], i) <==> k > 0 && i < BI.BlkIndexNext(k, meta)
    {
      BI.EndInRange(k, top, meta);
      if k > 0 {
        assert RowMarked(split'[k], split[k], 0, BI.BlkIndexNext(k, meta));
      }
    }
  }

  /** Bits lo up to hi are set, the others as before. */
  ghost predicate RowMarked(row': seq<bv8>, row: seq<bv8>, lo: nat, hi: nat) {
    |row'| == |row| && forall j: nat :: j / 8 < |row| ==> (Bits.IsSet(row', j) <==> lo <= j < hi || Bits.IsSet(row, j))
  }

  method MarkRow(row: seq<bv8>, bi: nat, bj: nat) returns (r: seq<bv8>)
    requires bj <= 8 * |row|
    ensures RowMarked(r, row, bi, bj)
  {
    r := row;
    var i := bi;
    while i < bj
      invariant if bi <= bj then bi <= i <= bj else i == bi
      invariant RowMarked(r, row, bi, i)
    {
      SetBit(r, i);
      r := Bits.Set(r, i);
      i := i + 1;
    }
  }

  lemma InitBits(top: nat, alloc1: seq<seq<bv8>>, split1: seq<seq<bv8>>, alloc: seq<seq<bv8>>, split: seq<seq<bv8>>,
                 meta: nat, stop: nat, h: Heap)
    requires BI.IsInitHeap(h, top, meta, stop)
    requires Shaped(alloc1, top) && Shaped(split1, top) && Shaped(alloc, top) && Shaped(split, top)
    requires PrefixMarked(alloc1, 0, meta) && PrefixMarked(split1, 1, meta)
    requires forall k ::
               0 <= k <= top ==> RowMarked(alloc[k], alloc1[k], BlkIndex(k, stop), BI.BlkIndexNext(k, BlkSize(top)))
    requires forall k ::
               0 < k <= top ==> RowMarked(split[k], split1[k], BlkIndex(k, stop), BI.BlkIndexNext(k, BlkSize(top)))
    requires split[0] == split1[0]
    ensures forall b :: BitsAgree(alloc, split, h, b)
  {
    forall b ensures BitsAgree(alloc, split, h, b) {
      assert BI.InitAt(h, meta, stop, b);
      if Fits(top, b) {
        BI.EndInRange(b.k, top, BlkSize(top));
        assert RowMarked(alloc[b.k], alloc1[b.k], BlkIndex(b.k, stop), BI.BlkIndexNext(b.k, BlkSize(top)));
        assert b.i / 8 < |alloc[b.k]|;
      }
    }
  }

  /** What the bits of the pair that holds block bi say while the lists are being built. */
  lemma PairBits(alloc: seq<seq<bv8>>, split: seq<seq<bv8>>, h: Heap, meta: nat, stop: nat, k: nat, bi: nat)
    requires BI.IsInitHeap(h, h.top, meta, stop) && k < h.top && Fits(h.top, Blk(k, bi))
    requires forall b :: BitsAgree(alloc, split, h, b)
    ensures var g := BI.RangeAt(k, meta, stop);
            var buddy := if bi % 2 == 0 then bi + 1 else bi - 1;
            && k < |alloc| && bi / 8 < |alloc[k]| && buddy / 8 < |alloc[k]|
            && (Bits.IsSet(alloc[k], bi) <==> BI.Marked(g, bi))
            && (Bits.IsSet(alloc[k], buddy) <==> BI.Marked(g, buddy))
            && (BI.Marked(g, bi) != BI.Marked(g, buddy) ==> BI.PairFree(g, k, bi) in h.free)
  {
    var b := Blk(k, bi);
    var g := BI.RangeAt(k, meta, stop);
    FitsFamily(h.top, b);
    assert BI.InitAt(h, meta, stop, b) && BI.InitAt(h, meta, stop, Buddy(b));
    assert BitsAgree(alloc, split, h, b) && BitsAgree(alloc, split, h, Buddy(b));
    BI.OnListIff(g, b.i);
    BI.OnListIff(g, Buddy(b).i);
    BI.MarkedChild(g, b.i / 2);
  }

  /** A free block's first byte is on no list of another class. */
  lemma NewNodeElsewhere(lists: seq<seq<Node>>, h: Heap, x: Blk)
    requires Inv(h) && x in h.free && forall k :: ListSound(lists, h, k)
    ensures forall j :: 0 <= j < |lists| && j != x.k ==> NodeOf(x) !in lists[j]
  {
    var n := Addr(x.k, x.i);
    IndexOfAddr(x.k, x.i);
    forall j | 0 <= j < |lists| && j != x.k ensures NodeOf(x) !in lists[j] {
      assert ListSound(lists, h, j);
      if NodeOf(x) in lists[j] {
        Disjoint(h, x, Blk(j, BlkIndex(j, n)), n);
      }
    }
  }

  lemma PushSound(lists: seq<seq<Node>>, h: Heap, x: Blk, j: nat)
    requires ListSound(lists, h, j) && x in h.free && x.k < |lists|
    ensures ListSound(lists[x.k := [NodeOf(x)] + lists[x.k]], h, j)
  {
    IndexOfAddr(x.k, x.i);
  }

  lemma SameNode(k: nat, i: nat, j: nat)
    ensures NodeOf(Blk(k, i)) == NodeOf(Blk(k, j)) ==> i == j
  {
    IndexOfAddr(k, i);
    IndexOfAddr(k, j);
  }

  class Allocator {
    const top: nat                  // MAXSIZE
    var alloc: seq<seq<bv8>>
    var split: seq<seq<bv8>>
    const links: Links<Node>
    ghost var h: Heap
    ghost var lists: seq<seq<Node>>
    ghost var reserved: set<Blk>    // metadata and memory past the end: never freed

    /** bd_init for a region of span bytes from bd_base: any span over 512 bytes and below 2^31 that is not itself a
        block size. Leaves each block of the free range's decomposition on its list once; the panic at the end is
        unreachable. */
    constructor (span: nat)
      requires 512 < span < TWO31 && forall k: nat :: span != BlkSize(k)
      ensures Valid() && fresh(links) && IsFirstK(top, span)
      ensures BI.IsInitHeap(h, top, BI.MetaBytes(top), BI.StopOf(span)) && reserved == Live(h)
    {
      var t, rows, more, meta, unavailable := Layout(span);
      var stop := BlkSize(t) - unavailable;
      ghost var heap := BI.InitHeapExists(t, meta, stop);
      top := t;
      alloc := rows;
      split := more;
      links := new Links();
      h := heap;
      new;
      var free := Found(meta, stop);
      assert free == BlkSize(top) - meta - unavailable;   // the final check: no panic
    }

    /** The rest of bd_init: from cleared bitmaps to a valid allocator. */
    method Found(meta: nat, stop: nat) returns (free: nat)
      requires top >= 2 && 0 < meta && 4 * meta <= BlkSize(top) <= 2 * stop && stop < BlkSize(top)
      requires meta % 16 == 0 && stop % 16 == 0 && BlkSize(top) % 16 == 0 && BlkSize(top) <= TWO31
      requires Shaped(alloc, top) && Shaped(split, top) && AllClear(alloc) && AllClear(split)
      requires BI.IsInitHeap(h, top, meta, stop)
      modifies this, links
      ensures Valid() && reserved == Live(h) && unchanged(`h) && free == stop - meta
    {
      free := Build(meta, stop);
      BI.InitHeapInv(top, meta, stop, h);
      reserved := Live(h);
    }

    /** lst_init of every free list. */
    method InitLists()
      modifies this`lists, links
      ensures |lists| == top + 1
      ensures forall k :: 0 <= k <= top ==> lists[k] == [] && Ring(links.next, links.prev, Head(k), [])
    {
      for k := 0 to top + 1
        invariant forall j :: 0 <= j < k ==> Ring(links.next, links.prev, Head(j), [])
      {
        ghost var n, p := links.next, links.prev;
        links.Init(Head(k));
        forall j | 0 <= j < k ensures Ring(links.next, links.prev, Head(j), []) {
          RingFrame(n, p, links.next, links.prev, Head(j), []);
        }
      }
      lists := seq(top + 1, _ => []);
    }

    /** bd_mark: at every class, the blocks that meet [start, stop) become allocated and, above class 0, split. */
    method Mark(start: nat, stop: nat)
      requires Shaped(alloc, top) && Shaped(split, top)
      requires start % 16 == 0 && stop % 16 == 0 && stop <= BlkSize(top) <= TWO31 && start < TWO31
      modifies this`alloc, this`split
      ensures Shaped(alloc, top) && Shaped(split, top)
      ensures forall k ::
                0 <= k <= top ==> RowMarked(alloc[k], old(alloc)[k], BlkIndex(k, start), BI.BlkIndexNext(k, stop))
      ensures forall k ::
                0 < k <= top ==> RowMarked(split[k], old(split)[k], BlkIndex(k, start), BI.BlkIndexNext(k, stop))
      ensures split[0] == old(split)[0]
    {
      for k := 0 to top + 1
        invariant Shaped(alloc, top) && Shaped(split, top)
        invariant forall j ::
                    0 <= j < k ==> RowMarked(alloc[j], old(alloc)[j], BlkIndex(j, start), BI.BlkIndexNext(j, stop))
        invariant forall j ::
                    0 < j < k ==> RowMarked(split[j], old(split)[j], BlkIndex(j, start), BI.BlkIndexNext(j, stop))
        invariant forall j :: k <= j <= top ==> alloc[j] == old(alloc)[j] && split[j] == old(split)[j]
        invariant split[0] == old(split)[0]
      {
        MarkClass(k, start, stop);
      }
    }

    /** One turn of its loop. */
    method MarkClass(k: nat, start: nat, stop: nat)
      requires Shaped(alloc, top) && Shaped(split, top) && k <= top
      requires start % 16 == 0 && stop % 16 == 0 && stop <= BlkSize(top) <= TWO31 && start < TWO31
      modifies this`alloc, this`split
      ensures Shaped(alloc, top) && Shaped(split, top)
      ensures alloc == old(alloc)[k := alloc[k]] && split == old(split)[k := split[k]]
      ensures RowMarked(alloc[k], old(alloc)[k], BlkIndex(k, start), BI.BlkIndexNext(k, stop))
      ensures if k > 0
              then RowMarked(split[k], old(split)[k], BlkIndex(k, start), BI.BlkIndexNext(k, stop))
              else split[k] == old(split)[k]
    {
      var bi, bj := IndexOf(k, start), NextOf(k, stop);
      BI.EndInRange(k, top, stop);
      var row := MarkRow(alloc[k], bi, bj);
      alloc := alloc[k := row];
      if k > 0 {
        row := MarkRow(split[k], bi, bj);
        split := split[k := row];
      }
    }

    /** The lists so far hold only blocks that belong on them. */
    ghost predicate Building(meta: nat, stop: nat)
      reads this, links
    {
      && BI.IsInitHeap(h, top, meta, stop) && Inv(h) && BlkSize(top) <= TWO31
      && (forall b :: BitsAgree(alloc, split, h, b))
      && |lists| == top + 1
      && (forall k :: ListSound(lists, h, k))
      && (forall k :: 0 <= k <= top ==> Ring(links.next, links.prev, Head(k), lists[k]))
    }

    /** bd_initfree_pair: if one block of the pair is free, it goes on list k. */
    method InitFreePair(k: nat, bi: nat, ghost meta: nat, ghost stop: nat) returns (bytes: nat, ghost x: Blk)
      requires Building(meta, stop) && k < top && Fits(top, Blk(k, bi))
      requires NodeOf(BI.PairFree(BI.RangeAt(k, meta, stop), k, bi)) !in lists[k]
      modifies this`lists, links
      ensures Building(meta, stop)
      ensures x == BI.PairFree(BI.RangeAt(k, meta, stop), k, bi)
      ensures bytes == BI.PairBytes(k, BI.RangeAt(k, meta, stop), bi)
      ensures lists == if bytes > 0 then old(lists)[k := [NodeOf(x)] + old(lists)[k]] else old(lists)
      ensures bytes > 0 ==> x in h.free
    {
      var buddy := if bi % 2 == 0 then bi + 1 else bi - 1;
      PairBits(alloc, split, h, meta, stop, k, bi);
      bytes := 0;
      x := BI.PairFree(BI.RangeAt(k, meta, stop), k, bi);
      if Bits.IsSet(alloc[k], bi) != Bits.IsSet(alloc[k], buddy) {
        bytes := BlkSize(k);
        var i := if Bits.IsSet(alloc[k], bi) then buddy else bi;
        NewNodeElsewhere(lists, h, x);
        OkAt(h, x);
        BlockInRange(top, x);
        links.Push(Head(k), Elem(AddrOf(k, i)), lists[k]);
        OtherRings(old(links.next), old(links.prev), links.next, links.prev, lists, h, k, [NodeOf(x)]);
        lists := lists[k := [NodeOf(x)] + lists[k]];
        forall j ensures ListSound(lists, h, j) {
          PushSound(old(lists), h, x, j);
        }
      }
    }

    /** The two pairs bd_initfree looks at for class k fill list k. */
    method InitFreeClass(k: nat, meta: nat, stop: nat) returns (free: nat)
      requires Building(meta, stop) && 2 * meta <= BlkSize(top) && stop < BlkSize(top) && meta > 0
      requires k < top && lists[k] == [] && !BI.Doubled(BI.RangeAt(k, meta, stop))
      requires BI.ClassBytes(k, BI.RangeAt(k, meta, stop)) < TWO31
      modifies this`lists, links
      ensures Building(meta, stop) && ListAgrees(lists, h, k)
      ensures forall j :: 0 <= j <= top && j != k ==> lists[j] == old(lists)[j]
      ensures free == BI.ClassBytes(k, BI.RangeAt(k, meta, stop))
    {
      var left, right := NextOf(k, meta), IndexOf(k, stop);
      ghost var g := BI.RangeAt(k, meta, stop);
      assert left < Pow2(top - k) by { BI.LeftInRange(k, top, meta); }
      assert left > 0 by { BI.LeftInRange(k, top, meta); }
      ghost var x, y: Blk;
      free, x := InitFreePair(k, left, meta, stop);
      if right > left {
        ByteFits(top, k, stop);
        BI.PairsDiffer(g, k);
        SameNode(k, BI.PairFree(g, k, right).i, x.i);
        var more: nat;
        more, y := InitFreePair(k, right, meta, stop);
        IntExact(free + more);
        free := Int(free + more);
      }
      forall b | b in h.free && b.k == k ensures NodeOf(b) in lists[k] {
        assert BI.InitAt(h, meta, stop, b);
        BI.EndPairsSuffice(g, k, b.i);
      }
      assert ListSound(lists, h, k);
    }

    /** bd_initfree: every block of the decomposition ends up on its list exactly once. */
    method InitFree(meta: nat, stop: nat) returns (free: nat)
      requires Building(meta, stop) && 2 * meta <= BlkSize(top) && stop < BlkSize(top) && meta > 0
      requires forall k :: 0 <= k <= top ==> lists[k] == []
      requires !BI.SomeDoubled(0, top, BI.RangeAt(0, meta, stop))
      requires BI.InitFreeBytes(0, top, BI.RangeAt(0, meta, stop)) < TWO31
      modifies this`lists, links
      ensures Building(meta, stop) && forall k :: ListAgrees(lists, h, k)
      ensures free == BI.InitFreeBytes(0, top, BI.RangeAt(0, meta, stop))
    {
      free := 0;
      for k := 0 to top
        invariant Building(meta, stop)
        invariant forall j :: 0 <= j < k ==> ListAgrees(lists, h, j)
        invariant forall j :: k <= j <= top ==> lists[j] == []
        invariant !BI.SomeDoubled(k, top, BI.RangeAt(k, meta, stop))
        invariant free + BI.InitFreeBytes(k, top, BI.RangeAt(k, meta, stop)) ==
                    BI.InitFreeBytes(0, top, BI.RangeAt(0, meta, stop))
      {
        BI.RangeHalves(k, meta, stop);
        ghost var before := lists;
        var bytes := InitFreeClass(k, meta, stop);
        IntExact(free + bytes);
        free := Int(free + bytes);
        forall j | 0 <= j < k ensures ListAgrees(lists, h, j) {
          assert ListAgrees(before, h, j) && lists[j] == before[j];
        }
      }
      forall k ensures ListAgrees(lists, h, k) {
        assert forall b :: b in h.free && b.k == top ==> Ok(h, b);
      }
    }

    /** The part of bd_init after the metadata is laid out, on zeroed bitmaps. */
    method Build(meta: nat, stop: nat) returns (free: nat)
      requires top >= 2 && 0 < meta && 4 * meta <= BlkSize(top) <= 2 * stop && stop < BlkSize(top)
      requires meta % 16 == 0 && stop % 16 == 0 && BlkSize(top) % 16 == 0 && BlkSize(top) <= TWO31
      requires Shaped(alloc, top) && Shaped(split, top) && AllClear(alloc) && AllClear(split)
      requires BI.IsInitHeap(h, top, meta, stop)
      modifies this, links
      ensures Building(meta, stop) && (forall k :: ListAgrees(lists, h, k)) && unchanged(`h)
      ensures free == stop - meta
    {
      BI.InitHeapInv(top, meta, stop, h);
      InitLists();
      Mark(0, meta);
      ghost var alloc1, split1 := alloc, split;
      FirstMark(top, old(alloc), old(split), alloc1, split1, meta);
      Mark(stop, BlkSize(top));
      InitBits(top, alloc1, split1, alloc, split, meta, stop, h);
      BI.InitRangeGood(top, meta, stop);
      free := InitFree(meta, stop);
    }

    ghost predicate Valid()
      reads this, links
    {
      && h.top == top && Inv(h) && BlkSize(top) <= TWO31
      && (forall b :: BitsAgree(alloc, split, h, b))
      && |lists| == top + 1
      && (forall k :: ListAgrees(lists, h, k))
      && (forall k :: 0 <= k <= top ==> Ring(links.next, links.prev, Head(k), lists[k]))
      && reserved != {} && reserved <= Live(h)
    }

    /** The top block is never handed out whole, so size() never looks above the top class. */
    lemma LiveBelowTop(b: Blk)
      requires Valid() && b in Live(h) && b !in reserved
      ensures b.k < top
    {
      var r :| r in reserved;
      assert Ok(h, b) && Ok(h, r);
      if b.k == top {
        var n := Addr(r.k, r.i);
        IndexOfAddr(r.k, r.i);
        BlockInRange(top, r);
        TopIsZero(top);
        IndexInterval(top, 0, n);
        assert Contains(b, n);
        Disjoint(h, b, r, n);
      }
    }

    /** size: the class of the live block that starts at p. */
    method Size(p: nat, ghost b: Blk) returns (k: nat)
      requires Valid() && b in Live(h) && b.k < top && p == Addr(b.k, b.i)
      ensures k == b.k
    {
      IndexOfAddr(b.k, b.i);
      ClassOfLive(h, b, p);
      k := 0;
      OkAt(h, b);
      BlockInRange(top, b);
      while true
        invariant 0 <= k <= b.k
        decreases b.k - k
      {
        ghost var c := Blk(k + 1, BlkIndex(k + 1, p));
        ByteFits(top, k + 1, p);
        assert BitsAgree(alloc, split, h, c);
        if Bits.IsSet(split[k + 1], IndexOf(k + 1, p)) {
          return;
        }
        k := k + 1;
      }
    }

    /** Pop the first block of list k and mark it allocated. */
    method TakeFirst(k: nat) returns (p: nat, ghost b: Blk)
      requires Valid() && k <= top && lists[k] != []
      modifies this, links
      ensures Valid() && unchanged(`reserved)
      ensures b.k == k && p == Addr(k, b.i) && b in old(h).free && h == Take(old(h), b)
      ensures old(lists)[k][0] == Elem(p) && lists == old(lists)[k := old(lists)[k][1..]]
    {
      var x := links.Pop(Head(k), lists[k]);
      assert ListAgrees(lists, h, k);
      p := x.addr;
      b := Blk(k, BlkIndex(k, p));
      TakeKeeps(h, b);
      OkAt(h, b);
      BitsAt(alloc, split, h, b);
      BlockInRange(top, b);
      SetBit(alloc[k], b.i);
      alloc := alloc[k := Bits.Set(alloc[k], IndexOf(k, p))];
      assert lists[k][0] == x;
      assert lists[k][..0] + lists[k][0 + 1..] == lists[k][1..];
      lists := lists[k := lists[k][1..]];
      h := Take(h, b);
      forall c ensures BitsAgree(alloc, split, h, c) {
        assert BitsAgree(old(alloc), old(split), old(h), c);
      }
      AllSound(old(lists), old(h));
      OtherRings(old(links.next), old(links.prev), links.next, links.prev, old(lists), old(h), k, []);
      RemoveAllAgree(old(lists), old(h), k, 0, b, lists, h);
    }

    /** The lists hold exactly the free blocks of g, each list a ring. */
    ghost predicate Listed(g: Heap)
      reads this, links
    {
      && |lists| == top + 1 && (forall i :: ListAgrees(lists, g, i))
      && (forall i :: 0 <= i <= top ==> Ring(links.next, links.prev, Head(i), lists[i]))
    }

    /** The block x, which starts at q, goes first on its list, as it joins the free blocks. */
    method Enlist(k: nat, q: nat, ghost x: Blk)
      requires Inv(h) && Listed(h) && x.k == k <= top && Elem(q) == NodeOf(x)
      requires forall j, y :: 0 <= j < |lists| && y in lists[j] ==> y != Elem(q)
      modifies this`lists, links
      ensures Listed(h.(free := h.free + {x})) && lists == old(lists)[k := [Elem(q)] + old(lists)[k]]
    {
      links.Push(Head(k), Elem(q), lists[k]);
      lists := lists[k := [Elem(q)] + lists[k]];
      AllSound(old(lists), h);
      OtherRings(old(links.next), old(links.prev), links.next, links.prev, old(lists), h, k, [Elem(q)]);
      forall j ensures ListAgrees(lists, h.(free := h.free + {x}), j) {
        PushAgrees(old(lists), h, x, j);
      }
    }

    /** Where the halves of an allocated block are. */
    static lemma Halves(h: Heap, b: Blk)
      requires Inv(h) && b in h.alloc && b.k > 0 && BlkSize(h.top) <= TWO31
      ensures b.k <= h.top && Fits(h.top, b) && Fits(h.top, Left(b)) && Fits(h.top, Right(b))
      ensures var p := Addr(b.k, b.i);
              && p < TWO31 && p == Addr(b.k - 1, Left(b).i) && Elem(p + BlkSize(b.k - 1)) == NodeOf(Right(b))
              && BlkIndex(b.k, p) == b.i && BlkIndex(b.k - 1, p) == 2 * b.i
    {
      OkAt(h, b);
      FitsFamily(h.top, b);
      IndexOfAddr(b.k, b.i);
      AddrNext(b.k - 1, 2 * b.i);
      IndexOfAddr(b.k - 1, 2 * b.i);
      BlockInRange(h.top, b);
    }

    /** Split the live block b that starts at p: keep its first half, free its second. */
    method SplitBlock(k: nat, p: nat, ghost b: Blk)
      requires Valid() && b in Live(h) && b !in reserved && b.k == k > 0 && p == Addr(k, b.i)
      modifies this, links
      ensures Valid() && unchanged(`reserved)
      ensures h == Divide(old(h), b) && p == Addr(k - 1, Left(b).i)
      ensures k <= top && |old(lists)| == top + 1
      ensures lists == old(lists)[k - 1 := [Elem(p + BlkSize(k - 1))] + old(lists)[k - 1]]
    {
      DivideKeeps(h, b);
      Halves(h, b);
      var q := p + BlkSize(k - 1);
      ghost var r := Right(b);
      BitsAt(alloc, split, h, b);
      BitsAt(alloc, split, h, Left(b));
      split := split[k := Bits.Set(split[k], IndexOf(k, p))];
      alloc := alloc[k - 1 := Bits.Set(alloc[k - 1], IndexOf(k - 1, p))];
      SecondHalfNotListed(lists, h, b);
      DivideBits(old(alloc), old(split), h, b, alloc, split);
      Enlist(k - 1, q, r);
      h := Divide(h, b);
      SameFree(lists, old(h).(free := old(h).free + {r}), h);
    }

    /** The lists after bd_malloc has taken its block, at p, of class fk from the first list with one, that of class k:
        its other halves are on the lists below. */
    static ghost predicate TakenFrom(was: seq<seq<Node>>, now: seq<seq<Node>>, fk: nat, k: nat, p: nat) {
      && fk <= k < |was| == |now| && (forall j :: fk <= j < k ==> was[j] == []) && was[k] != [] && was[k][0] == Elem(p)
      && forall j :: 0 <= j < |was| ==>
                       now[j] == if j == k then was[k][1..] else if fk <= j < k then [Elem(p + BlkSize(j))] else was[j]
    }

    /** The first loop of bd_malloc: the first list from class fk on that is not empty. */
    method FindList(fk: nat) returns (k: nat)
      requires Valid()
      ensures fk <= k && (k <= top ==> lists[k] != []) && (forall j :: fk <= j < k && j <= top ==> lists[j] == [])
    {
      k := fk;
      while k <= top
        invariant k >= fk && Valid()
        invariant forall j :: fk <= j < k && j <= top ==> lists[j] == []
        decreases top + 1 - k
      {
        var e := links.Empty(Head(k), lists[k]);
        if !e {
          break;
        }
        k := k + 1;
      }
    }

    /** The block b at p is new since g: live, and free before. */
    ghost predicate New(g: Heap, b: Blk, p: nat)
      reads this, links
    {
      && Valid() && b.k <= top && p == Addr(b.k, b.i) && b in Live(h) && b !in Live(g) && Live(h) == Live(g) + {b}
      && h.top == g.top && WhollyFree(g, b)
    }

    /** The second loop of bd_malloc: the block is split down to class fk. */
    method SplitDown(fk: nat, from: nat, p: nat, ghost b0: Blk, ghost g: Heap, ghost was: seq<seq<Node>>)
      returns (ghost b: Blk)
      requires New(g, b0, p) && b0.k == from >= fk && TakenFrom(was, lists, from, from, p) && reserved <= Live(g)
      requires forall j :: fk <= j < from ==> was[j] == []
      modifies this, links
      ensures New(g, b, p) && b.k == fk && TakenFrom(was, lists, fk, from, p) && unchanged(`reserved)
    {
      b := b0;
      var k := from;
      while k > fk
        invariant New(g, b, p) && fk <= k == b.k && TakenFrom(was, lists, k, from, p) && unchanged(`reserved)
        decreases k
      {
        DivideKeeps(h, b);
        SplitBlock(k, p, b);
        b := Left(b);
        k := k - 1;
      }
    }

    /** bd_malloc. Fails exactly when no block of the needed class is wholly free; otherwise one new live
        block of that class appears, apart from every other live block, and nothing else changes hands. It is the first
        part of the first block on the first list of a sufficient class. */
    method Malloc(nbytes: nat) returns (r: Option<nat>, ghost b: Blk, ghost from: nat)
      requires Valid() && nbytes <= TWO63
      modifies this, links
      ensures Valid() && unchanged(`reserved)
      ensures IsFirstK(b.k, nbytes)
      ensures r.None? <==> !exists c: Blk :: c.k == b.k && Fits(top, c) && WhollyFree(old(h), c)
      ensures r.None? ==> h == old(h) && lists == old(lists)
      ensures r.Some? ==> TakenFrom(old(lists), lists, b.k, from, r.value)
      ensures r.Some? ==>
                r.value == Addr(b.k, b.i) && Call(old(h), Op.Malloc(b), h) && WhollyFree(old(h), b) && b !in reserved
    {
      var fk := FirstK(nbytes);
      b := Blk(fk, 0);
      FitIffFreeList(h, fk);
      var k := FindList(fk);
      if k > top {
        forall f ensures !(f in h.free && f.k >= fk) {
          assert Ok(h, f) && ListAgrees(lists, h, f.k);
        }
        return None, b, 0;
      }
      assert ListAgrees(lists, h, k);
      assert lists[k][0] in lists[k];
      var p: nat;
      ghost var g := h;
      p, b := TakeFirst(k);
      TakeKeeps(g, b);
      FreeIsWhollyFree(g, b);
      b := SplitDown(fk, k, p, b, g, old(lists));
      r, from := Some(p), k;
    }

    /** One node is gone, and the others are in the order they were in. */
    static ghost predicate OneLess(was: seq<Node>, now: seq<Node>) {
      exists j :: 0 <= j < |was| && now == was[..j] + was[j + 1..]
    }

    /** The free block x, which starts at q, leaves its list, as it leaves the free blocks of g. */
    method Unlist(k: nat, q: nat, ghost x: Blk, ghost g: Heap)
      requires Valid() && x in h.free && x.k == k <= top && q == Addr(k, x.i) && g.free == h.free - {x}
      modifies this`lists, links
      ensures |lists| == top + 1 && (forall i :: ListAgrees(lists, g, i))
      ensures OneLess(old(lists)[k], lists[k]) && lists == old(lists)[k := lists[k]]
      ensures forall i :: 0 <= i <= top ==> Ring(links.next, links.prev, Head(i), lists[i])
    {
      assert ListAgrees(lists, h, k);
      ghost var j: nat :| j < |lists[k]| && lists[k][j] == Elem(q);
      links.Remove(Elem(q), Head(k), lists[k], j);
      AllSound(lists, h);
      OtherRings(old(links.next), old(links.prev), links.next, links.prev, lists, h, k, []);
      lists := lists[k := lists[k][..j] + lists[k][j + 1..]];
      RemoveAllAgree(old(lists), h, k, j, x, lists, g);
    }

    /** One turn of bd_free's loop when the buddy is free too: the pair becomes one live block again. */
    method MergeBlock(k: nat, p: nat, bi: nat, buddy: nat, q: nat, ghost b: Blk) returns (p': nat)
      requires Valid() && b in Live(h) && b !in reserved && k < top && b == Blk(k, bi) && p == Addr(k, bi) < TWO31
      requires buddy == Buddy(b).i && q == Addr(k, buddy) < TWO31 && Buddy(b) !in h.alloc
      modifies this, links
      ensures Valid() && unchanged(`reserved)
      ensures h == Merge(old(h), b) && p' == Addr(k + 1, bi / 2)
      ensures OneLess(old(lists)[k], lists[k]) && lists == old(lists)[k := lists[k]]
    {
      MergeKeeps(h, b);
      BuddyFacts(b);
      OkAt(h, b);
      OkAt(h, Buddy(b));
      FitsFamily(top, b);
      BitsAt(alloc, split, h, b);
      BitsAt(alloc, split, h, Parent(b));
      Unlist(k, q, Buddy(b), Merge(h, b));
      alloc := alloc[k := Bits.Clear(alloc[k], bi)];
      p' := if buddy % 2 == 0 then q else p;
      MergedAddr(k, bi, p');
      split := split[k + 1 := Bits.Clear(split[k + 1], IndexOf(k + 1, p'))];
      h := Merge(h, b);
      MergeBits(old(alloc), old(split), old(h), b, alloc, split);
    }

    /** The end of bd_free: the block goes on its free list because its buddy is in use. */
    method ReleaseBlock(k: nat, p: nat, bi: nat, ghost b: Blk)
      requires Valid() && b in Live(h) && b !in reserved && k < top && b == Blk(k, bi) && p == Addr(k, bi)
      requires Buddy(b) in h.alloc
      modifies this, links
      ensures Valid() && unchanged(`reserved)
      ensures h == Release(old(h), b) && lists == old(lists)[k := [Elem(p)] + old(lists)[k]]
    {
      ReleaseKeeps(h, b);
      OkAt(h, b);
      BitsAt(alloc, split, h, b);
      alloc := alloc[k := Bits.Clear(alloc[k], bi)];
      forall i | 0 <= i <= top ensures Elem(p) !in lists[i] {
        assert ListAgrees(lists, h, i);
        LiveNotListed(lists, h, b, i);
      }
      ReleaseBits(old(alloc), old(split), h, b, alloc);
      Enlist(k, p, b);
      h := Release(h, b);
      SameFree(lists, old(h).(free := old(h).free + {b}), h);
    }

    /** The lists while bd_free joins blocks from class k0 up to class k: each below has given up a buddy. */
    static ghost predicate Joined(was: seq<seq<Node>>, now: seq<seq<Node>>, k0: nat, k: nat) {
      && k0 <= k && |was| == |now|
      && forall j :: 0 <= j < |was| ==> if k0 <= j < k then OneLess(was[j], now[j]) else now[j] == was[j]
    }

    /** bd_free of b has come to block c, of class k at p, which is live instead. */
    ghost predicate Freeing(g: Heap, was: seq<seq<Node>>, b: Blk, c: Blk, k: nat, p: nat)
      reads this, links
    {
      && Valid() && c.k == k <= top && c in Live(h) && c !in reserved && p == Addr(k, c.i) && h.top == g.top
      && Live(h) == Live(g) - {b} + {c} && c !in Live(g) - {b} && Joined(was, lists, b.k, k)
    }

    /** One turn of bd_free's loop: c goes on its list, or is joined to its buddy. */
    method FreeTurn(k: nat, p: nat, ghost c: Blk, ghost g: Heap, ghost was: seq<seq<Node>>, ghost b: Blk)
      returns (done: bool, p': nat)
      requires Freeing(g, was, b, c, k, p) && k < top
      modifies this, links
      ensures unchanged(`reserved)
      ensures done ==> Valid() && h.top == g.top && Live(h) == Live(g) - {b}
      ensures done ==>
                && |lists| == |was| == top + 1 && lists[k] == [Elem(p)] + was[k]
                && Joined(was, lists[k := was[k]], b.k, k)
      ensures !done ==> Freeing(g, was, b, Parent(c), k + 1, p')
    {
      IndexOfAddr(k, c.i);
      OkAt(h, c);
      BlockInRange(top, c);
      var bi := IndexOf(k, p);
      var buddy := if bi % 2 == 0 then bi + 1 else bi - 1;
      FitsFamily(top, c);
      BitsAt(alloc, split, h, Buddy(c));
      done := Bits.IsSet(alloc[k], buddy);
      p' := p;
      if done {
        ReleaseKeeps(h, c);
        ReleaseBlock(k, p, bi, c);
      } else {
        MergeKeeps(h, c);
        BlockInRange(top, Buddy(c));
        p' := MergeBlock(k, p, bi, buddy, AddrOf(k, buddy), c);
      }
    }

    /** bd_free: exactly the block at p stops being live. With the free buddies it is joined to, it is block c, first on
        its list. */
    method Free(p: nat, ghost b: Blk) returns (ghost c: Blk)
      requires Valid() && b in Live(h) && b !in reserved && p == Addr(b.k, b.i)
      modifies this, links
      ensures Valid() && unchanged(`reserved)
      ensures Call(old(h), Op.Free(b), h)
      ensures c.k <= top && lists[c.k] == [Elem(Addr(c.k, c.i))] + old(lists)[c.k]
      ensures Joined(old(lists), lists[c.k := old(lists)[c.k]], b.k, c.k)
    {
      LiveBelowTop(b);
      var k := Size(p, b);
      var p' := p;
      c := b;
      while k < top
        invariant Freeing(old(h), old(lists), b, c, k, p') && unchanged(`reserved)
        decreases top - k
      {
        var done;
        done, p' := FreeTurn(k, p', c, old(h), old(lists), b);
        if done {
          return;
        }
        c := Parent(c);
        k := k + 1;
      }
      LiveBelowTop(c);
    }
  }

  lemma MergeBits(alloc: seq<seq<bv8>>, split: seq<seq<bv8>>, h: Heap, b: Blk, alloc': seq<seq<bv8>>,
                  split': seq<seq<bv8>>)
    requires b.k < h.top && Fits(h.top, b) && forall c :: BitsAgree(alloc, split, h, c)
    requires b.k + 1 < |split| && b.i / 2 / 8 < |split[b.k + 1]|
    requires split' == split[b.k + 1 := Bits.Clear(split[b.k + 1], b.i / 2)]
    requires b.k < |alloc| && b.i / 8 < |alloc[b.k]| && alloc' == alloc[b.k := Bits.Clear(alloc[b.k], b.i)]
    ensures forall c :: BitsAgree(alloc', split', Merge(h, b), c)
  {
    ClearBit(split[b.k + 1], b.i / 2);
    ClearBit(alloc[b.k], b.i);
    forall c ensures BitsAgree(alloc', split', Merge(h, b), c) {
      assert BitsAgree(alloc, split, h, c);
    }
  }

  lemma ReleaseBits(alloc: seq<seq<bv8>>, split: seq<seq<bv8>>, h: Heap, b: Blk, alloc': seq<seq<bv8>>)
    requires Fits(h.top, b) && forall c :: BitsAgree(alloc, split, h, c)
    requires b.k < |alloc| && b.i / 8 < |alloc[b.k]| && alloc' == alloc[b.k := Bits.Clear(alloc[b.k], b.i)]
    ensures forall c :: BitsAgree(alloc', split, Release(h, b), c)
  {
    ClearBit(alloc[b.k], b.i);
    forall c ensures BitsAgree(alloc', split, Release(h, b), c) {
      assert BitsAgree(alloc, split, h, c);
    }
  }

  lemma DivideBits(alloc: seq<seq<bv8>>, split: seq<seq<bv8>>, h: Heap, b: Blk, alloc': seq<seq<bv8>>,
                   split': seq<seq<bv8>>)
    requires b.k > 0 && Fits(h.top, b) && forall c :: BitsAgree(alloc, split, h, c)
    requires b.k < |split| && b.i / 8 < |split[b.k]| && split' == split[b.k := Bits.Set(split[b.k], b.i)]
    requires b.k - 1 < |alloc| && 2 * b.i / 8 < |alloc[b.k - 1]|
    requires alloc' == alloc[b.k - 1 := Bits.Set(alloc[b.k - 1], 2 * b.i)]
    ensures forall c :: BitsAgree(alloc', split', Divide(h, b), c)
  {
    SetBit(split[b.k], b.i);
    SetBit(alloc[b.k - 1], 2 * b.i);
    forall c ensures BitsAgree(alloc', split', Divide(h, b), c) {
      assert BitsAgree(alloc, split, h, c);
    }
  }

  lemma AllSound(lists: seq<seq<Node>>, h: Heap)
    requires forall k :: ListAgrees(lists, h, k)
    ensures forall k :: ListSound(lists, h, k)
  {
    forall k ensures ListSound(lists, h, k) {
      assert ListAgrees(lists, h, k);
    }
  }

  /** Every ring other than list k survives changes confined to list k and the extra nodes. */
  lemma OtherRings(n: NodePtrs, p: NodePtrs, n': NodePtrs, p': NodePtrs, lists: seq<seq<Node>>, h: Heap, k: nat,
                   extra: seq<Node>)
    requires Inv(h) && k < |lists|
    requires forall j :: ListSound(lists, h, j)
    requires forall j :: 0 <= j < |lists| ==> Ring(n, p, Head(j), lists[j])
    requires forall j, x :: 0 <= j < |lists| && x in lists[j] ==> x !in extra
    requires forall x :: x in extra ==> x.Elem?
    requires forall x :: x != Head(k) && x !in extra && x !in lists[k] && x in n ==> x in n' && n'[x] == n[x]
    requires forall x :: x != Head(k) && x !in extra && x !in lists[k] && x in p ==> x in p' && p'[x] == p[x]
    ensures forall j :: 0 <= j < |lists| && j != k ==> Ring(n', p', Head(j), lists[j])
  {
    forall j | 0 <= j < |lists| && j != k ensures Ring(n', p', Head(j), lists[j]) {
      assert ListSound(lists, h, j) && ListSound(lists, h, k);
      forall x | x in lists[j] ensures x !in lists[k] && x != Head(k) {
        if x in lists[k] {
          ListsDisjoint(lists, h, j, k, x);
        }
      }
      RingFrame(n, p, n', p', Head(j), lists[j]);
    }
  }

  /** Taking one block off list k leaves that list with the other free blocks of class k. */
  lemma RemoveAgrees(lists: seq<seq<Node>>, h: Heap, k: nat, j: nat, b: Blk)
    requires ListAgrees(lists, h, k) && k < |lists| && j < |lists[k]| && b.k == k && b in h.free
    requires lists[k][j] == NodeOf(b)
    requires Distinct([Head(k)] + lists[k])
    ensures ListAgrees(lists[k := lists[k][..j] + lists[k][j + 1..]], h.(free := h.free - {b}), k)
  {
    RemovedMembers(Head(k), lists[k], j, lists[k][..j] + lists[k][j + 1..]);
    forall d | d in h.free && d.k == k && d != b ensures NodeOf(d) != NodeOf(b) {
      IndexOfAddr(k, d.i);
      IndexOfAddr(k, b.i);
    }
  }

  lemma RemoveAllAgree(lists: seq<seq<Node>>, h: Heap, k: nat, j: nat, b: Blk, lists': seq<seq<Node>>, h': Heap)
    requires forall i :: ListAgrees(lists, h, i)
    requires k < |lists| && j < |lists[k]| && b.k == k && b in h.free && lists[k][j] == NodeOf(b)
    requires Distinct([Head(k)] + lists[k]) && h'.free == h.free - {b}
    requires lists' == lists[k := lists[k][..j] + lists[k][j + 1..]]
    ensures forall i :: ListAgrees(lists', h', i)
  {
    RemoveAgrees(lists, h, k, j, b);
    forall i ensures ListAgrees(lists', h', i) {
      assert ListAgrees(lists, h, i);
    }
  }

  /** The merged pair starts where its even member does. */
  lemma MergedAddr(k: nat, bi: nat, p: nat)
    requires p == Addr(k, 2 * (bi / 2))
    ensures p == Addr(k + 1, bi / 2) && BlkIndex(k + 1, p) == bi / 2
  {
    IndexOfAddr(k + 1, bi / 2);
  }

  /** Pushing block r on the list of its class adds it to the free blocks and to no other list. */
  /** The lists depend on the free blocks only. */
  lemma SameFree(lists: seq<seq<Node>>, g: Heap, h: Heap)
    requires g.free == h.free && forall i :: ListAgrees(lists, g, i)
    ensures forall i :: ListAgrees(lists, h, i)
  {
    forall i: nat ensures ListAgrees(lists, h, i) {
      assert ListAgrees(lists, g, i);
    }
  }

  lemma PushAgrees(lists: seq<seq<Node>>, h: Heap, r: Blk, j: nat)
    requires ListAgrees(lists, h, j) && r.k < |lists|
    ensures ListAgrees(lists[r.k := [NodeOf(r)] + lists[r.k]], h.(free := h.free + {r}), j)
  {
    IndexOfAddr(r.k, r.i);
  }

  /** The second half of an undivided live block starts at an address no list holds. */
  lemma SecondHalfNotListed(lists: seq<seq<Node>>, h: Heap, b: Blk)
    requires Inv(h) && b in Live(h) && b.k > 0 && forall k :: ListAgrees(lists, h, k)
    ensures forall k, x :: 0 <= k < |lists| && x in lists[k] ==> x != NodeOf(Right(b))
  {
    var r := Right(b);
    var n := Addr(r.k, r.i);
    IndexOfAddr(r.k, r.i);
    assert Ok(h, b) && Parent(r) == b;
    forall k, x | 0 <= k < |lists| && x in lists[k] ensures x != NodeOf(r) {
      assert ListAgrees(lists, h, k);
      if x == NodeOf(r) {
        Disjoint(h, b, Blk(k, BlkIndex(k, n)), n);
      }
    }
  }

  lemma SetBit(a: seq<bv8>, i: nat)
    requires i / 8 < |a|
    ensures forall j: nat :: j / 8 < |a| ==> Bits.IsSet(Bits.Set(a, i), j) == (i == j || Bits.IsSet(a, j))
  {
    forall j: nat | j / 8 < |a| ensures Bits.IsSet(Bits.Set(a, i), j) == (i == j || Bits.IsSet(a, j)) {
      Bits.SetIsSet(a, i, j);
    }
  }

  lemma ClearBit(a: seq<bv8>, i: nat)
    requires i / 8 < |a|
    ensures forall j: nat :: j / 8 < |a| ==> Bits.IsSet(Bits.Clear(a, i), j) == (i != j && Bits.IsSet(a, j))
  {
    forall j: nat | j / 8 < |a| ensures Bits.IsSet(Bits.Clear(a, i), j) == (i != j && Bits.IsSet(a, j)) {
      Bits.ClearIsSet(a, i, j);
    }
  }
}
