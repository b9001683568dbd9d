/** The 32-bit arithmetic of kernel/buddy.c: block indices and offsets are kept in ints, which is harmless exactly for
    heaps of at most 2^31 bytes. */
module BuddyInt {
  import opened Prelude
  import opened BuddySpec
  import BI = BuddyInit

  /** Division of longs, towards zero. */
  function TruncDiv(n: int, d: nat): int
    requires d > 0
  {
    if n >= 0 then n / d else -((-n) / d)
  }

  /** blk_index, for the byte at offset n. */
  function CutIndex(k: nat, n: nat): int { Int(TruncDiv(Int(n), BlkSize(k))) }

  /** addr, as an offset. */
  function CutAddr(k: nat, bi: nat): int { Int(bi * BlkSize(k)) }

  /** blk_index_next, for the byte at offset n. */
  function CutNext(k: nat, n: nat): int {
    var q := Int(n / BlkSize(k));
    if n % BlkSize(k) != 0 then Int(q + 1) else q
  }

  lemma QuotientSmaller(n: nat, d: nat)
    requires d >= 16
    ensures n / d <= n
  {
  }

  lemma {:induction false} SizeAtLeast(k: nat)
    ensures BlkSize(k) >= 16
  {
    if k > 0 {
      SizeAtLeast(k - 1);
    }
  }

  lemma CutIndexExact(k: nat, n: nat)
    requires n < TWO31
    ensures CutIndex(k, n) == BlkIndex(k, n)
  {
    IntExact(n);
    ClosedForms(k, 0, n);
    SizeAtLeast(k);
    QuotientSmaller(n, BlkSize(k));
    IntExact(n / BlkSize(k));
  }

  lemma CutAddrExact(k: nat, bi: nat)
    ensures CutAddr(k, bi) == Addr(k, bi) <==> Addr(k, bi) < TWO31
  {
    AddrProduct(k, bi);
    IntExact(bi * BlkSize(k));
  }

  lemma NextQuotient(n: nat, q: nat, d: nat)
    requires d >= 16 && q * d <= n <= TWO31
    ensures q + 1 < TWO31
  {
    assert q * d == q * 16 + q * (d - 16);
  }

  lemma CutNextExact(k: nat, n: nat)
    requires n <= TWO31
    ensures CutNext(k, n) == BI.BlkIndexNext(k, n)
  {
    var bi := BlkIndex(k, n);
    ClosedForms(k, bi, n);
    SizeAtLeast(k);
    assert n == n / BlkSize(k) * BlkSize(k) + n % BlkSize(k);
    NextQuotient(n, bi, BlkSize(k));
    IntExact(bi);
    IntExact(bi + 1);
  }

  /** At the smallest class an offset of 2^31 or more always gets a wrong index, and below 2^32 a negative one. */
  lemma LeafIndexExactIff(n: nat)
    ensures CutIndex(0, n) == BlkIndex(0, n) <==> n < TWO31
    ensures TWO31 <= n < 2 * TWO31 - 15 ==> CutIndex(0, n) < 0
  {
    if n < TWO31 {
      CutIndexExact(0, n);
    } else {
      var m := Int(n);
      assert TruncDiv(m, 16) <= (TWO31 - 1) / 16;
      assert -TWO31 <= TruncDiv(m, 16);
      IntExact(TruncDiv(m, 16));
      assert n / 16 >= TWO31 / 16;
      if n < 2 * TWO31 - 15 {
        assert m == n - 2 * TWO31 && (-m) / 16 >= 1;
      }
    }
  }

  /** Every index and every address the allocator computes is what it would be without ints. */
  ghost predicate CutsHarmless(top: nat) {
    && (forall k: nat, n: nat :: k <= top && n < BlkSize(top) ==> CutIndex(k, n) == BlkIndex(k, n))
    && (forall k: nat, bi: nat :: Fits(top, Blk(k, bi)) ==> CutAddr(k, bi) == Addr(k, bi))
  }

  lemma CutsHarmlessIff(top: nat)
    ensures CutsHarmless(top) <==> BlkSize(top) <= TWO31
  {
    if BlkSize(top) <= TWO31 {
      forall k: nat, n: nat | k <= top && n < BlkSize(top) ensures CutIndex(k, n) == BlkIndex(k, n) {
        CutIndexExact(k, n);
      }
      forall k: nat, bi: nat | Fits(top, Blk(k, bi)) ensures CutAddr(k, bi) == Addr(k, bi) {
        BlockInRange(top, Blk(k, bi));
        CutAddrExact(k, bi);
      }
    } else {
      LeafIndexExactIff(TWO31);
      assert 0 <= top && CutIndex(0, TWO31) != BlkIndex(0, TWO31);
    }
  }

  /** bd_mark of the memory past the end starts at the right block exactly for regions below 2^31 bytes. */
  lemma EndIndexExactIff(span: nat)
    ensures CutIndex(0, BI.StopOf(span)) == BlkIndex(0, BI.StopOf(span)) <==> span < TWO31
  {
    LeafIndexExactIff(BI.StopOf(span));
    assert TWO31 / 16 * 16 == TWO31;
  }

  /** For a region of 3 GiB it starts 67108864 bits before the bitmap. */
  lemma ThreeGiBMarksBefore()
    ensures CutIndex(0, BI.StopOf(3 * 0x4000_0000)) == -67108864 && BlkIndex(0, BI.StopOf(3 * 0x4000_0000)) == 201326592
  {
    assert Int(3 * 0x4000_0000) == -0x4000_0000;
    assert TruncDiv(-0x4000_0000, 16) == -67108864;
  }

  // ---------------------------------------------------------------- the computations of the code, where they are exact

  function IndexOf(k: nat, n: nat): (r: nat)
    requires n < TWO31
    ensures r == BlkIndex(k, n)
  {
    CutIndexExact(k, n);
    CutIndex(k, n)
  }

  function AddrOf(k: nat, bi: nat): (r: nat)
    requires Addr(k, bi) < TWO31
    ensures r == Addr(k, bi)
  {
    CutAddrExact(k, bi);
    CutAddr(k, bi)
  }

  function NextOf(k: nat, n: nat): (r: nat)
    requires n <= TWO31
    ensures r == BI.BlkIndexNext(k, n)
  {
    CutNextExact(k, n);
    CutNext(k, n)
  }
}
