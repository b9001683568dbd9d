/** Bit vectors packed eight to a byte, as the buddy allocator and the free-block bitmap store them. */
module Bits {

  function Mask(j: nat): bv8
    requires j < 8
  {
    (1 as bv8) << j
  }

  predicate IsSet(a: seq<bv8>, i: nat)
    requires i / 8 < |a|
  {
    a[i / 8] & Mask(i % 8) == Mask(i % 8)
  }

  function Set(a: seq<bv8>, i: nat): seq<bv8>
    requires i / 8 < |a|
  {
    a[i / 8 := a[i / 8] | Mask(i % 8)]
  }

  function Clear(a: seq<bv8>, i: nat): seq<bv8>
    requires i / 8 < |a|
  {
    a[i / 8 := a[i / 8] & !Mask(i % 8)]
  }

  lemma MaskValues()
    ensures Mask(0) == 1 && Mask(1) == 2 && Mask(2) == 4 && Mask(3) == 8
    ensures Mask(4) == 16 && Mask(5) == 32 && Mask(6) == 64 && Mask(7) == 128
  {
  }

  lemma MaskOr(b: bv8, p: nat, q: nat)
    requires p < 8 && q < 8
    ensures ((b | Mask(p)) & Mask(q) == Mask(q)) == (p == q || b & Mask(q) == Mask(q))
  {
    MaskValues();
  }

  lemma MaskAndNot(b: bv8, p: nat, q: nat)
    requires p < 8 && q < 8
    ensures ((b & !Mask(p)) & Mask(q) == Mask(q)) == (p != q && b & Mask(q) == Mask(q))
  {
    MaskValues();
  }

  /** Setting bit i sets that bit and no other. */
  lemma SetIsSet(a: seq<bv8>, i: nat, j: nat)
    requires i / 8 < |a| && j / 8 < |a|
    ensures IsSet(Set(a, i), j) == (i == j || IsSet(a, j))
  {
    if i / 8 == j / 8 {
      MaskOr(a[i / 8], i % 8, j % 8);
    }
  }

  /** Clearing bit i clears that bit and no other. */
  lemma ClearIsSet(a: seq<bv8>, i: nat, j: nat)
    requires i / 8 < |a| && j / 8 < |a|
    ensures IsSet(Clear(a, i), j) == (i != j && IsSet(a, j))
  {
    if i / 8 == j / 8 {
      MaskAndNot(a[i / 8], i % 8, j % 8);
    }
  }

  /** A zeroed vector has no bit set. */
  lemma ZeroIsClear(n: nat, j: nat)
    requires j / 8 < n
    ensures !IsSet(seq(n, _ => 0 as bv8), j)
  {
    MaskValues();
    var m := j % 8;
    assert m == 0 || m == 1 || m == 2 || m == 3 || m == 4 || m == 5 || m == 6 || m == 7;
  }
}
