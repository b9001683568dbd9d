/** The free list of user/umalloc.c as a value. Addresses and sizes count header units (16 bytes). */
module UmallocSpec {
  import opened Prelude

  datatype Block = Block(addr: int, size: nat)

  function End(b: Block): int { b.addr + b.size }

  predicate In(b: Block, u: int) { b.addr <= u < End(b) }

  ghost predicate Before(bs: seq<Block>, i: nat, j: nat) { i < j < |bs| ==> End(bs[i]) < bs[j].addr }

  /** Blocks in order of address, no two of them adjacent; the first is the empty block base. */
  ghost predicate Ordered(bs: seq<Block>) {
    && bs != [] && bs[0].size == 0 && (forall i :: 1 <= i < |bs| ==> bs[i].size > 0)
    && (forall i, j :: Before(bs, i, j))
  }

  ghost predicate InSome(bs: seq<Block>, u: int) { exists i :: 0 <= i < |bs| && In(bs[i], u) }

  // ---------------------------------------------------------------- putting a block in

  /** The place of an address among the blocks. */
  ghost predicate Gap(bs: seq<Block>, a: int, j: nat) {
    j < |bs| && bs[j].addr < a && (j + 1 < |bs| ==> a < bs[j + 1].addr)
  }

  /** Block x fits behind block j without touching a unit of its neighbours. */
  ghost predicate Fits(bs: seq<Block>, x: Block, j: nat) {
    x.size > 0 && Gap(bs, x.addr, j) && End(bs[j]) <= x.addr && (j + 1 < |bs| ==> End(x) <= bs[j + 1].addr)
  }

  predicate JoinsNext(bs: seq<Block>, x: Block, j: nat) { j + 1 < |bs| && End(x) == bs[j + 1].addr }
  predicate JoinsPrev(bs: seq<Block>, x: Block, j: nat)
    requires j < |bs|
  {
    End(bs[j]) == x.addr
  }

  function Joined(bs: seq<Block>, x: Block, j: nat): Block
    requires j < |bs|
  {
    var y := if JoinsNext(bs, x, j) then Block(x.addr, x.size + bs[j + 1].size) else x;
    if JoinsPrev(bs, x, j) then Block(bs[j].addr, bs[j].size + y.size) else y
  }

  function Lo(bs: seq<Block>, x: Block, j: nat): nat
    requires j < |bs|
  {
    if JoinsPrev(bs, x, j) then j else j + 1
  }

  function Hi(bs: seq<Block>, x: Block, j: nat): (hi: nat)
    requires j < |bs|
    ensures j < hi <= |bs|
  {
    if JoinsNext(bs, x, j) then j + 2 else j + 1
  }

  /** The blocks after x has been put behind block j and joined with its neighbours. */
  function Put(bs: seq<Block>, x: Block, j: nat): seq<Block>
    requires j < |bs|
  {
    bs[..Lo(bs, x, j)] + [Joined(bs, x, j)] + bs[Hi(bs, x, j)..]
  }

  /** Where block k of the new list comes from. */
  lemma PutAt(bs: seq<Block>, x: Block, j: nat, k: nat)
    requires j < |bs| && k < |Put(bs, x, j)|
    ensures var lo, hi := Lo(bs, x, j), Hi(bs, x, j);
            Put(bs, x, j)[k] == if k < lo then bs[k] else if k == lo then Joined(bs, x, j) else bs[k + hi - lo - 1]
  {
  }

  lemma PutBefore(bs: seq<Block>, x: Block, j: nat, k: nat, l: nat)
    requires Ordered(bs) && Fits(bs, x, j)
    ensures Before(Put(bs, x, j), k, l)
  {
    var r, lo, hi := Put(bs, x, j), Lo(bs, x, j), Hi(bs, x, j);
    if k < l < |r| {
      PutAt(bs, x, j, k);
      PutAt(bs, x, j, l);
      var k0, l0 := if k < lo then k else k + hi - lo - 1, if l < lo then l else l + hi - lo - 1;
      assert && Before(bs, k0, l0) && Before(bs, k0, j) && Before(bs, j, l0) && Before(bs, k0, j + 1)
             && Before(bs, j + 1, l0);
    }
  }

  lemma PutUnits(bs: seq<Block>, x: Block, j: nat, u: int)
    requires Ordered(bs) && Fits(bs, x, j)
    ensures InSome(Put(bs, x, j), u) <==> InSome(bs, u) || In(x, u)
  {
    var r, lo, hi := Put(bs, x, j), Lo(bs, x, j), Hi(bs, x, j);
    if InSome(r, u) {
      var k: nat :| k < |r| && In(r[k], u);
      PutAt(bs, x, j, k);
      assert k == lo ==> In(x, u) || In(bs[j], u) || (j + 1 < |bs| && In(bs[j + 1], u));
      assert k != lo ==> In(bs[if k < lo then k else k + hi - lo - 1], u);
    }
    if In(x, u) {
      PutAt(bs, x, j, lo);
      assert In(r[lo], u);
    } else if InSome(bs, u) {
      var i: nat :| i < |bs| && In(bs[i], u);
      var k := if i < lo then i else if i < hi then lo else i - (hi - lo - 1);
      PutAt(bs, x, j, k);
      assert In(r[k], u);
    }
  }

  /** The new list is ordered again and holds the units of x besides the old ones. */
  lemma PutOk(bs: seq<Block>, x: Block, j: nat)
    requires Ordered(bs) && Fits(bs, x, j)
    ensures Ordered(Put(bs, x, j)) && Put(bs, x, j)[0] == bs[0]
    ensures forall u :: InSome(Put(bs, x, j), u) <==> InSome(bs, u) || In(x, u)
  {
    var r := Put(bs, x, j);
    assert Before(bs, 0, j);
    forall k: nat, l: nat ensures Before(r, k, l) { PutBefore(bs, x, j, k, l); }
    forall k: nat | 1 <= k < |r| ensures r[k].size > 0 { PutAt(bs, x, j, k); }
    forall u ensures InSome(r, u) <==> InSome(bs, u) || In(x, u) { PutUnits(bs, x, j, u); }
  }

  // ---------------------------------------------------------------- taking units out

  /** The last n units of block i. */
  function Tail(bs: seq<Block>, i: nat, n: nat): Block
    requires i < |bs|
  {
    Block(End(bs[i]) - n, n)
  }

  /** The blocks without them. */
  function Taken(bs: seq<Block>, i: nat, n: nat): seq<Block>
    requires i < |bs| && n <= bs[i].size
  {
    if bs[i].size == n then bs[..i] + bs[i + 1..] else bs[i := Block(bs[i].addr, bs[i].size - n)]
  }

  lemma TakenBefore(bs: seq<Block>, i: nat, n: nat, k: nat, l: nat)
    requires Ordered(bs) && 0 < i < |bs| && 0 < n <= bs[i].size
    ensures Before(Taken(bs, i, n), k, l)
  {
    var up := if bs[i].size == n then 1 else 0;
    assert Before(bs, if k < i then k else k + up, if l < i then l else l + up);
  }

  lemma TakenUnits(bs: seq<Block>, i: nat, n: nat, u: int)
    requires Ordered(bs) && 0 < i < |bs| && 0 < n <= bs[i].size
    ensures InSome(bs, u) <==> InSome(Taken(bs, i, n), u) || In(Tail(bs, i, n), u)
    ensures !(InSome(Taken(bs, i, n), u) && In(Tail(bs, i, n), u))
  {
    var r := Taken(bs, i, n);
    var up := if bs[i].size == n then 1 else 0;
    if InSome(r, u) {
      var k: nat :| k < |r| && In(r[k], u);
      var k0 := if k < i then k else k + up;
      assert In(bs[k0], u);
      assert Before(bs, k0, i) && Before(bs, i, k0);
    }
    if InSome(bs, u) {
      var k: nat :| k < |bs| && In(bs[k], u);
      if !In(Tail(bs, i, n), u) {
        assert In(r[if k < i then k else k - up], u);
      }
    }
    if In(Tail(bs, i, n), u) {
      assert In(bs[i], u);
    }
  }

  lemma TakenOk(bs: seq<Block>, i: nat, n: nat)
    requires Ordered(bs) && 0 < i < |bs| && 0 < n <= bs[i].size
    ensures Ordered(Taken(bs, i, n)) && Taken(bs, i, n)[0] == bs[0]
    ensures forall u :: InSome(bs, u) <==> InSome(Taken(bs, i, n), u) || In(Tail(bs, i, n), u)
    ensures forall u :: !(InSome(Taken(bs, i, n), u) && In(Tail(bs, i, n), u))
  {
    var r, x := Taken(bs, i, n), Tail(bs, i, n);
    forall k: nat, l: nat ensures Before(r, k, l) { TakenBefore(bs, i, n, k, l); }
    forall u ensures (InSome(bs, u) <==> InSome(r, u) || In(x, u)) && !(InSome(r, u) && In(x, u)) {
      TakenUnits(bs, i, n, u);
    }
  }

  // ---------------------------------------------------------------- the list is determined by its units

  ghost predicate SameUnits(bs: seq<Block>, cs: seq<Block>) { forall u :: InSome(bs, u) <==> InSome(cs, u) }

  /** Where bs and cs agree on the blocks before k, the next block of bs does not begin before that of cs. */
  lemma NextBegins(bs: seq<Block>, cs: seq<Block>, k: nat)
    requires Ordered(bs) && Ordered(cs) && SameUnits(bs, cs) && 0 < k < |bs| && k <= |cs| && bs[..k] == cs[..k]
    ensures k < |cs| && cs[k].addr <= bs[k].addr
  {
    var u := bs[k].addr;
    assert In(bs[k], u);
    assert InSome(bs, u);
    forall i: nat | i < k ensures !In(cs[i], u) {
      assert cs[i] == cs[..k][i] == bs[i] && Before(bs, i, k);
    }
    var i: nat :| i < |cs| && In(cs[i], u);
    assert Before(cs, k, i);
  }

  /** ... nor does it end before it. */
  lemma NextEnds(bs: seq<Block>, cs: seq<Block>, k: nat)
    requires Ordered(bs) && Ordered(cs) && SameUnits(bs, cs) && 0 < k < |bs| && k < |cs| && bs[..k] == cs[..k]
    requires bs[k].addr == cs[k].addr
    ensures End(bs[k]) >= End(cs[k])
  {
    var u := End(bs[k]);
    forall i: nat | i < |bs| ensures !In(bs[i], u) { assert Before(bs, i, k) && Before(bs, k, i); }
    assert !InSome(bs, u);
    assert In(cs[k], u) ==> InSome(cs, u);
  }

  lemma {:induction false} SameUnitsFrom(bs: seq<Block>, cs: seq<Block>, k: nat)
    requires Ordered(bs) && Ordered(cs) && SameUnits(bs, cs) && 0 < k <= |bs| && k <= |cs| && bs[..k] == cs[..k]
    ensures bs == cs
    decreases |bs| - k
  {
    if k < |bs| {
      NextBegins(bs, cs, k);
      NextBegins(cs, bs, k);
      NextEnds(bs, cs, k);
      NextEnds(cs, bs, k);
      assert bs[..k + 1] == bs[..k] + [bs[k]] == cs[..k + 1];
      SameUnitsFrom(bs, cs, k + 1);
    } else if k < |cs| {
      NextBegins(cs, bs, k);
    }
  }

  /** Two free lists with the same base and the same units are the same list. */
  lemma SameUnitsSameList(bs: seq<Block>, cs: seq<Block>)
    requires Ordered(bs) && Ordered(cs) && bs[0] == cs[0] && SameUnits(bs, cs)
    ensures bs == cs
  {
    assert bs[..1] == [bs[0]] == cs[..1];
    SameUnitsFrom(bs, cs, 1);
  }

  /** Freeing what malloc has just taken restores the free list, wherever it was taken from. */
  lemma FreeUndoesMalloc(bs: seq<Block>, i: nat, n: nat, j: nat)
    requires Ordered(bs) && 0 < i < |bs| && 0 < n <= bs[i].size && Fits(Taken(bs, i, n), Tail(bs, i, n), j)
    ensures Put(Taken(bs, i, n), Tail(bs, i, n), j) == bs
  {
    TakenOk(bs, i, n);
    PutOk(Taken(bs, i, n), Tail(bs, i, n), j);
    SameUnitsSameList(Put(Taken(bs, i, n), Tail(bs, i, n), j), bs);
  }

  /** The order in which two blocks are freed makes no difference. */
  lemma FreesCommute(bs: seq<Block>, x: Block, y: Block, j: nat, k: nat, k1: nat, j1: nat)
    requires Ordered(bs) && Fits(bs, x, j) && Fits(bs, y, k)
    requires Fits(Put(bs, x, j), y, k1) && Fits(Put(bs, y, k), x, j1)
    ensures Put(Put(bs, x, j), y, k1) == Put(Put(bs, y, k), x, j1)
  {
    PutOk(bs, x, j);
    PutOk(Put(bs, x, j), y, k1);
    PutOk(bs, y, k);
    PutOk(Put(bs, y, k), x, j1);
    SameUnitsSameList(Put(Put(bs, x, j), y, k1), Put(Put(bs, y, k), x, j1));
  }

  // ---------------------------------------------------------------- what sbrk is asked for

  /** The units malloc looks for, header included, and those morecore asks for. */
  function UnitsFor(nbytes: nat): nat { (nbytes + 15) / 16 + 1 }

  function MoreUnits(n: nat): nat { if n < 4096 then 4096 else n }

  /** One unit for the header, and as few as hold the bytes. */
  lemma UnitsLeast(nbytes: nat, n: nat)
    ensures 16 + nbytes <= 16 * UnitsFor(nbytes) && (16 + nbytes <= 16 * n ==> UnitsFor(nbytes) <= n)
  {
  }

  /** sbrk takes its count as an int: it is asked for the memory morecore means to get exactly for requests up to
      0x7fffffe0 bytes. */
  lemma SbrkArgumentIff(nbytes: nat)
    requires nbytes < 0x1_0000_0000
    ensures Int(16 * MoreUnits(UnitsFor(nbytes))) == 16 * MoreUnits(UnitsFor(nbytes)) <==> nbytes <= 0x7fff_ffe0
  {
    IntExact(16 * MoreUnits(UnitsFor(nbytes)));
  }

  /** The block that morecore makes of the memory from the old break brk on lies within what sbrk has given exactly for
      those requests; for a larger one it ends 4 GiB past the new break. */
  lemma BlockInRegionIff(nbytes: nat, brk: nat)
    requires nbytes < 0x1_0000_0000
    ensures var bytes := 16 * MoreUnits(UnitsFor(nbytes));
            var newBrk := brk + Int(bytes);
            && (brk + bytes <= newBrk <==> nbytes <= 0x7fff_ffe0)
            && (nbytes > 0x7fff_ffe0 ==> brk + bytes == newBrk + 0x1_0000_0000)
  {
    SbrkArgumentIff(nbytes);
    var bytes := 16 * MoreUnits(UnitsFor(nbytes));
    assert bytes <= 0x1_0000_0010;
  }
}
