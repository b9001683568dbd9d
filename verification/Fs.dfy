/** The inode layer (kernel/fs.c) over the logged block contents: bitmap, on-disk inodes, inode cache, data blocks. */
module Fs {
  import opened Prelude
  import opened FsSpec
  import Bits

  const BPB: nat := 8192     // bitmap bits per block
  const U32: nat := 0x1_0000_0000

  /** An inode cache entry; d is a copy of the inode, meaningful when valid. */
  datatype Cached = Cached(ref: nat, inum: nat, valid: bool, d: Inode)

  /** What writei comes to: -1, the count, or balloc's panic part way. */
  datatype Outcome = Failed | Done(n: nat) | Panicked

  function Min(a: nat, b: nat): nat { if a < b then a else b }

  /** How much of left bytes fits in the block that holds offset pos. */
  function ChunkLen(left: nat, pos: nat): (m: nat)
    requires left > 0
    ensures 0 < m <= left && m <= BSIZE - pos % BSIZE
  {
    Min(left, BSIZE - pos % BSIZE)
  }

  /** Where a write of n bytes at off stands if byte bad is the first that cannot be read: the bytes of the blocks that
      were copied in full. */
  function Stored(off: nat, n: nat, bad: nat): (r: nat)
    ensures r <= n && r <= bad
  {
    if bad >= n then n
    else
      var start := (off + bad) / BSIZE * BSIZE;
      if start <= off then 0 else start - off
  }

  function Max(a: nat, b: nat): nat { if a < b then b else a }

  /** A chunk of a transfer of n bytes at off starts or ends at tot. */
  predicate Boundary(off: nat, n: nat, tot: nat) { tot == 0 || tot == n || (off + tot) % BSIZE == 0 }

  lemma NextBoundary(off: nat, n: nat, tot: nat)
    requires tot < n
    ensures Boundary(off, n, tot + ChunkLen(n - tot, off + tot))
  {
  }

  /** The chunk that cannot be read in full starts where the blocks before it end. */
  lemma StopsAt(off: nat, n: nat, bad: nat, tot: nat)
    requires tot < n && Boundary(off, n, tot) && tot <= bad < tot + ChunkLen(n - tot, off + tot)
    ensures Stored(off, n, bad) == tot
  {
    InBlock(off + tot, bad - tot);
  }

  /** The next chunk of a transfer, and how much of it can be copied. */
  method NextChunk(off: nat, n: nat, bad: nat, tot: nat) returns (m: nat, len: nat)
    requires tot < n && tot <= bad && Boundary(off, n, tot)
    ensures 0 < m <= n - tot && m <= BSIZE - (off + tot) % BSIZE && len == Min(bad - tot, m)
    ensures Boundary(off, n, tot + m)
    ensures bad < tot + m ==> Stored(off, n, bad) == tot
  {
    m := ChunkLen(n - tot, off + tot);
    len := Min(bad - tot, m);
    NextBoundary(off, n, tot);
    if bad < tot + m {
      StopsAt(off, n, bad, tot);
    }
  }

  /** What writei leaves of the bytes of inode i. */
  ghost predicate Spliced(f0: FS, f: FS, i: nat, off: nat, src: seq<byte>, bad: nat)
    requires Inv(f0) && Inv(f)
  {
    && i < |f0.inodes| && f0.inodes[i].typ != 0 && i < |f.inodes| && f.inodes[i].typ != 0 && off <= |Bytes(f0, i)|
    && f.inodes[i].size == Max(|Bytes(f0, i)|, off + Stored(off, |src|, bad))
    && Bytes(f, i) <= Splice(Bytes(f0, i), off, src[..Min(bad, |src|)])
    && (bad >= |src| ==> Bytes(f, i) == Splice(Bytes(f0, i), off, src))
  }

  /** The size update at the end of writei leaves the splice. */
  lemma FinishSplice(f0: FS, f: FS, i: nat, off: nat, src: seq<byte>, bad: nat, n: nat) returns (g: FS)
    requires Inv(f0) && Inv(f) && i < |f0.inodes| && f0.inodes[i].typ != 0 && off <= f0.inodes[i].size
    requires Written(f0, f, i, off, src, Min(bad, |src|)) && off + |src| <= MAXFILE * BSIZE
    requires n == Max(f0.inodes[i].size, off + Stored(off, |src|, bad))
    ensures g == f.(inodes := f.inodes[i := f.inodes[i].(size := n)]) && Inv(g)
    ensures Spliced(f0, g, i, off, src, bad) && SameElsewhere(f0, g, i)
  {
    var c := Min(bad, |src|);
    g := FinishWrite(f0, f, i, off, src, c, n);
    BytesAt(g, i);
    SpliceAt(Bytes(f0, i), off, src[..c]);
    if bad >= |src| {
      assert src[..c] == src;
    }
  }

  /** What was read so far, and as much of the next chunk as memory takes. */
  lemma Extend(all: seq<byte>, off: nat, pos: nat, end: nat, cut: nat, out: seq<byte>, chunk: seq<byte>)
    requires off <= pos <= cut <= end <= |all| && out == all[off..pos] && chunk == all[pos..end]
    ensures out + chunk[..cut - pos] == all[off..cut] && (cut == end ==> chunk[..cut - pos] == chunk)
  {
  }

  ghost predicate BitmapShape(bitmap: seq<seq<bv8>>, size: nat) {
    |bitmap| == size / BPB + 1 && forall j :: 0 <= j < |bitmap| ==> |bitmap[j]| == BSIZE
  }

  /** The bit of block b. */
  predicate Bit(bitmap: seq<seq<bv8>>, b: nat)
    requires b / BPB < |bitmap| && |bitmap[b / BPB]| == BSIZE
  {
    Bits.IsSet(bitmap[b / BPB], b % BPB)
  }

  /** The set bits are exactly u. */
  ghost predicate BitsMatch(bitmap: seq<seq<bv8>>, size: nat, u: set<nat>) {
    BitmapShape(bitmap, size) && forall b: nat :: b < size ==> (Bit(bitmap, b) <==> b in u)
  }

  lemma BitPosition(bb: nat, bi: nat)
    requires bi < BPB
    ensures (bb * BPB + bi) / BPB == bb && (bb * BPB + bi) % BPB == bi
  {
  }

  lemma SetBit(bitmap: seq<seq<bv8>>, size: nat, u: set<nat>, b: nat)
    requires BitsMatch(bitmap, size, u) && b < size
    ensures BitsMatch(bitmap[b / BPB := Bits.Set(bitmap[b / BPB], b % BPB)], size, u + {b})
  {
    var after := bitmap[b / BPB := Bits.Set(bitmap[b / BPB], b % BPB)];
    forall c: nat | c < size ensures Bit(after, c) <==> c in u + {b} {
      assert Bit(bitmap, c) <==> c in u;
      if c / BPB == b / BPB {
        Bits.SetIsSet(bitmap[b / BPB], b % BPB, c % BPB);
      }
    }
  }

  lemma ClearBit(bitmap: seq<seq<bv8>>, size: nat, u: set<nat>, b: nat)
    requires BitsMatch(bitmap, size, u) && b < size
    ensures BitsMatch(bitmap[b / BPB := Bits.Clear(bitmap[b / BPB], b % BPB)], size, u - {b})
  {
    var after := bitmap[b / BPB := Bits.Clear(bitmap[b / BPB], b % BPB)];
    forall c: nat | c < size ensures Bit(after, c) <==> c in u - {b} {
      assert Bit(bitmap, c) <==> c in u;
      if c / BPB == b / BPB {
        Bits.ClearIsSet(bitmap[b / BPB], b % BPB, c % BPB);
      }
    }
  }

  /** Every block is in use. */
  ghost predicate DiskFull(f: FS) { forall b: nat :: b < f.size ==> b in f.used }

  class FileSystem {
    const size: nat
    var bitmap: seq<seq<bv8>>
    var dinode: seq<Inode>
    var data: seq<Block>
    var icache: seq<Cached>
    ghost var f: FS

    /** The cache entry of inode i that speaks for it. */
    predicate Speaks(e: int, i: int)
      reads `icache
    {
      0 <= e < |icache| && icache[e].ref > 0 && icache[e].valid && icache[e].inum == i
    }

    ghost predicate Spoken(i: int)
      reads `icache
    {
      exists e :: Speaks(e, i)
    }

    ghost predicate CacheOk()
      reads `icache, `dinode, `f
    {
      && |f.inodes| == |dinode|
      && (forall e :: 0 <= e < |icache| && icache[e].ref > 0 ==> icache[e].inum < |dinode|)
      && (forall d, e ::
            0 <= d < e < |icache| && icache[d].ref > 0 && icache[e].ref > 0 ==> icache[d].inum != icache[e].inum)
      && (forall e ::
            0 <= e < |icache| && icache[e].ref > 0 && icache[e].valid ==>
              icache[e].d == f.inodes[icache[e].inum] && icache[e].d.typ != 0)
      && (forall i :: 0 <= i < |dinode| ==> Spoken(i) || dinode[i] == f.inodes[i])
      && (forall i :: 0 <= i < |dinode| ==> dinode[i].typ == f.inodes[i].typ)
    }

    ghost predicate Valid()
      reads this
    {
      Inv(f) && f.size == size && f.data == data && CacheOk() && BitsMatch(bitmap, size, f.used)
    }

    /** An entry that is referenced, filled and of an allocated inode: what ilock hands out. */
    ghost predicate Open(e: nat)
      reads this
    {
      && e < |icache| && icache[e].ref > 0 && icache[e].valid && icache[e].inum < |f.inodes|
      && f.inodes[icache[e].inum].typ != 0
    }

    constructor (size: nat, bitmap: seq<seq<bv8>>, dinode: seq<Inode>, data: seq<Block>, slots: nat, ghost f: FS)
      requires Inv(f) && f.size == size && f.data == data && f.inodes == dinode && BitsMatch(bitmap, size, f.used)
      ensures Valid() && this.f == f && forall e :: 0 <= e < |icache| ==> icache[e].ref == 0
    {
      this.size, this.bitmap, this.dinode, this.data, this.f := size, bitmap, dinode, data, f;
      icache := seq(slots, _ => Cached(0, 0, false, Inode(0, 0, 0, [])));
    }

    /** balloc's inner loop: the first clear bit of bitmap block bb. */
    method ScanBlock(bb: nat, ghost u: set<nat>) returns (bi: nat)
      requires BitsMatch(bitmap, size, u) && bb * BPB < size && forall c: nat :: c < bb * BPB ==> c in u
      ensures bi <= BPB && forall c: nat :: c < bb * BPB + bi && c < size ==> c in u
      ensures bi < BPB && bb * BPB + bi < size ==> bb * BPB + bi !in u
    {
      bi := 0;
      while bi < BPB && bb * BPB + bi < size
        invariant 0 <= bi <= BPB
        invariant forall c: nat :: c < bb * BPB + bi && c < size ==> c in u
      {
        BitPosition(bb, bi);
        assert Bit(bitmap, bb * BPB + bi) <==> bb * BPB + bi in u;
        if !Bits.IsSet(bitmap[bb], bi) {
          return;
        }
        bi := bi + 1;
      }
    }

    /** balloc: the lowest free block, zeroed; fails only when every block is in use. */
    method Balloc(ghost u: set<nat>) returns (r: Option<nat>)
      requires BitsMatch(bitmap, size, u) && |data| == size
      modifies this`bitmap, this`data
      ensures r.None? ==> (forall b: nat :: b < size ==> b in u) && bitmap == old(bitmap) && data == old(data)
      ensures r.Some? ==> r.value < size && r.value !in u && (forall b: nat :: b < r.value ==> b in u)
      ensures r.Some? ==> BitsMatch(bitmap, size, u + {r.value}) && data == old(data)[r.value := Zero()]
    {
      var bb := 0;
      while bb * BPB < size
        invariant forall c: nat :: c < bb * BPB && c < size ==> c in u
        invariant bitmap == old(bitmap) && data == old(data)
        decreases size - bb * BPB
      {
        var bi := ScanBlock(bb, u);
        if bi < BPB && bb * BPB + bi < size {
          TakeBlock(bb, bi, u);
          return Some(bb * BPB + bi);
        }
        bb := bb + 1;
      }
      r := None;
    }

    /** The bit is set and the block zeroed. */
    method TakeBlock(bb: nat, bi: nat, ghost u: set<nat>)
      requires BitsMatch(bitmap, size, u) && |data| == size && bi < BPB && bb * BPB + bi < size
      modifies this`bitmap, this`data
      ensures BitsMatch(bitmap, size, u + {bb * BPB + bi}) && data == old(data)[bb * BPB + bi := Zero()]
    {
      BitPosition(bb, bi);
      SetBit(bitmap, size, u, bb * BPB + bi);
      bitmap := bitmap[bb := Bits.Set(bitmap[bb], bi)];
      data := data[bb * BPB + bi := Zero()];
    }

    /** bfree: the caller frees a block whose bit is set, so its panic is never reached. */
    method Bfree(b: nat, ghost u: set<nat>)
      requires BitsMatch(bitmap, size, u) && b < size && b in u
      modifies this`bitmap
      ensures BitsMatch(bitmap, size, u - {b})
    {
      assert Bit(bitmap, b);
      var bi := b % BPB;
      ClearBit(bitmap, size, u, b);
      bitmap := bitmap[b / BPB := Bits.Clear(bitmap[b / BPB], bi)];
    }

    /** A change to the entry's inode record reaches the cache and, at the same moment, what its readers see. */
    method Put(e: nat, d: Inode, ghost g: FS)
      requires CacheOk() && e < |icache| && icache[e].ref > 0 && icache[e].valid
      requires g.inodes == f.inodes[icache[e].inum := d] && d.typ == f.inodes[icache[e].inum].typ
      modifies this`icache, this`f
      ensures CacheOk() && f == g && icache == old(icache)[e := old(icache)[e].(d := d)]
    {
      icache := icache[e := icache[e].(d := d)];
      f := g;
      assert Speaks(e, icache[e].inum);
      forall i | 0 <= i < |dinode| ensures Spoken(i) || dinode[i] == f.inodes[i] {
        if i != icache[e].inum && old(Spoken(i)) {
          var x :| old(Speaks(x, i));
          assert Speaks(x, i);
        }
      }
    }

    /** balloc for address k of the entry's inode: a direct block, or the indirect block. */
    method BallocAddr(e: nat, k: nat) returns (r: Option<nat>)
      requires Valid() && Open(e) && k <= NDIRECT && icache[e].d.addrs[k] == 0
      modifies this`bitmap, this`data, this`icache, this`f
      ensures Valid() && Open(e) && |icache| == |old(icache)| && icache[e].inum == old(icache)[e].inum
      ensures Grown(old(f), f, icache[e].inum)
      ensures r.Some? ==> icache[e].d.addrs[k] == r.value != 0
      ensures r.None? ==> DiskFull(f)
    {
      ghost var i := icache[e].inum;
      ghost var p := if k < NDIRECT then Direct(i, k) else IndPtr(i);
      r := Balloc(f.used);
      if r.Some? {
        var b := r.value;
        ghost var g := Allocate(f, p, b);
        Put(e, icache[e].d.(addrs := icache[e].d.addrs[k := b]), g);
      }
    }

    /** balloc for entry j of the inode's indirect block. */
    method BallocEntry(e: nat, j: nat) returns (r: Option<nat>)
      requires Valid() && Open(e) && j < NINDIRECT && icache[e].d.addrs[NDIRECT] != 0
      requires At(f, Entry(icache[e].inum, j)) == 0
      modifies this`bitmap, this`data, this`f
      ensures Valid() && Open(e)
      ensures Grown(old(f), f, icache[e].inum)
      ensures r.Some? ==> At(f, Entry(icache[e].inum, j)) == r.value != 0
      ensures r.None? ==> DiskFull(f)
    {
      r := Balloc(f.used);
      if r.Some? {
        LinkEntry(e, j, r.value);
      }
    }

    /** The freshly allocated block's number goes into the indirect block. */
    method LinkEntry(e: nat, j: nat, b: nat)
      requires Inv(f) && CacheOk() && Open(e) && f.size == size && b < size && b !in f.used
      requires BitsMatch(bitmap, size, f.used + {b}) && data == f.data[b := Zero()]
      requires j < NINDIRECT && icache[e].d.addrs[NDIRECT] != 0 && At(f, Entry(icache[e].inum, j)) == 0
      modifies this`data, this`f
      ensures Valid() && Grown(old(f), f, icache[e].inum) && At(f, Entry(icache[e].inum, j)) == b != 0
    {
      var ind := icache[e].d.addrs[NDIRECT];
      f := Allocate(f, Entry(icache[e].inum, j), b);
      data := data[ind := SetWord(data[ind], j, b)];
    }

    /** bmap: the disk block of block bn, allocated if it had none. Nobody can tell by reading; a mapped block is
        returned with nothing changed. None is the panic of balloc, on a full disk. */
    method Bmap(e: nat, bn: nat) returns (r: Option<nat>)
      requires Valid() && Open(e) && bn < MAXFILE
      modifies this`bitmap, this`data, this`icache, this`f
      ensures Valid() && Open(e) && |icache| == |old(icache)| && icache[e].inum == old(icache)[e].inum
      ensures Grown(old(f), f, icache[e].inum)
      ensures r.Some? ==> r.value == BlockOf(f, icache[e].inum, bn) != 0
      ensures r.Some? ==> Maps(icache[e].d.addrs, data, bn, r.value)
      ensures r.None? ==> DiskFull(f)
      ensures BlockOf(old(f), old(icache)[e].inum, bn) != 0 ==> r.Some? && unchanged(this)
    {
      if bn < NDIRECT {
        r := Some(icache[e].d.addrs[bn]);
        if r.value == 0 {
          r := BallocAddr(e, bn);
        }
      } else {
        r := BmapIndirect(e, bn - NDIRECT);
      }
      if r.Some? {
        BlockMaps(f, icache[e].inum, bn);
      }
    }

    method BmapIndirect(e: nat, j: nat) returns (r: Option<nat>)
      requires Valid() && Open(e) && j < NINDIRECT
      modifies this`bitmap, this`data, this`icache, this`f
      ensures Valid() && Open(e) && |icache| == |old(icache)| && icache[e].inum == old(icache)[e].inum
      ensures Grown(old(f), f, icache[e].inum)
      ensures r.Some? ==> r.value == At(f, Entry(icache[e].inum, j)) != 0
      ensures r.None? ==> DiskFull(f)
      ensures At(old(f), Entry(old(icache)[e].inum, j)) != 0 ==> r.Some? && unchanged(this)
    {
      ghost var i := icache[e].inum;
      if icache[e].d.addrs[NDIRECT] == 0 {
        r := BallocAddr(e, NDIRECT);
        if r.None? {
          return;
        }
      }
      ghost var g := f;
      IndirectOwned(f, i);
      var addr := WordAt(data[icache[e].d.addrs[NDIRECT]], j);
      r := Some(addr);
      if addr == 0 {
        r := BallocEntry(e, j);
        GrownTrans(old(f), g, f, i);
      }
    }

    /** One turn of readi's loop. */
    method ReadOne(e: nat, pos: nat, m: nat, ghost all: seq<byte>) returns (chunk: seq<byte>)
      requires Valid() && Open(e) && all == Bytes(f, icache[e].inum)
      requires 0 < m <= BSIZE - pos % BSIZE && pos + m <= f.inodes[icache[e].inum].size
      modifies this`bitmap, this`data, this`icache, this`f
      ensures unchanged(this) && pos + m <= |all| && chunk == all[pos..pos + m]
    {
      ReadChunk(f, icache[e].inum, pos, m, all);
      var b := Bmap(e, pos / BSIZE);
      chunk := data[b.value][pos % BSIZE..pos % BSIZE + m];
    }

    /** readi, into memory whose byte bad is the first that cannot be written: the matching slice of the inode's bytes
        up to there, the count of the whole of it, and no block is allocated. */
    method Readi(e: nat, off: nat, n: nat, bad: nat) returns (r: Option<nat>, out: seq<byte>)
      requires Valid() && Open(e) && off < U32 && n < U32
      modifies this`bitmap, this`data, this`icache, this`f
      ensures unchanged(this)
      ensures |Bytes(f, icache[e].inum)| == f.inodes[icache[e].inum].size
      ensures r.None? <==> off > f.inodes[icache[e].inum].size || off + n >= U32
      ensures r.Some? ==> r.value == Min(n, f.inodes[icache[e].inum].size - off)
      ensures r.Some? ==> out == Bytes(f, icache[e].inum)[off..off + Min(r.value, bad)]
      ensures forall k :: 0 <= k < |out| ==> ByteIs(icache[e].d.addrs, data, off + k, out[k])
    {
      var size := icache[e].d.size;
      BytesAt(f, icache[e].inum);
      if off > size || (off + n) % U32 < off {
        return None, [];
      }
      var m := if off + n > size then size - off else n;
      out := ReadChunks(e, off, m, bad, Bytes(f, icache[e].inum));
      r := Some(m);
      SliceIsBlocks(f, icache[e].inum, off, out);
    }

    /** One turn of readi's loop, on what was read so far: false means that the copy failed. */
    method ReadNext(e: nat, off: nat, n: nat, bad: nat, tot: nat, out: seq<byte>, ghost all: seq<byte>)
      returns (ok: bool, m: nat, more: seq<byte>)
      requires Valid() && Open(e) && all == Bytes(f, icache[e].inum) && |all| == f.inodes[icache[e].inum].size
      requires tot < n && off + n <= |all| && tot <= bad && out == all[off..off + tot]
      modifies this`bitmap, this`data, this`icache, this`f
      ensures unchanged(this) && 0 < m <= n - tot && (ok <==> tot + m <= bad)
      ensures more == all[off..off + Min(bad, tot + m)]
    {
      var pos := off + tot;
      m := ChunkLen(n - tot, pos);
      var chunk := ReadOne(e, pos, m, all);
      ok := tot + m <= bad;
      Extend(all, off, pos, pos + m, if ok then pos + m else off + bad, out, chunk);
      more := out + if ok then chunk else chunk[..bad - tot];
    }

    /** readi's loop over blocks. */
    method ReadChunks(e: nat, off: nat, n: nat, bad: nat, ghost all: seq<byte>) returns (out: seq<byte>)
      requires Valid() && Open(e) && all == Bytes(f, icache[e].inum) && |all| == f.inodes[icache[e].inum].size
      requires off + n <= |all|
      modifies this`bitmap, this`data, this`icache, this`f
      ensures unchanged(this) && out == all[off..off + Min(n, bad)]
    {
      out := [];
      var tot := 0;
      while tot < n
        invariant 0 <= tot <= n && tot <= bad && unchanged(this)
        invariant out == all[off..off + tot]
      {
        var ok, m;
        ok, m, out := ReadNext(e, off, n, bad, tot, out, all);
        if !ok {
          return;
        }
        tot := tot + m;
      }
    }

    /** iupdate: the cached inode goes to its disk record. */
    method Iupdate(e: nat)
      requires Valid() && e < |icache| && icache[e].ref > 0 && icache[e].valid
      modifies this`dinode
      ensures Valid() && dinode == old(dinode)[icache[e].inum := icache[e].d]
    {
      dinode := dinode[icache[e].inum := icache[e].d];
    }

    /** After iupdate the entry can be given up: iput, iget and ilock find the same inode again. */
    method UpdateRoundTrip(e: nat) returns (r: nat)
      requires Valid() && Open(e) && icache[e].ref == 1 && icache[e].d.nlink != 0
      modifies this`bitmap, this`icache, this`dinode, this`f
      ensures Valid() && f == old(f) && Open(r) && icache[r].ref == 1
      ensures icache[r].inum == old(icache)[e].inum && icache[r].d == old(icache)[e].d
    {
      var inum := icache[e].inum;
      Iupdate(e);
      Iput(e);
      var slot := Iget(inum);
      r := slot.value;
      var ok := Ilock(r);
    }

    /** Where writei stands, with tot bytes written to the inode i of its entry since f0. */
    ghost predicate Writing(e: nat, i: nat, slots: nat, off: nat, src: seq<byte>, tot: nat, f0: FS)
      reads this
    {
      && Valid() && Open(e) && |icache| == slots && icache[e].inum == i
      && Inv(f0) && i < |f0.inodes| && f0.inodes[i].typ != 0 && Written(f0, f, i, off, src, tot)
    }

    /** bmap for the next chunk of a write. */
    method MapFor(e: nat, off: nat, src: seq<byte>, tot: nat, ghost f0: FS) returns (r: Option<nat>)
      requires e < |icache| && Writing(e, icache[e].inum, |icache|, off, src, tot, f0) && (off + tot) / BSIZE < MAXFILE
      modifies this`bitmap, this`data, this`icache, this`f
      ensures Writing(e, old(icache[e].inum), old(|icache|), off, src, tot, f0)
      ensures r.None? ==> DiskFull(f)
      ensures r.Some? ==> r.value == BlockOf(f, icache[e].inum, (off + tot) / BSIZE) != 0
    {
      ghost var g := f;
      r := Bmap(e, (off + tot) / BSIZE);
      WrittenGrown(f0, g, f, icache[e].inum, off, src, tot);
    }

    /** bmap for the next chunk, and the copy of what can be read of it. */
    method CopyChunk(e: nat, off: nat, src: seq<byte>, tot: nat, len: nat, ghost f0: FS) returns (ok: bool)
      requires e < |icache| && Writing(e, icache[e].inum, |icache|, off, src, tot, f0) && tot < |src|
      requires off + |src| <= MAXFILE * BSIZE && tot + len <= |src| && len <= BSIZE - (off + tot) % BSIZE
      modifies this`bitmap, this`data, this`icache, this`f
      ensures !ok ==> Writing(e, old(icache[e].inum), old(|icache|), off, src, tot, f0) && DiskFull(f)
      ensures ok ==> Writing(e, old(icache[e].inum), old(|icache|), off, src, tot + len, f0)
    {
      BlockBelow(off + tot, MAXFILE * BSIZE);
      var r := MapFor(e, off, src, tot, f0);
      ok := r.Some?;
      if ok && len > 0 {
        WriteChunk(e, off, src, tot, len, r.value, f0);
      }
    }

    /** One turn of writei's loop: the rest of the current block, or of the data, or what can be read of it. */
    method WriteOne(e: nat, off: nat, src: seq<byte>, bad: nat, tot: nat, ghost i: nat, ghost slots: nat, ghost f0: FS)
      returns (ok: bool, m: nat, len: nat)
      requires Writing(e, i, slots, off, src, tot, f0) && tot < |src| && tot <= bad
      requires off + |src| <= MAXFILE * BSIZE && Boundary(off, |src|, tot)
      modifies this`bitmap, this`data, this`icache, this`f
      ensures 0 < m <= |src| - tot && len == Min(bad - tot, m) && Boundary(off, |src|, tot + m)
      ensures bad < tot + m ==> Stored(off, |src|, bad) == tot
      ensures !ok ==> Writing(e, i, slots, off, src, tot, f0) && DiskFull(f)
      ensures ok ==> Writing(e, i, slots, off, src, tot + len, f0)
    {
      m, len := NextChunk(off, |src|, bad, tot);
      ok := CopyChunk(e, off, src, tot, len, f0);
    }

    /** The copy of one chunk into its block. */
    method WriteChunk(e: nat, off: nat, src: seq<byte>, tot: nat, m: nat, b: nat, ghost f0: FS)
      requires e < |icache| && Writing(e, icache[e].inum, |icache|, off, src, tot, f0) && off + |src| <= MAXFILE * BSIZE
      requires tot + m <= |src| && 0 < m <= BSIZE - (off + tot) % BSIZE && (off + tot) / BSIZE < MAXFILE
      requires b == BlockOf(f, icache[e].inum, (off + tot) / BSIZE) != 0
      modifies this`data, this`f
      ensures Writing(e, icache[e].inum, |icache|, off, src, tot + m, f0)
    {
      ghost var g := StoreChunk(f0, f, icache[e].inum, off, src, tot, m, b);
      StoreBlock(b, (off + tot) % BSIZE, src[tot..tot + m], g);
    }

    /** either_copyin into a block's buffer. */
    method StoreBlock(b: nat, o: nat, chunk: seq<byte>, ghost g: FS)
      requires Valid() && b < |data| && o + |chunk| <= BSIZE
      requires Inv(g) && g == f.(data := f.data[b := Overwrite(f.data[b], o, chunk)])
      modifies this`data, this`f
      ensures Valid() && f == g
    {
      data := data[b := Overwrite(data[b], o, chunk)];
      f := g;
    }

    /** writei's loop over blocks. */
    method WriteChunks(e: nat, off: nat, src: seq<byte>, bad: nat) returns (ok: bool, tot: nat)
      requires Valid() && Open(e) && off <= f.inodes[icache[e].inum].size && off + |src| <= MAXFILE * BSIZE
      modifies this`bitmap, this`data, this`icache, this`f
      ensures !ok ==> Writing(e, old(icache[e].inum), old(|icache|), off, src, tot, old(f)) && DiskFull(f)
      ensures ok ==> tot == Stored(off, |src|, bad)
      ensures ok ==> Writing(e, old(icache[e].inum), old(|icache|), off, src, Min(bad, |src|), old(f))
    {
      ghost var i, slots, f0 := icache[e].inum, |icache|, f;
      WrittenStart(f, i, off, src);
      tot, ok := 0, true;
      while tot < |src|
        invariant 0 <= tot <= |src| && tot <= bad
        invariant Writing(e, i, slots, off, src, tot, f0) && Boundary(off, |src|, tot)
        decreases |src| - tot
      {
        var m, len: nat;
        ok, m, len := WriteOne(e, off, src, bad, tot, i, slots, f0);
        if !ok {
          return;
        }
        if bad < tot + m {
          return;
        }
        tot := tot + m;
      }
    }

    /** writei past its checks, without the iupdate. */
    method WriteBody(e: nat, off: nat, src: seq<byte>, bad: nat) returns (ok: bool)
      requires Valid() && Open(e) && off <= f.inodes[icache[e].inum].size && off + |src| <= MAXFILE * BSIZE
      modifies this`bitmap, this`data, this`icache, this`f
      ensures Valid() && Open(e) && |icache| == |old(icache)| && icache[e].inum == old(icache)[e].inum
      ensures !ok ==> DiskFull(f)
      ensures ok ==> Spliced(old(f), f, icache[e].inum, off, src, bad) && SameElsewhere(old(f), f, icache[e].inum)
    {
      var size0 := icache[e].d.size;
      var tot;
      ok, tot := WriteChunks(e, off, src, bad);
      if ok {
        SetSize(e, if off + tot > size0 then off + tot else size0, off, src, bad, old(f));
      }
    }

    /** writei, from memory whose byte bad is the first that cannot be read: the bytes before it are spliced into the
        inode's bytes at off, but the size grows only to the end of the blocks that were copied in full, and the count
        returned is that of all of src. The inode is on disk, and every other inode reads as before. */
    method Writei(e: nat, off: nat, src: seq<byte>, bad: nat) returns (r: Outcome)
      requires Valid() && Open(e) && off < U32 && |src| < U32
      modifies this`bitmap, this`data, this`icache, this`dinode, this`f
      ensures Valid() && Open(e) && |icache| == |old(icache)| && icache[e].inum == old(icache)[e].inum
      ensures r.Failed? <==>
                off > old(f).inodes[old(icache)[e].inum].size || off + |src| >= U32 || off + |src| > MAXFILE * BSIZE
      ensures r.Failed? ==> unchanged(this)
      ensures r.Panicked? ==> DiskFull(f)
      ensures r.Done? ==> r.n == |src| && Spliced(old(f), f, icache[e].inum, off, src, bad)
      ensures r.Done? ==> SameElsewhere(old(f), f, icache[e].inum)
      ensures r.Done? && |src| > 0 ==> dinode[icache[e].inum] == icache[e].d
    {
      if off > icache[e].d.size || (off + |src|) % U32 < off {
        return Failed;
      }
      if off + |src| > MAXFILE * BSIZE {
        return Failed;
      }
      var ok := WriteBody(e, off, src, bad);
      if !ok {
        return Panicked;
      }
      if |src| > 0 {
        Iupdate(e);
      }
      r := Done(|src|);
    }

    /** The end of writei: the size grows to the end of the write. */
    method SetSize(e: nat, n: nat, ghost off: nat, ghost src: seq<byte>, ghost bad: nat, ghost f0: FS)
      requires e < |icache| && Writing(e, icache[e].inum, |icache|, off, src, Min(bad, |src|), f0)
      requires off <= f0.inodes[icache[e].inum].size && off + |src| <= MAXFILE * BSIZE
      requires n == Max(f0.inodes[icache[e].inum].size, off + Stored(off, |src|, bad))
      modifies this`icache, this`f
      ensures Valid() && Open(e) && |icache| == |old(icache)| && icache[e].inum == old(icache)[e].inum
      ensures Spliced(f0, f, icache[e].inum, off, src, bad) && SameElsewhere(f0, f, icache[e].inum)
    {
      ghost var g := FinishSplice(f0, f, icache[e].inum, off, src, bad, n);
      Put(e, icache[e].d.(size := n), g);
    }

    /** Valid, except that the entry's inode may be larger than its blocks. */
    ghost predicate Truncating(e: nat)
      reads this
    {
      && Open(e) && InvBut(f, icache[e].inum) && f.size == size && f.data == data && CacheOk()
      && BitsMatch(bitmap, size, f.used)
    }

    /** bfree of a direct block. */
    method FreeAddr(e: nat, k: nat)
      requires Truncating(e) && k < NDIRECT && icache[e].d.addrs[k] != 0
      modifies this`bitmap, this`icache, this`f
      ensures Truncating(e) && OthersKept(old(f), f, icache[e].inum)
      ensures icache ==
                old(icache)[e := old(icache)[e].(d := old(icache)[e].d.(addrs := old(icache)[e].d.addrs[k := 0]))]
    {
      ghost var g := FreeDirect(f, icache[e].inum, k);
      Bfree(icache[e].d.addrs[k], f.used);
      Put(e, icache[e].d.(addrs := icache[e].d.addrs[k := 0]), g);
    }

    /** The bits of the indirect block's entries, then of the block itself; no bit is cleared twice. */
    method FreeEntries(ind: nat, ghost i: nat)
      requires InvBut(f, i) && i < |f.inodes| && f.inodes[i].typ != 0 && f.inodes[i].addrs[NDIRECT] == ind != 0
      requires f.size == size && f.data == data && BitsMatch(bitmap, size, f.used)
      modifies this`bitmap
      ensures ind < |data|
      ensures forall u ::
                (forall b :: b in u <==> b in f.used && b != ind && !Among(data[ind], NINDIRECT, b)) ==>
                  BitsMatch(bitmap, size, u)
    {
      EntriesDistinct(f, i);
      ghost var u := f.used;
      var a := data[ind];
      var j := 0;
      while j < NINDIRECT
        invariant 0 <= j <= NINDIRECT && BitsMatch(bitmap, size, u)
        invariant forall b :: b in u <==> b in f.used && !Among(a, j, b)
      {
        var b := WordAt(a, j);
        AmongStep(a, j);
        if b != 0 {
          assert !Among(a, j, b);
          Bfree(b, u);
          u := u - {b};
        }
        j := j + 1;
      }
      Bfree(ind, u);
      u := u - {ind};
      forall v | forall b :: b in v <==> b in f.used && b != ind && !Among(data[ind], NINDIRECT, b)
        ensures BitsMatch(bitmap, size, v)
      {
        assert v == u;
      }
    }

    /** The second half of itrunc. */
    method FreeIndirectBlock(e: nat)
      requires Truncating(e) && icache[e].d.addrs[NDIRECT] != 0
      modifies this`bitmap, this`icache, this`f
      ensures Truncating(e) && OthersKept(old(f), f, icache[e].inum)
      ensures icache ==
                old(icache)[e := old(icache)[e].(d := old(icache)[e].d.(addrs := old(icache)[e].d.addrs[NDIRECT := 0]))]
    {
      FreeEntries(icache[e].d.addrs[NDIRECT], icache[e].inum);
      ghost var g := FreeIndirect(f, icache[e].inum);
      Put(e, icache[e].d.(addrs := icache[e].d.addrs[NDIRECT := 0]), g);
    }

    /** itrunc: the inode is left with no blocks and size 0, on disk too; every bfree hits a set bit; other inodes
        read as before. */
    method Itrunc(e: nat)
      requires Valid() && Open(e)
      modifies this`bitmap, this`icache, this`dinode, this`f
      ensures Valid() && Open(e) && SameElsewhere(old(f), f, old(icache)[e].inum)
      ensures icache == old(icache)[e := old(icache)[e].(d := old(icache)[e].d.(addrs := NoAddrs(), size := 0))]
      ensures dinode == old(dinode)[icache[e].inum := icache[e].d]
    {
      FreeAll(e);
      ZeroSize(e, old(f));
      Iupdate(e);
    }

    /** itrunc's two loops. */
    method FreeAll(e: nat)
      requires Valid() && Open(e)
      modifies this`bitmap, this`icache, this`f
      ensures Truncating(e) && OthersKept(old(f), f, icache[e].inum)
      ensures icache == old(icache)[e := old(icache)[e].(d := old(icache)[e].d.(addrs := NoAddrs()))]
    {
      FreeAllDirect(e);
      FreeLast(e, old(f));
      assert icache[e].d.addrs == NoAddrs();
    }

    /** The second half of itrunc, if there is an indirect block. */
    method FreeLast(e: nat, ghost f0: FS)
      requires Truncating(e) && Inv(f0) && OthersKept(f0, f, icache[e].inum)
      modifies this`bitmap, this`icache, this`f
      ensures Truncating(e) && OthersKept(f0, f, icache[e].inum)
      ensures icache ==
                old(icache)[e := old(icache)[e].(d := old(icache)[e].d.(addrs := old(icache)[e].d.addrs[NDIRECT := 0]))]
    {
      if icache[e].d.addrs[NDIRECT] != 0 {
        ghost var g := f;
        FreeIndirectBlock(e);
        OthersKeptTrans(f0, g, f, icache[e].inum);
      } else {
        assert icache[e].d.addrs[NDIRECT := 0] == icache[e].d.addrs;
      }
    }

    /** One turn of itrunc's first loop. */
    method FreeNext(e: nat, k: nat, ghost f0: FS)
      requires Truncating(e) && k < NDIRECT && Inv(f0) && OthersKept(f0, f, icache[e].inum)
      modifies this`bitmap, this`icache, this`f
      ensures Truncating(e) && OthersKept(f0, f, icache[e].inum)
      ensures icache ==
                old(icache)[e := old(icache)[e].(d := old(icache)[e].d.(addrs := old(icache)[e].d.addrs[k := 0]))]
    {
      if icache[e].d.addrs[k] != 0 {
        ghost var g := f;
        FreeAddr(e, k);
        OthersKeptTrans(f0, g, f, icache[e].inum);
      } else {
        assert icache[e].d.addrs[k := 0] == icache[e].d.addrs;
      }
    }

    /** itrunc's first loop. */
    method FreeAllDirect(e: nat)
      requires Valid() && Open(e)
      modifies this`bitmap, this`icache, this`f
      ensures Truncating(e) && OthersKept(old(f), f, icache[e].inum)
      ensures |icache| == |old(icache)| && |icache[e].d.addrs| == NDIRECT + 1 == |old(icache)[e].d.addrs|
      ensures icache == old(icache)[e := old(icache)[e].(d := old(icache)[e].d.(addrs := icache[e].d.addrs))]
      ensures forall x :: 0 <= x < NDIRECT ==> icache[e].d.addrs[x] == 0
    {
      var k := 0;
      while k < NDIRECT
        invariant 0 <= k <= NDIRECT && Truncating(e) && OthersKept(old(f), f, icache[e].inum)
        invariant icache == old(icache)[e := old(icache)[e].(d := old(icache)[e].d.(addrs := icache[e].d.addrs))]
        invariant forall x :: 0 <= x < k ==> icache[e].d.addrs[x] == 0
      {
        FreeNext(e, k, old(f));
        k := k + 1;
      }
    }

    method ZeroSize(e: nat, ghost f0: FS)
      requires Truncating(e) && Inv(f0) && OthersKept(f0, f, icache[e].inum)
      modifies this`icache, this`f
      ensures Valid() && Open(e) && SameElsewhere(f0, f, icache[e].inum)
      ensures icache == old(icache)[e := old(icache)[e].(d := old(icache)[e].d.(size := 0))]
    {
      ghost var g := ResizeToZero(f, icache[e].inum);
      OthersKeptTrans(f0, f, g, icache[e].inum);
      KeptElsewhere(f0, g, icache[e].inum);
      Put(e, icache[e].d.(size := 0), g);
    }

    /** iget: the entry of inode inum, found or taken from an empty slot; None is its panic. No inode has two
        entries. */
    method Iget(inum: nat) returns (r: Option<nat>)
      requires Valid() && inum < |dinode|
      modifies this`icache
      ensures Valid()
      ensures r.None? <==> forall e :: 0 <= e < |old(icache)| ==> old(icache)[e].ref > 0 && old(icache)[e].inum != inum
      ensures r.None? ==> icache == old(icache)
      ensures r.Some? ==> r.value < |icache| == |old(icache)| && icache[r.value].inum == inum
      ensures r.Some? ==> forall e :: 0 <= e < |icache| && e != r.value ==> icache[e] == old(icache)[e]
      ensures r.Some? ==> icache[r.value].ref == 1 + old(icache)[r.value].ref
      ensures r.Some? ==>
                old(icache)[r.value].ref > 0 ==>
                  icache[r.value] == old(icache)[r.value].(ref := old(icache)[r.value].ref + 1)
      ensures r.Some? ==> old(icache)[r.value].ref == 0 ==> !icache[r.value].valid
    {
      var empty := None;
      var e := 0;
      while e < |icache|
        invariant 0 <= e <= |icache| && icache == old(icache)
        invariant forall x :: 0 <= x < e ==> !(icache[x].ref > 0 && icache[x].inum == inum)
        invariant empty.None? ==> forall x :: 0 <= x < e ==> icache[x].ref > 0
        invariant empty.Some? ==> 0 <= empty.value < e && icache[empty.value].ref == 0
      {
        if icache[e].ref > 0 && icache[e].inum == inum {
          Reference(e, icache[e].(ref := icache[e].ref + 1));
          return Some(e);
        }
        if empty.None? && icache[e].ref == 0 {
          empty := Some(e);
        }
        e := e + 1;
      }
      if empty.None? {
        return None;
      }
      Reference(empty.value, Cached(1, inum, false, icache[empty.value].d));
      r := empty;
    }

    /** One entry gains a reference, or a free one starts over for an inode that has none. */
    method Reference(e: nat, c: Cached)
      requires Valid() && e < |icache| && c.ref > 0 && c.inum < |dinode|
      requires (icache[e].ref > 0 && c == icache[e].(ref := c.ref)) || (icache[e].ref == 0 && !c.valid)
      requires icache[e].ref == 0 ==> forall x :: 0 <= x < |icache| && icache[x].ref > 0 ==> icache[x].inum != c.inum
      modifies this`icache
      ensures Valid() && icache == old(icache)[e := c]
    {
      icache := icache[e := c];
      forall i | 0 <= i < |dinode| && old(Spoken(i)) ensures Spoken(i) {
        var x :| old(Speaks(x, i));
        assert Speaks(x, i);
      }
    }

    /** ilock's read: a referenced entry is filled from disk; false is the panic on an inode of no type. */
    method Ilock(e: nat) returns (ok: bool)
      requires Valid() && e < |icache| && icache[e].ref > 0
      modifies this`icache
      ensures Valid() && (ok <==> f.inodes[old(icache)[e].inum].typ != 0)
      ensures icache ==
                if ok
                then old(icache)[e := old(icache)[e].(valid := true, d := f.inodes[old(icache)[e].inum])]
                else old(icache)
      ensures ok ==> Open(e)
    {
      ok := true;
      if !icache[e].valid {
        NotSpoken(e);
        if dinode[icache[e].inum].typ == 0 {
          return false;
        }
        icache := icache[e := icache[e].(valid := true, d := dinode[icache[e].inum])];
        forall i | 0 <= i < |dinode| && old(Spoken(i)) ensures Spoken(i) {
          var x :| old(Speaks(x, i));
          assert Speaks(x, i);
        }
      } else {
        assert icache[e] == icache[e].(valid := true, d := f.inodes[icache[e].inum]);
      }
    }

    lemma NotSpoken(e: nat)
      requires CacheOk() && e < |icache| && icache[e].ref > 0 && !icache[e].valid
      ensures dinode[icache[e].inum] == f.inodes[icache[e].inum]
    {
      assert forall x :: Speaks(x, icache[e].inum) ==> x < e || e < x;
    }

    /** ialloc: the lowest free inode gets the type, no blocks and size 0, and an entry; None is a panic for want of a
        free inode or of a free entry. */
    method Ialloc(typ: nat) returns (r: Option<nat>)
      requires Valid() && typ != 0
      modifies this`dinode, this`icache, this`f
      ensures Valid()
      ensures r.Some? ==> r.value < |icache| && icache[r.value].ref > 0
      ensures r.None? ==>
                || (forall i :: 0 < i < |old(f).inodes| ==> old(f).inodes[i].typ != 0)
                || (forall x :: 0 <= x < |old(icache)| ==> old(icache)[x].ref > 0)
      ensures |f.inodes| == |old(f).inodes|
      ensures r.Some? ==>
                var i := icache[r.value].inum;
                0 < i < |f.inodes| && old(f).inodes[i].typ == 0 && f.inodes[i].typ == typ && Bytes(f, i) == []
      ensures r.Some? ==> SameElsewhere(old(f), f, icache[r.value].inum)
      ensures r.Some? ==> forall i :: 0 < i < icache[r.value].inum ==> old(f).inodes[i].typ != 0
    {
      var inum := 1;
      while inum < |dinode|
        invariant 1 <= inum && unchanged(this)
        invariant forall i :: 0 < i < inum && i < |dinode| ==> f.inodes[i].typ != 0
      {
        if dinode[inum].typ == 0 {
          TakeInode(inum, typ);
          r := Iget(inum);
          return;
        }
        inum := inum + 1;
      }
      r := None;
    }

    /** The free inode's record on disk becomes an empty one of the given type. */
    method TakeInode(inum: nat, typ: nat)
      requires Valid() && typ != 0 && inum < |dinode| && dinode[inum].typ == 0
      modifies this`dinode, this`f
      ensures Valid() && |dinode| == |old(dinode)| && SameElsewhere(old(f), f, inum)
      ensures f.inodes[inum] == Inode(typ, 0, 0, NoAddrs())
    {
      var d := Inode(typ, 0, 0, NoAddrs());
      ghost var g := Retype(f, inum, d);
      PutDisk(inum, d, g);
    }

    method PutDisk(inum: nat, d: Inode, ghost g: FS)
      requires CacheOk() && inum < |dinode| && f.inodes[inum].typ == 0 && g.inodes == f.inodes[inum := d]
      modifies this`dinode, this`f
      ensures CacheOk() && f == g && dinode == old(dinode)[inum := d]
    {
      dinode := dinode[inum := d];
      f := g;
      assert forall e :: !Speaks(e, inum);
    }

    /** iput: one reference less; the last one to an inode without links frees its blocks and the inode itself. A last
        reference to a linked inode requires, as iupdate's users ensure, that the disk record is current. */
    method Iput(e: nat)
      requires Valid() && e < |icache| && icache[e].ref > 0
      requires icache[e].ref == 1 && icache[e].valid && icache[e].d.nlink != 0 ==> dinode[icache[e].inum] == icache[e].d
      modifies this`bitmap, this`icache, this`dinode, this`f
      ensures Valid() && |icache| == |old(icache)| && icache[e].ref == old(icache)[e].ref - 1
      ensures forall x :: 0 <= x < |icache| && x != e ==> icache[x] == old(icache)[x]
      ensures var c := old(icache)[e];
              if c.ref == 1 && c.valid && c.d.nlink == 0
              then SameElsewhere(old(f), f, c.inum) && c.inum < |f.inodes| && f.inodes[c.inum].typ == 0
              else f == old(f) && dinode == old(dinode) && bitmap == old(bitmap)
    {
      if icache[e].ref == 1 && icache[e].valid && icache[e].d.nlink == 0 {
        Itrunc(e);
        FreeInode(e, old(f));
      } else {
        Drop(e);
      }
    }

    /** The end of iput's freeing path: type 0 on disk, the entry invalid and unreferenced. */
    method FreeInode(e: nat, ghost f0: FS)
      requires Valid() && Open(e) && icache[e].ref == 1 && icache[e].d.addrs == NoAddrs() && icache[e].d.size == 0
      requires Inv(f0) && SameElsewhere(f0, f, icache[e].inum)
      modifies this`icache, this`dinode, this`f
      ensures Valid() && |icache| == |old(icache)| && icache == old(icache)[e := icache[e]] && icache[e].ref == 0
      ensures old(icache)[e].inum < |f.inodes| && SameElsewhere(f0, f, old(icache)[e].inum)
      ensures f.inodes[old(icache)[e].inum].typ == 0
    {
      var inum, d := icache[e].inum, icache[e].d.(typ := 0);
      ghost var g := Retype(f, inum, d);
      icache := icache[e := Cached(0, inum, false, d)];
      dinode := dinode[inum := d];
      f := g;
      forall i | 0 <= i < |dinode| && i != inum && old(Spoken(i)) ensures Spoken(i) {
        var x :| old(Speaks(x, i));
        assert Speaks(x, i);
      }
    }

    method Drop(e: nat)
      requires Valid() && e < |icache| && icache[e].ref > 0
      requires icache[e].ref == 1 && icache[e].valid ==> dinode[icache[e].inum] == icache[e].d
      modifies this`icache
      ensures Valid() && icache == old(icache)[e := old(icache)[e].(ref := old(icache)[e].ref - 1)]
    {
      ghost var inum := icache[e].inum;
      icache := icache[e := icache[e].(ref := icache[e].ref - 1)];
      forall i | 0 <= i < |dinode| && old(Spoken(i)) && !(i == inum && icache[e].ref == 0) ensures Spoken(i) {
        var x :| old(Speaks(x, i));
        assert Speaks(x, i);
      }
    }
  }

  lemma AmongStep(a: Block, j: nat)
    requires j < NINDIRECT
    ensures forall b :: Among(a, j + 1, b) <==> Among(a, j, b) || (b != 0 && b == WordAt(a, j))
  {
    forall b ensures Among(a, j + 1, b) <==> Among(a, j, b) || (b != 0 && b == WordAt(a, j)) {
      if b != 0 && b == WordAt(a, j) {
        assert 0 <= j < j + 1 && WordAt(a, j) == b;
      }
    }
  }
}
