/** The inode layer as values (kernel/fs.c): which place owns each block, and the bytes each inode stands for. */
module FsSpec {

  const BSIZE: nat := 1024
  const NDIRECT: nat := 12
  const NINDIRECT: nat := 256
  const MAXFILE: nat := 268

  type byte = x: int | 0 <= x < 256

  type Block = b: seq<byte> | |b| == BSIZE witness seq(BSIZE, _ => 0)

  function Zero(): Block { seq(BSIZE, _ => 0) }

  // ---------------------------------------------------------------- words of an indirect block

  function WordAt(b: Block, j: nat): nat
    requires j < NINDIRECT
  {
    (b[4 * j] as int) + 256 * (b[4 * j + 1] as int) + 65536 * (b[4 * j + 2] as int) + 16777216 * (b[4 * j + 3] as int)
  }

  function SetWord(b: Block, j: nat, w: nat): (r: Block)
    requires j < NINDIRECT
  {
    b[4 * j := w % 256][4 * j + 1 := w / 256 % 256][4 * j + 2 := w / 65536 % 256][4 * j + 3 := w / 16777216 % 256]
  }

  lemma WordParts(w: nat)
    requires w < 0x1_0000_0000
    ensures w % 256 + 256 * (w / 256 % 256) + 65536 * (w / 65536 % 256) + 16777216 * (w / 16777216 % 256) == w
  {
  }

  lemma SetWordAt(b: Block, j: nat, w: nat, k: nat)
    requires j < NINDIRECT && k < NINDIRECT && w < 0x1_0000_0000
    ensures WordAt(SetWord(b, j, w), k) == if k == j then w else WordAt(b, k)
  {
    WordParts(w);
    var c := SetWord(b, j, w);
    if k != j {
      assert forall i :: 4 * k <= i < 4 * k + 4 ==> c[i] == b[i];
    }
  }

  lemma ZeroWord(j: nat)
    requires j < NINDIRECT
    ensures WordAt(Zero(), j) == 0
  {
  }

  // ---------------------------------------------------------------- places and owners

  /** A field that can hold a block number. */
  datatype Place = Direct(inum: nat, k: nat) | IndPtr(inum: nat) | Entry(inum: nat, j: nat)

  datatype Inode = Inode(typ: nat, nlink: nat, size: nat, addrs: seq<nat>)

  /** inodes are as their current readers see them; used is the set bits of the bitmap. */
  datatype FS = FS(nmeta: nat, size: nat, inodes: seq<Inode>, data: seq<Block>, used: set<nat>, owner: map<nat, Place>)

  predicate PlaceOk(f: FS, p: Place) {
    && p.inum < |f.inodes|
    && match p case Direct(_, k) => k < NDIRECT case IndPtr(_) => true case Entry(_, j) => j < NINDIRECT
  }

  /** The block number a place holds, 0 if none. */
  function At(f: FS, p: Place): nat
    requires Shape(f) && PlaceOk(f, p)
  {
    var a := f.inodes[p.inum].addrs;
    match p
    case Direct(_, k) => a[k]
    case IndPtr(_) => a[NDIRECT]
    case Entry(_, j) => if a[NDIRECT] == 0 || a[NDIRECT] >= |f.data| then 0 else WordAt(f.data[a[NDIRECT]], j)
  }

  ghost predicate Shape(f: FS) {
    && 0 < f.nmeta <= f.size == |f.data| < 0x1_0000_0000
    && (forall i :: 0 <= i < |f.inodes| ==> |f.inodes[i].addrs| == NDIRECT + 1)
  }

  /** A place in an allocated inode owns the block it names. */
  ghost predicate OkPlace(f: FS, p: Place)
    requires Shape(f)
  {
    PlaceOk(f, p) && f.inodes[p.inum].typ != 0 && At(f, p) != 0 ==> At(f, p) in f.owner && f.owner[At(f, p)] == p
  }

  /** A bit is set exactly for metadata and owned blocks; an owner is an allocated inode's place that names the
      block. */
  ghost predicate OkBlock(f: FS, b: nat)
    requires Shape(f)
  {
    && (b in f.used <==> b < f.nmeta || b in f.owner)
    && (b in f.owner ==>
          && f.nmeta <= b < f.size && PlaceOk(f, f.owner[b]) && f.inodes[f.owner[b].inum].typ != 0
          && At(f, f.owner[b]) == b)
  }

  /** Block number of the bn-th block of inode i, 0 if unmapped. */
  function BlockOf(f: FS, i: nat, bn: nat): nat
    requires Shape(f) && i < |f.inodes| && bn < MAXFILE
  {
    At(f, PlaceOf(i, bn))
  }

  function PlaceOf(i: nat, bn: nat): Place {
    if bn < NDIRECT then Direct(i, bn) else Entry(i, bn - NDIRECT)
  }

  /** Every block below the size is mapped. */
  ghost predicate OkSize(f: FS, i: nat)
    requires Shape(f)
  {
    i < |f.inodes| && f.inodes[i].typ != 0 ==>
      && f.inodes[i].size <= MAXFILE * BSIZE
      && forall bn :: 0 <= bn < MAXFILE && bn * BSIZE < f.inodes[i].size ==> BlockOf(f, i, bn) != 0
  }

  ghost predicate Inv(f: FS) {
    Shape(f) && (forall p :: OkPlace(f, p)) && (forall b :: OkBlock(f, b)) && (forall i :: OkSize(f, i))
  }

  /** No block is reachable from two places. */
  lemma NoSharing(f: FS, p: Place, q: Place)
    requires Inv(f) && PlaceOk(f, p) && PlaceOk(f, q) && f.inodes[p.inum].typ != 0 && f.inodes[q.inum].typ != 0
    requires At(f, p) == At(f, q) != 0
    ensures p == q
  {
    assert OkPlace(f, p) && OkPlace(f, q);
  }

  /** The bitmap marks exactly the metadata and what is reachable from allocated inodes. */
  lemma UsedIffReachable(f: FS, b: nat)
    requires Inv(f)
    ensures b in f.used <==>
              b < f.nmeta || exists p :: PlaceOk(f, p) && f.inodes[p.inum].typ != 0 && At(f, p) == b && b != 0
  {
    assert OkBlock(f, b);
    if b in f.owner {
      var p := f.owner[b];
    }
    forall p | PlaceOk(f, p) && f.inodes[p.inum].typ != 0 && At(f, p) == b && b != 0 ensures b in f.used {
      assert OkPlace(f, p);
    }
  }

  // ---------------------------------------------------------------- allocating a block

  function SetAddr(f: FS, i: nat, k: nat, b: nat): FS
    requires i < |f.inodes| && k < |f.inodes[i].addrs|
  {
    f.(inodes := f.inodes[i := f.inodes[i].(addrs := f.inodes[i].addrs[k := b])])
  }

  /** A zeroed free block b goes to place p. */
  function Give(f: FS, p: Place, b: nat): FS
    requires Shape(f) && PlaceOk(f, p) && b < |f.data|
    requires p.Entry? ==> f.inodes[p.inum].addrs[NDIRECT] < |f.data|
  {
    var g := f.(data := f.data[b := Zero()], used := f.used + {b}, owner := f.owner[b := p]);
    match p
    case Direct(i, k) => SetAddr(g, i, k, b)
    case IndPtr(i) => SetAddr(g, i, NDIRECT, b)
    case Entry(i, j) =>
      var ind := f.inodes[i].addrs[NDIRECT];
      g.(data := g.data[ind := SetWord(g.data[ind], j, b)])
  }

  ghost predicate CanGive(f: FS, p: Place, b: nat) {
    && Inv(f) && PlaceOk(f, p) && f.inodes[p.inum].typ != 0 && At(f, p) == 0
    && b < f.size && b !in f.used
    && (p.Entry? ==> f.inodes[p.inum].addrs[NDIRECT] != 0)
  }

  /** The indirect block of an allocated inode is a data block owned by its pointer. */
  lemma IndirectOwned(f: FS, i: nat)
    requires Inv(f) && i < |f.inodes| && f.inodes[i].typ != 0 && f.inodes[i].addrs[NDIRECT] != 0
    ensures var b := f.inodes[i].addrs[NDIRECT];
            f.nmeta <= b < f.size && b in f.owner && f.owner[b] == IndPtr(i) && b in f.used
  {
    assert OkPlace(f, IndPtr(i));
    assert OkBlock(f, f.inodes[i].addrs[NDIRECT]);
  }

  /** Giving b to p changes no other place of an allocated inode. */
  lemma GiveAt(f: FS, p: Place, b: nat, q: Place)
    requires CanGive(f, p, b) && PlaceOk(f, q) && f.inodes[q.inum].typ != 0
    requires p.Entry? ==> f.inodes[p.inum].addrs[NDIRECT] < |f.data|
    ensures var g := Give(f, p, b); Shape(g) && PlaceOk(g, q) && At(g, q) == if q == p then b else At(f, q)
  {
    var g := Give(f, p, b);
    assert OkBlock(f, b);
    if q.Entry? {
      if f.inodes[q.inum].addrs[NDIRECT] != 0 {
        IndirectOwned(f, q.inum);
      }
      if p.Entry? {
        IndirectOwned(f, p.inum);
        SetWordAt(f.data[f.inodes[p.inum].addrs[NDIRECT]], p.j, b, q.j);
      }
      ZeroWord(q.j);
    }
  }

  lemma GiveKeeps(f: FS, p: Place, b: nat)
    requires CanGive(f, p, b)
    ensures p.Entry? ==> f.inodes[p.inum].addrs[NDIRECT] < |f.data|
    ensures Inv(Give(f, p, b)) && At(Give(f, p, b), p) == b && f.nmeta <= b
  {
    if p.Entry? {
      IndirectOwned(f, p.inum);
    }
    var g := Give(f, p, b);
    GiveAt(f, p, b, p);
    assert OkBlock(f, b);
    forall q ensures OkPlace(g, q) {
      assert OkPlace(f, q);
      if PlaceOk(f, q) && f.inodes[q.inum].typ != 0 {
        GiveAt(f, p, b, q);
      }
    }
    forall c ensures OkBlock(g, c) {
      assert OkBlock(f, c);
      if c in f.owner {
        GiveAt(f, p, b, f.owner[c]);
      }
    }
    forall i ensures OkSize(g, i) {
      assert OkSize(f, i);
      GiveSize(f, p, b, i);
    }
  }

  lemma GiveSize(f: FS, p: Place, b: nat, i: nat)
    requires CanGive(f, p, b) && (p.Entry? ==> f.inodes[p.inum].addrs[NDIRECT] < |f.data|) && Shape(Give(f, p, b))
    requires OkSize(f, i)
    ensures OkSize(Give(f, p, b), i)
  {
    var g := Give(f, p, b);
    if i < |f.inodes| && f.inodes[i].typ != 0 {
      forall bn | 0 <= bn < MAXFILE && bn * BSIZE < g.inodes[i].size ensures BlockOf(g, i, bn) != 0 {
        assert BlockOf(f, i, bn) != 0;
        GiveAt(f, p, b, PlaceOf(i, bn));
        assert OkBlock(f, b);
      }
    }
  }

  // ---------------------------------------------------------------- bytes

  /** The byte at offset j of inode i, 0 where nothing is mapped. */
  function Raw(f: FS, i: nat, j: nat): byte
    requires Shape(f) && i < |f.inodes| && j < MAXFILE * BSIZE
  {
    var b := BlockOf(f, i, j / BSIZE);
    if b == 0 || b >= |f.data| then 0 else f.data[b][j % BSIZE]
  }

  /** What inode i stands for: a plain byte sequence. */
  ghost function Bytes(f: FS, i: nat): seq<byte>
    requires Inv(f) && i < |f.inodes| && f.inodes[i].typ != 0
  {
    assert OkSize(f, i);
    seq(f.inodes[i].size, j requires 0 <= j < f.inodes[i].size => Raw(f, i, j))
  }

  lemma BytesAt(f: FS, i: nat)
    requires Inv(f) && i < |f.inodes| && f.inodes[i].typ != 0
    ensures |Bytes(f, i)| == f.inodes[i].size <= MAXFILE * BSIZE
    ensures forall j :: 0 <= j < f.inodes[i].size ==> Bytes(f, i)[j] == Raw(f, i, j)
  {
    assert OkSize(f, i);
  }

  /** Block bn of a file with these addresses is disk block b: the first NDIRECT are named in the inode, the others by
      the little-endian 32-bit words of the block that the last address names. */
  ghost predicate Maps(addrs: seq<nat>, data: seq<Block>, bn: nat, b: nat) {
    && |addrs| == NDIRECT + 1 && bn < NDIRECT + NINDIRECT
    && if bn < NDIRECT then b == addrs[bn]
       else
         var ind, at := addrs[NDIRECT], 4 * (bn - NDIRECT);
         && 0 < ind < |data|
         && var w := data[ind][at..at + 4];
            b == (w[0] as int) + 0x100 * (w[1] as int) + 0x1_0000 * (w[2] as int) + 0x100_0000 * (w[3] as int)
  }

  /** Byte o of such a file is x. */
  ghost predicate ByteIs(addrs: seq<nat>, data: seq<Block>, o: nat, x: byte) {
    exists b :: 0 < b < |data| && Maps(addrs, data, o / BSIZE, b) && data[b][o % BSIZE] == x
  }

  lemma BlockMaps(f: FS, i: nat, bn: nat)
    requires Shape(f) && i < |f.inodes| && bn < MAXFILE && BlockOf(f, i, bn) != 0
    ensures Maps(f.inodes[i].addrs, f.data, bn, BlockOf(f, i, bn))
  {
  }

  /** The bytes an inode stands for are those of its blocks. */
  lemma BytesAreBlocks(f: FS, i: nat, o: nat)
    requires Inv(f) && i < |f.inodes| && f.inodes[i].typ != 0 && o < |Bytes(f, i)|
    ensures ByteIs(f.inodes[i].addrs, f.data, o, Bytes(f, i)[o])
  {
    assert OkSize(f, i);
    BytesAt(f, i);
    var b := BlockOf(f, i, o / BSIZE);
    assert OkPlace(f, PlaceOf(i, o / BSIZE)) && OkBlock(f, b);
    BlockMaps(f, i, o / BSIZE);
  }

  lemma SliceIsBlocks(f: FS, i: nat, off: nat, out: seq<byte>)
    requires Inv(f) && i < |f.inodes| && f.inodes[i].typ != 0
    requires off + |out| <= |Bytes(f, i)| && out == Bytes(f, i)[off..off + |out|]
    ensures forall k :: 0 <= k < |out| ==> ByteIs(f.inodes[i].addrs, f.data, off + k, out[k])
  {
    forall k | 0 <= k < |out| ensures ByteIs(f.inodes[i].addrs, f.data, off + k, out[k]) {
      BytesAreBlocks(f, i, off + k);
    }
  }

  /** Allocated inodes read the same byte for byte. */
  ghost predicate SameRaw(f: FS, g: FS, i: nat)
    requires Shape(f) && Shape(g) && i < |f.inodes| == |g.inodes|
  {
    forall j :: 0 <= j < MAXFILE * BSIZE ==> Raw(g, i, j) == Raw(f, i, j)
  }

  lemma SameRawSameBytes(f: FS, g: FS, i: nat)
    requires Inv(f) && Inv(g) && i < |f.inodes| == |g.inodes| && f.inodes[i].typ != 0 && g.inodes[i].typ != 0
    requires SameRaw(f, g, i) && g.inodes[i].size == f.inodes[i].size
    ensures Bytes(g, i) == Bytes(f, i)
  {
    BytesAt(f, i);
    BytesAt(g, i);
  }

  /** A new block reads as the zeros the hole read as. */
  lemma GiveRaw(f: FS, p: Place, b: nat, i: nat)
    requires CanGive(f, p, b) && i < |f.inodes| && f.inodes[i].typ != 0
    ensures p.Entry? ==> f.inodes[p.inum].addrs[NDIRECT] < |f.data|
    ensures Inv(Give(f, p, b)) && SameRaw(f, Give(f, p, b), i)
  {
    GiveKeeps(f, p, b);
    var g := Give(f, p, b);
    assert OkBlock(f, b);
    forall j | 0 <= j < MAXFILE * BSIZE ensures Raw(g, i, j) == Raw(f, i, j) {
      var q := PlaceOf(i, j / BSIZE);
      GiveAt(f, p, b, q);
      assert OkPlace(f, q);
      if p.Entry? {
        IndirectOwned(f, p.inum);
      }
    }
  }

  /** Part of block b is overwritten. */
  function Store(f: FS, b: nat, off: nat, src: seq<byte>): FS
    requires b < |f.data| && off + |src| <= BSIZE
  {
    f.(data := f.data[b := Overwrite(f.data[b], off, src)])
  }

  function Overwrite(d: Block, off: nat, src: seq<byte>): (r: Block)
    requires off + |src| <= BSIZE
    ensures forall x :: 0 <= x < BSIZE ==> r[x] == if off <= x < off + |src| then src[x - off] else d[x]
  {
    d[..off] + src + d[off + |src|..]
  }

  /** A data block is no inode's indirect block, so writing it moves no pointer. */
  lemma StoreAt(f: FS, i: nat, bn: nat, off: nat, src: seq<byte>, q: Place)
    requires Inv(f) && i < |f.inodes| && f.inodes[i].typ != 0 && bn < MAXFILE && BlockOf(f, i, bn) != 0
    requires off + |src| <= BSIZE
    requires PlaceOk(f, q) && f.inodes[q.inum].typ != 0
    ensures BlockOf(f, i, bn) < |f.data|
    ensures var g := Store(f, BlockOf(f, i, bn), off, src); Shape(g) && At(g, q) == At(f, q)
  {
    var b := BlockOf(f, i, bn);
    assert OkPlace(f, PlaceOf(i, bn)) && OkBlock(f, b);
    if q.Entry? && f.inodes[q.inum].addrs[NDIRECT] != 0 {
      IndirectOwned(f, q.inum);
    }
  }

  lemma StoreKeeps(f: FS, i: nat, bn: nat, off: nat, src: seq<byte>)
    requires Inv(f) && i < |f.inodes| && f.inodes[i].typ != 0 && bn < MAXFILE && BlockOf(f, i, bn) != 0
    requires off + |src| <= BSIZE
    ensures BlockOf(f, i, bn) < |f.data| && Inv(Store(f, BlockOf(f, i, bn), off, src))
  {
    StoreAt(f, i, bn, off, src, PlaceOf(i, bn));
    var g := Store(f, BlockOf(f, i, bn), off, src);
    forall q ensures OkPlace(g, q) {
      assert OkPlace(f, q);
      if PlaceOk(f, q) && f.inodes[q.inum].typ != 0 {
        StoreAt(f, i, bn, off, src, q);
      }
    }
    forall c ensures OkBlock(g, c) {
      assert OkBlock(f, c);
      if c in f.owner {
        StoreAt(f, i, bn, off, src, f.owner[c]);
      }
    }
    forall x: nat ensures OkSize(g, x) {
      assert OkSize(f, x);
      if x < |f.inodes| && f.inodes[x].typ != 0 {
        forall m | 0 <= m < MAXFILE && m * BSIZE < g.inodes[x].size ensures BlockOf(g, x, m) != 0 {
          assert BlockOf(f, x, m) != 0;
          StoreAt(f, i, bn, off, src, PlaceOf(x, m));
        }
      }
    }
  }

  /** Exactly the addressed bytes of inode i change; other inodes read as before. */
  lemma StoreRaw(f: FS, i: nat, bn: nat, off: nat, src: seq<byte>, x: nat, j: nat)
    requires Inv(f) && i < |f.inodes| && f.inodes[i].typ != 0 && bn < MAXFILE && BlockOf(f, i, bn) != 0
    requires off + |src| <= BSIZE
    requires x < |f.inodes| && f.inodes[x].typ != 0 && j < MAXFILE * BSIZE
    ensures BlockOf(f, i, bn) < |f.data|
    ensures var g := Store(f, BlockOf(f, i, bn), off, src);
            && Shape(g)
            && Raw(g, x, j) ==
                 if x == i && bn * BSIZE + off <= j < bn * BSIZE + off + |src|
                 then src[j - bn * BSIZE - off]
                 else Raw(f, x, j)
  {
    var q := PlaceOf(x, j / BSIZE);
    StoreAt(f, i, bn, off, src, q);
    assert OkPlace(f, q) && OkPlace(f, PlaceOf(i, bn));
    var b := BlockOf(f, i, bn);
    if At(f, q) == b {
      assert q == PlaceOf(i, bn);
      assert x == i && j / BSIZE == bn;
    } else {
      assert !(x == i && j / BSIZE == bn);
    }
  }

  // ---------------------------------------------------------------- truncation, sizes, types

  /** The invariant while inode x is being changed: its size may run past its blocks. */
  ghost predicate InvBut(f: FS, x: nat) {
    Shape(f) && (forall p :: OkPlace(f, p)) && (forall b :: OkBlock(f, b)) && (forall i :: i != x ==> OkSize(f, i))
  }

  /** g differs from f only below inode x, as other allocated inodes see it. */
  ghost predicate OthersKept(f: FS, g: FS, x: nat)
    requires Shape(f) && Shape(g)
  {
    && |g.inodes| == |f.inodes| && g.nmeta == f.nmeta && g.size == f.size
    && (forall i :: 0 <= i < |f.inodes| && i != x ==> g.inodes[i] == f.inodes[i])
    && (forall i :: 0 <= i < |f.inodes| && i != x && f.inodes[i].typ != 0 ==> SameRaw(f, g, i))
  }

  /** bfree of a direct block, and its address cleared. */
  function DropDirect(f: FS, i: nat, k: nat): FS
    requires Shape(f) && i < |f.inodes| && k < NDIRECT
  {
    var a := f.inodes[i].addrs[k];
    SetAddr(f.(used := f.used - {a}, owner := f.owner - {a}), i, k, 0)
  }

  lemma DropDirectKeeps(f: FS, i: nat, k: nat)
    requires InvBut(f, i) && i < |f.inodes| && k < NDIRECT && f.inodes[i].typ != 0 && f.inodes[i].addrs[k] != 0
    ensures f.inodes[i].addrs[k] in f.used
    ensures InvBut(DropDirect(f, i, k), i) && OthersKept(f, DropDirect(f, i, k), i)
  {
    var a, g := f.inodes[i].addrs[k], DropDirect(f, i, k);
    assert OkPlace(f, Direct(i, k)) && OkBlock(f, a);
    forall q ensures OkPlace(g, q) {
      assert OkPlace(f, q);
    }
    forall c ensures OkBlock(g, c) {
      assert OkBlock(f, c);
    }
    forall x: nat | x != i ensures OkSize(g, x) {
      assert OkSize(f, x);
      assert forall bn :: 0 <= bn < MAXFILE && x < |f.inodes| ==> BlockOf(g, x, bn) == BlockOf(f, x, bn);
    }
  }

  predicate BelowIndirect(p: Place, i: nat) { p.inum == i && !p.Direct? }

  /** bfree of every entry of the indirect block and of the block itself, and its address cleared. */
  function DropIndirect(f: FS, i: nat): FS
    requires Shape(f) && i < |f.inodes|
  {
    var used := set b | b in f.used && !(b in f.owner && BelowIndirect(f.owner[b], i));
    var owner := map b | b in f.owner && !BelowIndirect(f.owner[b], i) :: f.owner[b];
    SetAddr(f.(used := used, owner := owner), i, NDIRECT, 0)
  }

  lemma DropIndirectKeeps(f: FS, i: nat)
    requires InvBut(f, i) && i < |f.inodes| && f.inodes[i].typ != 0
    ensures InvBut(DropIndirect(f, i), i) && OthersKept(f, DropIndirect(f, i), i)
  {
    var g := DropIndirect(f, i);
    forall q ensures OkPlace(g, q) {
      assert OkPlace(f, q);
    }
    forall c ensures OkBlock(g, c) {
      assert OkBlock(f, c);
    }
    forall x: nat | x != i ensures OkSize(g, x) {
      assert OkSize(f, x);
      assert forall bn :: 0 <= bn < MAXFILE && x < |f.inodes| ==> BlockOf(g, x, bn) == BlockOf(f, x, bn);
    }
  }

  function Resize(f: FS, i: nat, n: nat): FS
    requires i < |f.inodes|
  {
    f.(inodes := f.inodes[i := f.inodes[i].(size := n)])
  }

  lemma ResizeKeeps(f: FS, i: nat, n: nat)
    requires InvBut(f, i) && i < |f.inodes| && n <= MAXFILE * BSIZE
    requires forall bn :: 0 <= bn < MAXFILE && bn * BSIZE < n ==> BlockOf(f, i, bn) != 0
    ensures Inv(Resize(f, i, n)) && OthersKept(f, Resize(f, i, n), i) && SameRaw(f, Resize(f, i, n), i)
  {
    var g := Resize(f, i, n);
    forall q ensures OkPlace(g, q) && (PlaceOk(f, q) ==> At(g, q) == At(f, q)) {
      assert OkPlace(f, q);
    }
    forall c ensures OkBlock(g, c) {
      assert OkBlock(f, c);
    }
    forall x: nat ensures OkSize(g, x) {
      if x != i {
        assert OkSize(f, x);
      }
      assert forall bn :: 0 <= bn < MAXFILE && x < |f.inodes| ==> BlockOf(g, x, bn) == BlockOf(f, x, bn);
    }
  }

  function NoAddrs(): seq<nat> { seq(NDIRECT + 1, _ => 0) }

  /** Inode i becomes a record without blocks. */
  function Replace(f: FS, i: nat, d: Inode): FS
    requires i < |f.inodes|
  {
    f.(inodes := f.inodes[i := d])
  }

  /** A free inode can be taken, and an inode without blocks freed. */
  lemma ReplaceKeeps(f: FS, i: nat, d: Inode)
    requires Inv(f) && i < |f.inodes| && d.addrs == NoAddrs() && d.size == 0
    requires f.inodes[i].typ == 0 || f.inodes[i].addrs == NoAddrs()
    ensures Inv(Replace(f, i, d)) && OthersKept(f, Replace(f, i, d), i)
  {
    var g := Replace(f, i, d);
    forall q ensures OkPlace(g, q) {
      assert OkPlace(f, q);
    }
    forall c ensures OkBlock(g, c) {
      assert OkBlock(f, c);
    }
    forall x: nat ensures OkSize(g, x) {
      assert OkSize(f, x);
      assert x != i ==> forall bn :: 0 <= bn < MAXFILE && x < |f.inodes| ==> BlockOf(g, x, bn) == BlockOf(f, x, bn);
    }
  }

  // ---------------------------------------------------------------- growing and writing

  /** Inode i may have gained blocks; nobody can tell by reading. */
  ghost predicate Grown(f: FS, g: FS, i: nat)
    requires Shape(f) && Shape(g) && i < |f.inodes|
  {
    && |g.inodes| == |f.inodes| && g.nmeta == f.nmeta && g.size == f.size
    && (forall x :: 0 <= x < |f.inodes| && x != i ==> g.inodes[x] == f.inodes[x])
    && g.inodes[i] == f.inodes[i].(addrs := g.inodes[i].addrs)
    && (forall x :: 0 <= x < |f.inodes| && f.inodes[x].typ != 0 ==> SameRaw(f, g, x))
    && (forall m :: 0 <= m < MAXFILE && BlockOf(f, i, m) != 0 ==> BlockOf(g, i, m) != 0)
  }

  lemma GiveGrows(f: FS, p: Place, b: nat)
    requires CanGive(f, p, b)
    ensures p.Entry? ==> f.inodes[p.inum].addrs[NDIRECT] < |f.data|
    ensures Inv(Give(f, p, b)) && At(Give(f, p, b), p) == b != 0 && Grown(f, Give(f, p, b), p.inum)
  {
    GiveKeeps(f, p, b);
    var g := Give(f, p, b);
    forall x | 0 <= x < |f.inodes| && f.inodes[x].typ != 0 ensures SameRaw(f, g, x) {
      GiveRaw(f, p, b, x);
    }
    forall m | 0 <= m < MAXFILE && BlockOf(f, p.inum, m) != 0 ensures BlockOf(g, p.inum, m) != 0 {
      GiveAt(f, p, b, PlaceOf(p.inum, m));
    }
  }

  /** Allocation seen from the code: what changes where, and that it is sound. */
  lemma Allocate(f: FS, p: Place, b: nat) returns (g: FS)
    requires CanGive(f, p, b)
    ensures Inv(g) && Grown(f, g, p.inum) && PlaceOk(g, p) && At(g, p) == b != 0
    ensures g.used == f.used + {b} && g.size == f.size && g.nmeta == f.nmeta
    ensures p.Direct? ==>
              && g.data == f.data[b := Zero()]
              && g.inodes == f.inodes[p.inum := f.inodes[p.inum].(addrs := f.inodes[p.inum].addrs[p.k := b])]
    ensures p.IndPtr? ==>
              && g.data == f.data[b := Zero()]
              && g.inodes == f.inodes[p.inum := f.inodes[p.inum].(addrs := f.inodes[p.inum].addrs[NDIRECT := b])]
    ensures p.Entry? ==>
              var ind := f.inodes[p.inum].addrs[NDIRECT];
              var d := f.data[b := Zero()];
              ind < |f.data| && g.inodes == f.inodes && g.data == d[ind := SetWord(d[ind], p.j, b)]
  {
    GiveGrows(f, p, b);
    g := Give(f, p, b);
  }

  lemma GrownTrans(f: FS, g: FS, h: FS, i: nat)
    requires Shape(f) && Shape(g) && Shape(h) && i < |f.inodes| && Grown(f, g, i) && i < |g.inodes| && Grown(g, h, i)
    ensures Grown(f, h, i)
  {
    forall x | 0 <= x < |f.inodes| && f.inodes[x].typ != 0 ensures SameRaw(f, h, x) {
      assert SameRaw(f, g, x) && SameRaw(g, h, x);
    }
  }

  /** Where writei stands after tot bytes of src, written from offset off of inode i. */
  ghost predicate Written(f0: FS, f: FS, i: nat, off: nat, src: seq<byte>, tot: nat)
    requires Shape(f0) && Shape(f) && i < |f0.inodes|
  {
    && |f.inodes| == |f0.inodes| && f.nmeta == f0.nmeta && f.size == f0.size && tot <= |src|
    && (forall x :: 0 <= x < |f0.inodes| && x != i ==> f.inodes[x] == f0.inodes[x])
    && f.inodes[i] == f0.inodes[i].(addrs := f.inodes[i].addrs)
    && (forall x :: 0 <= x < |f0.inodes| && x != i && f0.inodes[x].typ != 0 ==> SameRaw(f0, f, x))
    && (forall j ::
          0 <= j < MAXFILE * BSIZE ==> Raw(f, i, j) == if off <= j < off + tot then src[j - off] else Raw(f0, i, j))
    && (forall bn :: 0 <= bn < MAXFILE && bn * BSIZE < off + tot ==> BlockOf(f, i, bn) != 0)
  }

  lemma WrittenGrown(f0: FS, f: FS, g: FS, i: nat, off: nat, src: seq<byte>, tot: nat)
    requires Inv(f0) && Inv(f) && Inv(g) && i < |f0.inodes| && f0.inodes[i].typ != 0
    requires Written(f0, f, i, off, src, tot) && Grown(f, g, i)
    ensures Written(f0, g, i, off, src, tot)
  {
    forall x | 0 <= x < |f0.inodes| && x != i && f0.inodes[x].typ != 0 ensures SameRaw(f0, g, x) {
      assert SameRaw(f0, f, x) && SameRaw(f, g, x);
    }
    assert SameRaw(f, g, i);
  }

  /** One chunk: the part of one block between the current offset and its end, or the end of the data. */
  lemma WrittenStore(f0: FS, f: FS, i: nat, off: nat, src: seq<byte>, tot: nat, m: nat)
    requires Inv(f0) && Inv(f) && i < |f0.inodes| && f0.inodes[i].typ != 0 && Written(f0, f, i, off, src, tot)
    requires tot + m <= |src| && off + |src| <= MAXFILE * BSIZE && 0 < m <= BSIZE - (off + tot) % BSIZE
    requires BlockOf(f, i, (off + tot) / BSIZE) != 0
    ensures var b := BlockOf(f, i, (off + tot) / BSIZE); b < |f.data|
    ensures var g := Store(f, BlockOf(f, i, (off + tot) / BSIZE), (off + tot) % BSIZE, src[tot..tot + m]);
            Inv(g) && Written(f0, g, i, off, src, tot + m)
  {
    var bn, o, chunk := (off + tot) / BSIZE, (off + tot) % BSIZE, src[tot..tot + m];
    StoreKeeps(f, i, bn, o, chunk);
    var g := Store(f, BlockOf(f, i, bn), o, chunk);
    forall x | 0 <= x < |f0.inodes| && x != i && f0.inodes[x].typ != 0 ensures SameRaw(f0, g, x) {
      assert SameRaw(f0, f, x);
      forall j | 0 <= j < MAXFILE * BSIZE ensures Raw(g, x, j) == Raw(f0, x, j) {
        StoreRaw(f, i, bn, o, chunk, x, j);
      }
    }
    forall j | 0 <= j < MAXFILE * BSIZE
      ensures Raw(g, i, j) == if off <= j < off + tot + m then src[j - off] else Raw(f0, i, j)
    {
      StoreRaw(f, i, bn, o, chunk, i, j);
    }
    forall n | 0 <= n < MAXFILE && n * BSIZE < off + tot + m ensures BlockOf(g, i, n) != 0 {
      StoreAt(f, i, bn, o, chunk, PlaceOf(i, n));
      assert BlockOf(g, i, n) == BlockOf(f, i, n);
      assert n * BSIZE < off + tot || n == bn;
    }
  }

  /** src written over old from off on, extending it as needed. */
  function Splice(old_: seq<byte>, off: nat, src: seq<byte>): seq<byte>
    requires off <= |old_|
  {
    old_[..off] + src + if off + |src| < |old_| then old_[off + |src|..] else []
  }

  /** After c bytes and the size update, the inode's bytes are the splice, as far as the new size reaches. */
  lemma WrittenIsSplice(f0: FS, f: FS, i: nat, off: nat, src: seq<byte>, c: nat, n: nat)
    requires Inv(f0) && Inv(f) && i < |f0.inodes| && f0.inodes[i].typ != 0 && off <= f0.inodes[i].size
    requires Written(f0, f, i, off, src, c) && off + |src| <= MAXFILE * BSIZE
    requires f0.inodes[i].size <= n && (n == f0.inodes[i].size || n <= off + c)
    ensures var g := Resize(f, i, n);
            && Inv(g) && |Bytes(f0, i)| == f0.inodes[i].size && c <= |src| && n <= |Splice(Bytes(f0, i), off, src[..c])|
            && Bytes(g, i) == Splice(Bytes(f0, i), off, src[..c])[..n]
            && forall x :: 0 <= x < |f0.inodes| && x != i && f0.inodes[x].typ != 0 ==> Bytes(g, x) == Bytes(f0, x)
  {
    assert OkSize(f0, i) && OkSize(f, i);
    ResizeKeeps(f, i, n);
    var g := Resize(f, i, n);
    BytesAt(f0, i);
    BytesAt(g, i);
    assert SameRaw(f, g, i);
    SpliceAt(Bytes(f0, i), off, src[..c]);
    assert Bytes(g, i) == Splice(Bytes(f0, i), off, src[..c])[..n];
    forall x | 0 <= x < |f0.inodes| && x != i && f0.inodes[x].typ != 0 ensures Bytes(g, x) == Bytes(f0, x) {
      assert SameRaw(f0, f, x) && SameRaw(f, g, x);
      SameRawSameBytes(f0, g, x);
    }
  }

  lemma SpliceAt(s: seq<byte>, off: nat, src: seq<byte>)
    requires off <= |s|
    ensures |Splice(s, off, src)| == if off + |src| < |s| then |s| else off + |src|
    ensures forall j ::
              0 <= j < |Splice(s, off, src)| ==>
                Splice(s, off, src)[j] == if off <= j < off + |src| then src[j - off] else s[j]
  {
  }

  lemma InBlock(pos: nat, x: nat)
    requires x < BSIZE - pos % BSIZE
    ensures (pos + x) / BSIZE == pos / BSIZE && (pos + x) % BSIZE == pos % BSIZE + x
  {
  }

  lemma BlockBelow(pos: nat, size: nat)
    requires pos < size <= MAXFILE * BSIZE
    ensures pos / BSIZE < MAXFILE && (pos / BSIZE) * BSIZE < size
  {
  }

  /** A chunk below the size lies in a mapped block and reads as the matching slice. */
  lemma ReadChunk(f: FS, i: nat, pos: nat, m: nat, all: seq<byte>)
    requires Inv(f) && i < |f.inodes| && f.inodes[i].typ != 0 && all == Bytes(f, i)
    requires 0 < m <= BSIZE - pos % BSIZE && pos + m <= f.inodes[i].size
    ensures pos / BSIZE < MAXFILE && |all| == f.inodes[i].size
    ensures 0 < BlockOf(f, i, pos / BSIZE) < |f.data|
    ensures f.data[BlockOf(f, i, pos / BSIZE)][pos % BSIZE..pos % BSIZE + m] == all[pos..pos + m]
  {
    BytesAt(f, i);
    BlockBelow(pos, f.inodes[i].size);
    var bn, o := pos / BSIZE, pos % BSIZE;
    assert OkSize(f, i);
    var b := BlockOf(f, i, bn);
    assert b != 0;
    assert OkPlace(f, PlaceOf(i, bn)) && OkBlock(f, b);
    var chunk, want := f.data[b][o..o + m], all[pos..pos + m];
    forall x | 0 <= x < m ensures chunk[x] == want[x] {
      InBlock(pos, x);
      assert want[x] == Raw(f, i, pos + x);
    }
  }

  /** Nothing has been written yet. */
  lemma WrittenStart(f: FS, i: nat, off: nat, src: seq<byte>)
    requires Inv(f) && i < |f.inodes| && f.inodes[i].typ != 0 && off <= f.inodes[i].size
    ensures Written(f, f, i, off, src, 0)
  {
    assert OkSize(f, i);
  }

  /** A chunk write seen from the code. */
  lemma StoreChunk(f0: FS, f: FS, i: nat, off: nat, src: seq<byte>, tot: nat, m: nat, b: nat) returns (g: FS)
    requires Inv(f0) && Inv(f) && i < |f0.inodes| && f0.inodes[i].typ != 0 && Written(f0, f, i, off, src, tot)
    requires tot + m <= |src| && off + |src| <= MAXFILE * BSIZE && 0 < m <= BSIZE - (off + tot) % BSIZE
    requires (off + tot) / BSIZE < MAXFILE && b == BlockOf(f, i, (off + tot) / BSIZE) != 0
    ensures Inv(g) && Written(f0, g, i, off, src, tot + m) && b < |f.data|
    ensures g == f.(data := f.data[b := Overwrite(f.data[b], (off + tot) % BSIZE, src[tot..tot + m])])
  {
    WrittenStore(f0, f, i, off, src, tot, m);
    g := Store(f, b, (off + tot) % BSIZE, src[tot..tot + m]);
  }

  /** The size update at the end of writei. */
  lemma FinishWrite(f0: FS, f: FS, i: nat, off: nat, src: seq<byte>, c: nat, n: nat) returns (g: FS)
    requires Inv(f0) && Inv(f) && i < |f0.inodes| && f0.inodes[i].typ != 0 && off <= f0.inodes[i].size
    requires Written(f0, f, i, off, src, c) && off + |src| <= MAXFILE * BSIZE
    requires f0.inodes[i].size <= n && (n == f0.inodes[i].size || n <= off + c)
    ensures g == f.(inodes := f.inodes[i := f.inodes[i].(size := n)]) && Inv(g)
    ensures |Bytes(f0, i)| == f0.inodes[i].size && c <= |src| && n <= |Splice(Bytes(f0, i), off, src[..c])|
    ensures Bytes(g, i) == Splice(Bytes(f0, i), off, src[..c])[..n]
    ensures SameElsewhere(f0, g, i)
  {
    WrittenIsSplice(f0, f, i, off, src, c, n);
    g := Resize(f, i, n);
  }

  /** Every other inode is unchanged, and so are its bytes. */
  ghost predicate SameElsewhere(f: FS, g: FS, i: nat)
    requires Inv(f) && Inv(g)
  {
    && |g.inodes| == |f.inodes|
    && forall x :: 0 <= x < |f.inodes| && x != i ==>
         g.inodes[x] == f.inodes[x] && (f.inodes[x].typ != 0 ==> Bytes(g, x) == Bytes(f, x))
  }

  lemma KeptElsewhere(f: FS, g: FS, i: nat)
    requires Inv(f) && Inv(g) && OthersKept(f, g, i)
    ensures SameElsewhere(f, g, i)
  {
    forall x | 0 <= x < |f.inodes| && x != i && f.inodes[x].typ != 0 ensures Bytes(g, x) == Bytes(f, x) {
      assert SameRaw(f, g, x);
      SameRawSameBytes(f, g, x);
    }
  }

  lemma OthersKeptTrans(f: FS, g: FS, h: FS, i: nat)
    requires Shape(f) && Shape(g) && Shape(h) && OthersKept(f, g, i) && OthersKept(g, h, i)
    ensures OthersKept(f, h, i)
  {
    forall x | 0 <= x < |f.inodes| && x != i && f.inodes[x].typ != 0 ensures SameRaw(f, h, x) {
      assert SameRaw(f, g, x) && SameRaw(g, h, x);
    }
  }

  /** Freeing a direct block seen from the code. */
  lemma FreeDirect(f: FS, i: nat, k: nat) returns (g: FS)
    requires InvBut(f, i) && i < |f.inodes| && k < NDIRECT && f.inodes[i].typ != 0 && f.inodes[i].addrs[k] != 0
    ensures InvBut(g, i) && OthersKept(f, g, i) && g.data == f.data
    ensures var a := f.inodes[i].addrs[k]; a in f.used && a < f.size && g.used == f.used - {a}
    ensures g.inodes == f.inodes[i := f.inodes[i].(addrs := f.inodes[i].addrs[k := 0])]
  {
    DropDirectKeeps(f, i, k);
    assert OkBlock(f, f.inodes[i].addrs[k]) && OkPlace(f, Direct(i, k));
    g := DropDirect(f, i, k);
  }

  /** b is among the first n entries of indirect block d. */
  ghost predicate Among(d: Block, n: nat, b: nat)
    requires n <= NINDIRECT
  {
    b != 0 && exists j :: 0 <= j < n && WordAt(d, j) == b
  }

  /** Entries of an indirect block name used blocks, each once, and never the indirect block itself. */
  lemma EntriesDistinct(f: FS, i: nat)
    requires InvBut(f, i) && i < |f.inodes| && f.inodes[i].typ != 0 && f.inodes[i].addrs[NDIRECT] != 0
    ensures var ind := f.inodes[i].addrs[NDIRECT];
            && ind < |f.data| && ind in f.used
            && (forall j :: 0 <= j < NINDIRECT && WordAt(f.data[ind], j) != 0 ==>
                  WordAt(f.data[ind], j) in f.used && WordAt(f.data[ind], j) < f.size && WordAt(f.data[ind], j) != ind)
            && (forall j, k ::
                  0 <= j < k < NINDIRECT && WordAt(f.data[ind], j) != 0 ==>
                    WordAt(f.data[ind], j) != WordAt(f.data[ind], k))
  {
    var ind := f.inodes[i].addrs[NDIRECT];
    assert OkPlace(f, IndPtr(i)) && OkBlock(f, ind);
    forall j | 0 <= j < NINDIRECT && WordAt(f.data[ind], j) != 0
      ensures var b := WordAt(f.data[ind], j);
              b in f.used && b < f.size && b != ind && b in f.owner && f.owner[b] == Entry(i, j)
    {
      assert OkPlace(f, Entry(i, j)) && OkBlock(f, WordAt(f.data[ind], j));
    }
  }

  /** Freeing everything below the indirect pointer seen from the code. */
  lemma FreeIndirect(f: FS, i: nat) returns (g: FS)
    requires InvBut(f, i) && i < |f.inodes| && f.inodes[i].typ != 0 && f.inodes[i].addrs[NDIRECT] != 0
    ensures InvBut(g, i) && OthersKept(f, g, i) && g.data == f.data && f.inodes[i].addrs[NDIRECT] < |f.data|
    ensures forall b ::
              b in g.used <==>
                && b in f.used && b != f.inodes[i].addrs[NDIRECT]
                && !Among(f.data[f.inodes[i].addrs[NDIRECT]], NINDIRECT, b)
    ensures g.inodes == f.inodes[i := f.inodes[i].(addrs := f.inodes[i].addrs[NDIRECT := 0])]
  {
    DropIndirectKeeps(f, i);
    EntriesDistinct(f, i);
    var ind := f.inodes[i].addrs[NDIRECT];
    g := DropIndirect(f, i);
    forall b ensures b in g.used <==> b in f.used && b != ind && !Among(f.data[ind], NINDIRECT, b) {
      assert OkBlock(f, b);
      if Among(f.data[ind], NINDIRECT, b) {
        var j :| 0 <= j < NINDIRECT && WordAt(f.data[ind], j) == b;
        assert OkPlace(f, Entry(i, j));
      }
      assert OkPlace(f, IndPtr(i));
      if b in f.owner && f.owner[b].inum == i && f.owner[b].Entry? {
        assert WordAt(f.data[ind], f.owner[b].j) == b;
      }
    }
  }

  /** The end of itrunc: an inode without blocks has size 0. */
  lemma ResizeToZero(f: FS, i: nat) returns (g: FS)
    requires InvBut(f, i) && i < |f.inodes|
    ensures g == f.(inodes := f.inodes[i := f.inodes[i].(size := 0)]) && Inv(g) && OthersKept(f, g, i)
  {
    ResizeKeeps(f, i, 0);
    g := Resize(f, i, 0);
  }

  lemma Retype(f: FS, i: nat, d: Inode) returns (g: FS)
    requires Inv(f) && i < |f.inodes| && d.addrs == NoAddrs() && d.size == 0
    requires f.inodes[i].typ == 0 || f.inodes[i].addrs == NoAddrs()
    ensures g == f.(inodes := f.inodes[i := d]) && Inv(g) && SameElsewhere(f, g, i)
  {
    ReplaceKeeps(f, i, d);
    g := Replace(f, i, d);
    KeptElsewhere(f, g, i);
  }
}
