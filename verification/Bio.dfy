/** The buffer cache (kernel/bio.c) over an atomic-block disk. Each method is one critical section of the source,
    so every interleaving of processes is a sequence of these calls. */
module Bio {
  import opened Prelude
  import opened List

  const WORDS := 256          // BSIZE / sizeof(uint)
  const U32: nat := 0x1_0000_0000

  type Block = b: seq<nat> | |b| == WORDS witness seq(WORDS, _ => 0)

  datatype Key = Key(dev: nat, blockno: nat)

  type Disk = map<Key, Block>

  type Writes = seq<(Key, Block)>

  /** The disk after a sequence of block writes. */
  function Apply(d: Disk, ws: Writes): Disk {
    if ws == [] then d else Apply(d, ws[..|ws| - 1])[ws[|ws| - 1].0 := ws[|ws| - 1].1]
  }

  datatype Buf = Buf(key: Key, valid: bool, refcnt: nat, holder: Option<nat>, data: Block)

  /** A uint after one increment. */
  function Inc(x: nat): nat {
    if x + 1 == U32 then 0 else x + 1
  }

  /** A uint after one decrement. */
  function Dec(x: nat): nat {
    if x == 0 then U32 - 1 else x - 1
  }

  /** The count a buffer should carry: references, plus a pin, less an unpin that had no pin. */
  function Count(refs: nat, pinned: bool, leaked: bool): int {
    var c := refs + (if pinned then 1 else 0) - (if leaked then 1 else 0);
    if c < 0 then U32 + c else c
  }

  class Bcache {
    const n: nat                    // NBUF; n itself is the index of the list head
    var buf: seq<Buf>
    var next: Ptrs<int>
    var prev: Ptrs<int>
    var disk: Disk
    ghost var order: seq<int>       // buffers from most to least recently used
    ghost var refs: seq<nat>        // bget calls not yet undone by brelse, per buffer
    ghost var pinned: set<int>
    ghost var dirty: set<int>       // modified, not yet written or pinned
    ghost var leaked: set<int>      // unpinned without having been pinned
    ghost var contents: Disk        // what readers of the cache must see
    ghost const start: Disk         // the disk at binit
    ghost var writes: Writes        // every block write since

    /** The circular list holds every buffer. */
    ghost predicate Listed()
      reads `next, `prev, `order
    {
      && |order| == n
      && (forall j :: 0 <= j < n ==> 0 <= order[j] < n)
      && (forall i :: 0 <= i < n ==> i in order)
      && Ring(next, prev, n, order)
    }

    ghost predicate InRange(s: set<int>) { forall i :: i in s ==> 0 <= i < n }

    ghost predicate Shape()
      reads this
    {
      |buf| == n && |refs| == n && Listed() && InRange(pinned) && InRange(dirty) && InRange(leaked)
    }

    /** What is known of a buffer on its own. */
    static ghost predicate OkAlone(b: Buf, refs: nat, pin: bool, dirt: bool, leak: bool, contents: Disk) {
      && refs < U32 - 2 && b.refcnt == Count(refs, pin, leak)
      && (pin ==> b.valid && !dirt)
      && (dirt ==> b.valid && refs > 0)
      && (b.valid ==> b.key in contents && b.data == contents[b.key])
    }

    static ghost predicate AllOk(buf: seq<Buf>, refs: seq<nat>, pinned: set<int>, dirty: set<int>, leaked: set<int>,
                                 contents: Disk) {
      && |refs| == |buf|
      && (forall i :: 0 <= i < |buf| ==> OkAlone(buf[i], refs[i], i in pinned, i in dirty, i in leaked, contents))
    }

    /** A change to one buffer concerns no other. */
    static lemma OneChanged(buf: seq<Buf>, refs: seq<nat>, pinned: set<int>, dirty: set<int>, leaked: set<int>,
                            contents: Disk, i: nat, b: Buf, r: nat, pinned1: set<int>, dirty1: set<int>,
                            leaked1: set<int>)
      requires AllOk(buf, refs, pinned, dirty, leaked, contents) && i < |buf|
      requires forall j :: j != i ==> (j in pinned1 <==> j in pinned) && (j in dirty1 <==> j in dirty)
      requires forall j :: j != i ==> (j in leaked1 <==> j in leaked)
      requires OkAlone(b, r, i in pinned1, i in dirty1, i in leaked1, contents)
      ensures AllOk(buf[i := b], refs[i := r], pinned1, dirty1, leaked1, contents)
    {
    }

    ghost predicate OkBuf(i: nat)
      requires |buf| == n && |refs| == n && i < n
      reads `buf, `refs, `pinned, `dirty, `leaked, `contents
    {
      OkAlone(buf[i], refs[i], i in pinned, i in dirty, i in leaked, contents)
    }

    /** Neither in use nor filled. */
    ghost predicate Fresh(i: nat)
      requires |buf| == n && |refs| == n && i < n
      reads this
    {
      !buf[i].valid && refs[i] == 0 && i !in pinned && i !in leaked
    }

    /** Buffer i holds a newer version of block k than the disk does. */
    static ghost predicate AheadIn(buf: seq<Buf>, pinned: set<int>, dirty: set<int>, i: nat, k: Key) {
      i < |buf| && buf[i].key == k && buf[i].valid && (i in pinned || i in dirty)
    }

    ghost predicate Ahead(i: nat, k: Key)
      reads `buf, `pinned, `dirty
    {
      AheadIn(buf, pinned, dirty, i, k)
    }

    /** Of several buffers with one key, only the most recently used can be in use or filled. */
    ghost predicate Unique()
      requires Shape()
      reads this
    {
      forall p, q :: 0 <= p < q < n && buf[order[p]].key == buf[order[q]].key ==> Fresh(order[q])
    }

    /** The disk is what the writes have made of it. */
    ghost predicate Journal()
      reads `disk, `writes
    {
      disk == Apply(start, writes)
    }

    /** Where readers see another block than the disk has, a buffer holds it. */
    static ghost predicate CurrentIn(buf: seq<Buf>, pinned: set<int>, dirty: set<int>, contents: Disk, disk: Disk) {
      && contents.Keys == disk.Keys
      && (forall k :: k in disk && contents[k] != disk[k] ==> exists i :: AheadIn(buf, pinned, dirty, i, k))
    }

    ghost predicate Current()
      reads `buf, `pinned, `dirty, `contents, `disk
    {
      CurrentIn(buf, pinned, dirty, contents, disk)
    }

    ghost predicate Valid()
      reads this
    {
      && Shape() && Unique()
      && AllOk(buf, refs, pinned, dirty, leaked, contents)
      && Current() && Journal()
    }

    /** Buffers that were ahead of the disk, but for block k, still are: what readers see is still held somewhere. */
    static lemma StillCurrent(buf0: seq<Buf>, pinned0: set<int>, dirty0: set<int>, contents0: Disk, disk0: Disk,
                              buf: seq<Buf>, pinned: set<int>, dirty: set<int>, contents: Disk, disk: Disk, k: Key)
      requires CurrentIn(buf0, pinned0, dirty0, contents0, disk0) && contents.Keys == disk.Keys == disk0.Keys
      requires forall x :: x in disk && x != k ==> contents[x] == contents0[x] && disk[x] == disk0[x]
      requires k in disk && contents[k] != disk[k] ==> exists i :: AheadIn(buf, pinned, dirty, i, k)
      requires |buf| == |buf0|
      requires forall i :: 0 <= i < |buf0| && buf0[i].key != k && buf0[i].valid && (i in pinned0 || i in dirty0) ==>
                 buf[i].key == buf0[i].key && buf[i].valid && (i in pinned || i in dirty)
      ensures CurrentIn(buf, pinned, dirty, contents, disk)
    {
      forall x | x in disk && contents[x] != disk[x] ensures exists i :: AheadIn(buf, pinned, dirty, i, x) {
        if x != k {
          var i :| AheadIn(buf0, pinned0, dirty0, i, x);
          assert AheadIn(buf, pinned, dirty, i, x);
        }
      }
    }

    /** The same when neither contents nor disk have changed. */
    static lemma KeptCurrent(buf0: seq<Buf>, pinned0: set<int>, dirty0: set<int>, buf: seq<Buf>, pinned: set<int>,
                             dirty: set<int>, contents: Disk, disk: Disk)
      requires CurrentIn(buf0, pinned0, dirty0, contents, disk) && |buf| == |buf0|
      requires forall i :: 0 <= i < |buf0| && buf0[i].valid && (i in pinned0 || i in dirty0) ==>
                 buf[i].key == buf0[i].key && buf[i].valid && (i in pinned || i in dirty)
      ensures CurrentIn(buf, pinned, dirty, contents, disk)
    {
      forall x | x in disk && contents[x] != disk[x] ensures exists i :: AheadIn(buf, pinned, dirty, i, x) {
        var i :| AheadIn(buf0, pinned0, dirty0, i, x);
        assert AheadIn(buf, pinned, dirty, i, x);
      }
    }

    /** No buffer that lost a reference is referenced now. */
    ghost predicate Sound()
      requires |refs| == n
      reads this
    {
      forall i :: i in leaked && 0 <= i < n ==> refs[i] == 0 && i !in pinned
    }

    lemma OrderDistinct()
      requires Shape()
      ensures forall p, q :: 0 <= p < q < n ==> order[p] != order[q]
    {
      var c := [n] + order;
      forall p, q | 0 <= p < q < n ensures order[p] != order[q] {
        assert order[p] == c[p + 1] && order[q] == c[q + 1];
      }
    }

    lemma SameKeyOneFresh(i: nat, j: nat)
      requires Shape() && Unique() && i < n && j < n && i != j && buf[i].key == buf[j].key
      ensures Fresh(i) || Fresh(j)
    {
      assert i in order && j in order;
      var p :| 0 <= p < |order| && order[p] == i;
      var q :| 0 <= q < |order| && order[q] == j;
    }

    /** An unreferenced, unpinned, filled buffer equals the disk: recycling it loses nothing. */
    lemma IdleEqualsDisk(i: nat)
      requires Valid() && i < n && refs[i] == 0 && i !in pinned && buf[i].valid
      ensures buf[i].key in disk && buf[i].data == disk[buf[i].key] && contents[buf[i].key] == disk[buf[i].key]
    {
      var k := buf[i].key;
      assert OkBuf(i);
      if contents[k] != disk[k] {
        var j: nat :| AheadIn(buf, pinned, dirty, j, k);
        assert OkBuf(j);
        SameKeyOneFresh(i, j);
      }
    }

    /** While the buffer in use for a block is unfilled, the disk is current. */
    lemma UnfilledMeansDisk(i: nat)
      requires Valid() && i < n && refs[i] > 0 && !buf[i].valid && buf[i].key in disk
      ensures contents[buf[i].key] == disk[buf[i].key]
      ensures forall j :: 0 <= j < n && j != i && buf[j].key == buf[i].key ==> Fresh(j)
    {
      forall j | 0 <= j < n && j != i && buf[j].key == buf[i].key ensures Fresh(j) {
        SameKeyOneFresh(i, j);
      }
    }

    /** binit: every buffer starts empty, with key (0, 0). */
    constructor (n: nat, disk: Disk)
      requires n > 0
      ensures Valid() && this.n == n && this.disk == disk && contents == disk && writes == []
      ensures leaked == {} && pinned == {} && dirty == {}
      ensures forall i :: 0 <= i < n ==> refs[i] == 0 && buf[i].holder == None
      ensures |order| == n && forall j :: 0 <= j < n ==> order[j] == n - 1 - j
    {
      var zero: Block := seq(WORDS, _ => 0);
      this.n := n;
      this.disk, start := disk, disk;
      buf := seq(n, _ => Buf(Key(0, 0), false, 0, None, zero));
      refs := seq(n, _ => 0);
      pinned, dirty, leaked, contents, writes := {}, {}, {}, disk, [];
      var nx: Ptrs<int>, pv: Ptrs<int> := map[n := n], map[n := n];
      ghost var ord: seq<int> := [];
      var b := 0;
      while b < n
        invariant b <= n && |ord| == b && Ring(nx, pv, n, ord)
        invariant forall j :: 0 <= j < b ==> ord[j] == b - 1 - j
      {
        RingDomain(nx, pv, n, ord);
        ghost var nx0, pv0 := nx, pv;
        nx := nx[b := nx[n]];
        pv := pv[b := n];
        assert Link(nx0, pv0, Loop(n, ord), 0);
        pv := pv[nx[n] := b];
        nx := nx[n := b];
        PushRing(nx0, pv0, nx, pv, n, b, ord);
        ord := [b] + ord;
        b := b + 1;
      }
      next, prev, order := nx, pv, ord;
      new;
      forall i | 0 <= i < n ensures i in order {
        assert order[n - 1 - i] == i;
      }
    }

    /** The first scan of bget: the most recently used buffer with key k, or the list head. */
    method Find(k: Key) returns (b: int, ghost j: nat)
      requires Shape()
      ensures b == n || (0 <= b < n && buf[b].key == k && j < n && order[j] == b)
      ensures b == n ==> forall i :: 0 <= i < n ==> buf[i].key != k
      ensures b != n ==> forall q :: 0 <= q < j ==> buf[order[q]].key != k
    {
      j := 0;
      ghost var d := Loop(n, order);
      assert Link(next, prev, d, 0);
      RingDomain(next, prev, n, order);
      b := next[n];
      while b != n
        invariant j <= n && b == d[j + 1]
        invariant forall q :: 0 <= q < j ==> buf[order[q]].key != k
        decreases n - j
      {
        assert j < n && b == order[j];
        if buf[b].key == k {
          return;
        }
        assert Link(next, prev, d, j + 1);
        assert b in next;
        b := next[b];
        j := j + 1;
      }
      forall i | 0 <= i < n ensures buf[i].key != k {
        assert i in order;
      }
    }

    /** Buffer b, at position j from the most recently used on, has count 0 and every less recently used one has not. */
    ghost predicate LastIdle(b: int, j: nat)
      requires |buf| == n && |order| == n && forall q :: 0 <= q < n ==> 0 <= order[q] < n
      reads this
    {
      j < n && order[j] == b && buf[b].refcnt == 0 && forall q :: j < q < n ==> buf[order[q]].refcnt != 0
    }

    /** The second scan of bget: the least recently used buffer with no references, or the list head. */
    method FindIdle() returns (b: int, ghost j: nat)
      requires Shape()
      ensures b == n || LastIdle(b, j)
      ensures b == n ==> forall i :: 0 <= i < n ==> buf[i].refcnt != 0
    {
      j := n;
      ghost var d := Loop(n, order);
      assert Link(next, prev, d, n);
      RingDomain(next, prev, n, order);
      b := prev[n];
      while b != n
        invariant 0 <= j <= n && b == d[j]
        invariant forall q :: j <= q < n ==> buf[order[q]].refcnt != 0
        decreases j
      {
        assert j > 0 && b == order[j - 1];
        if buf[b].refcnt == 0 {
          j := j - 1;
          return;
        }
        assert Link(next, prev, d, j - 1);
        assert b in prev;
        b := prev[b];
        j := j - 1;
      }
      forall i | 0 <= i < n ensures buf[i].refcnt != 0 {
        assert i in order;
      }
    }

    /** Every reference is accounted for, and there is room to count one more. */
    ghost predicate Counted()
      reads this
    {
      Valid() && Sound() && forall i :: 0 <= i < n ==> refs[i] < U32 - 3
    }

    /** Some buffer has block k. */
    predicate Cached(k: Key)
      reads this
    {
      exists i :: 0 <= i < |buf| && buf[i].key == k
    }

    /** bget up to the release of bcache.lock: a hit counts one more reference, a miss recycles the least recently used
        buffer of count 0, at position j. The cache stays valid if every reference was accounted for. */
    method Bget(k: Key) returns (r: Option<nat>, ghost j: nat)
      requires Shape()
      modifies this`buf, this`refs
      ensures Shape() && (old(Counted()) ==> Valid())
      ensures r.None? <==> !old(Cached(k)) && forall i :: 0 <= i < n ==> old(buf)[i].refcnt != 0
      ensures r.None? ==> buf == old(buf) && refs == old(refs)
      ensures r.Some? ==> Got(old(buf), old(refs), k, r.value)
      ensures r.Some? && old(Cached(k)) ==> j < n && order[j] == r.value && old(buf)[r.value].key == k
      ensures r.Some? && old(Cached(k)) ==> forall q :: 0 <= q < j ==> old(buf)[order[q]].key != k
      ensures r.Some? && !old(Cached(k)) ==> old(LastIdle(r.value, j))
    {
      var b;
      b, j := Find(k);
      if b != n {
        Hit(b, j);
        return Some(b), j;
      }
      b, j := FindIdle();
      if b != n {
        Recycle(b, k);
        return Some(b), j;
      }
      r := None;
    }

    method Hit(b: nat, ghost pos: nat)
      requires Shape() && b < n
      requires pos < n && order[pos] == b && forall q :: 0 <= q < pos ==> buf[order[q]].key != buf[b].key
      modifies this`buf, this`refs
      ensures Shape() && (old(Counted()) ==> Valid()) && Got(old(buf), old(refs), old(buf)[b].key, b)
    {
      buf := buf[b := buf[b].(refcnt := Inc(buf[b].refcnt))];
      refs := refs[b := refs[b] + 1];
      if old(Counted()) {
        OrderDistinct();
        OneChanged(old(buf), old(refs), old(pinned), old(dirty), old(leaked), contents, b, buf[b], refs[b], pinned,
                   dirty, leaked);
        KeptCurrent(old(buf), old(pinned), old(dirty), buf, pinned, dirty, contents, disk);
      }
    }

    method Recycle(b: nat, k: Key)
      requires Shape() && b < n && buf[b].refcnt == 0
      requires forall i :: 0 <= i < n ==> buf[i].key != k
      modifies this`buf, this`refs
      ensures Shape() && (old(Counted()) ==> Valid()) && Got(old(buf), old(refs), k, b)
    {
      buf := buf[b := buf[b].(key := k, valid := false, refcnt := 1)];
      refs := refs[b := refs[b] + 1];
      if old(Counted()) {
        assert old(OkBuf(b));
        OrderDistinct();
        OneChanged(old(buf), old(refs), old(pinned), old(dirty), old(leaked), contents, b, buf[b], refs[b], pinned,
                   dirty, leaked);
        KeptCurrent(old(buf), old(pinned), old(dirty), buf, pinned, dirty, contents, disk);
      }
    }

    /** What a successful bget changed. */
    ghost predicate Got(buf0: seq<Buf>, refs0: seq<nat>, k: Key, i: nat)
      reads this
    {
      && |buf0| == n == |buf| && |refs0| == n == |refs| && i < n
      && (forall j :: 0 <= j < n && j != i ==> buf[j] == buf0[j] && refs[j] == refs0[j])
      && refs[i] == refs0[i] + 1 && buf[i].key == k && buf[i].holder == buf0[i].holder && buf[i].data == buf0[i].data
      && (buf0[i].key == k ==> buf[i].valid == buf0[i].valid && buf[i].refcnt == Inc(buf0[i].refcnt))
      && (buf0[i].key != k ==> !buf[i].valid && buf0[i].refcnt == 0 && buf[i].refcnt == 1)
    }

    /** acquiresleep on a free buffer lock. */
    method Lock(i: nat, me: nat)
      requires Valid() && i < n && buf[i].holder.None?
      modifies this`buf
      ensures Valid() && buf == old(buf)[i := old(buf)[i].(holder := Some(me))]
    {
      buf := buf[i := buf[i].(holder := Some(me))];
      OneChanged(old(buf), old(refs), old(pinned), old(dirty), old(leaked), contents, i, buf[i], refs[i], pinned, dirty,
                 leaked);
      KeptCurrent(old(buf), old(pinned), old(dirty), buf, pinned, dirty, contents, disk);
    }

    /** releasesleep. */
    method Unlock(i: nat)
      requires Valid() && i < n
      modifies this`buf
      ensures Valid() && buf == old(buf)[i := old(buf)[i].(holder := None)]
    {
      buf := buf[i := buf[i].(holder := None)];
      OneChanged(old(buf), old(refs), old(pinned), old(dirty), old(leaked), contents, i, buf[i], refs[i], pinned, dirty,
                 leaked);
      KeptCurrent(old(buf), old(pinned), old(dirty), buf, pinned, dirty, contents, disk);
    }

    /** The read in bread: an unfilled buffer gets the disk's copy, which is what readers must see. */
    method Fill(i: nat)
      requires Valid() && i < n && refs[i] > 0 && buf[i].key in disk
      modifies this`buf
      ensures Valid() && buf == old(buf)[i := old(buf)[i].(valid := true, data := contents[old(buf)[i].key])]
    {
      if !buf[i].valid {
        UnfilledMeansDisk(i);
        buf := buf[i := buf[i].(valid := true, data := disk[buf[i].key])];
        OneChanged(old(buf), old(refs), old(pinned), old(dirty), old(leaked), contents, i, buf[i], refs[i], pinned,
                   dirty, leaked);
        KeptCurrent(old(buf), old(pinned), old(dirty), buf, pinned, dirty, contents, disk);
      } else {
        assert OkBuf(i);
        assert buf[i] == buf[i].(valid := true, data := contents[buf[i].key]);
      }
    }

    /** bread: the caller gets a locked buffer with the block's current contents; nobody else sees a change. */
    method Bread(k: Key, me: nat) returns (r: Option<nat>)
      requires Counted() && k in disk
      requires forall i :: 0 <= i < n && buf[i].key == k ==> buf[i].holder.None?
      requires forall i :: 0 <= i < n && buf[i].refcnt == 0 ==> buf[i].holder.None?
      modifies this`buf, this`refs
      ensures Valid()
      ensures r.None? <==> forall i :: 0 <= i < n ==> old(buf)[i].key != k && old(buf)[i].refcnt != 0
      ensures r.None? ==> buf == old(buf) && refs == old(refs)
      ensures r.Some? ==> r.value < n && refs == old(refs)[r.value := old(refs)[r.value] + 1]
      ensures r.Some? ==> forall j :: 0 <= j < n && j != r.value ==> buf[j] == old(buf)[j]
      ensures r.Some? ==> old(buf)[r.value].key == k || (!old(Cached(k)) && old(buf)[r.value].refcnt == 0)
      ensures r.Some? ==> var b := buf[r.value]; b.key == k && b.valid && b.holder == Some(me) && b.data == contents[k]
    {
      ghost var j;
      r, j := Bget(k);
      if r.Some? {
        var i := r.value;
        Lock(i, me);
        Fill(i);
        assert refs == old(refs)[i := old(refs)[i] + 1];
      }
    }

    /** No other buffer is filled with the block of a filled buffer. */
    lemma OnlyCopy(i: nat)
      requires Valid() && i < n && buf[i].valid
      ensures forall j :: 0 <= j < n && j != i && buf[j].key == buf[i].key ==> !buf[j].valid
    {
      forall j | 0 <= j < n && j != i && buf[j].key == buf[i].key ensures !buf[j].valid {
        SameKeyOneFresh(i, j);
      }
    }

    /** New contents of block k concern only the buffer that is filled with it, which is then ahead of the disk. */
    static lemma WriteKeeps(buf: seq<Buf>, refs: seq<nat>, pinned: set<int>, dirty: set<int>, leaked: set<int>,
                            contents: Disk, disk: Disk, i: nat, data: Block, dirty1: set<int>)
      requires AllOk(buf, refs, pinned, dirty, leaked, contents) && CurrentIn(buf, pinned, dirty, contents, disk)
      requires i < |buf| && buf[i].valid && refs[i] > 0 && dirty1 == if i in pinned then dirty else dirty + {i}
      requires forall j :: 0 <= j < |buf| && j != i && buf[j].key == buf[i].key ==> !buf[j].valid
      ensures var b := buf[i := buf[i].(data := data)]; var c := contents[buf[i].key := data];
              AllOk(b, refs, pinned, dirty1, leaked, c) && CurrentIn(b, pinned, dirty1, c, disk)
    {
      var b, k := buf[i := buf[i].(data := data)], buf[i].key;
      assert OkAlone(buf[i], refs[i], i in pinned, i in dirty, i in leaked, contents);
      assert AheadIn(b, pinned, dirty1, i, k);
      StillCurrent(buf, pinned, dirty, contents, disk, b, pinned, dirty1, contents[k := data], disk, k);
    }

    /** The holder changes the buffer's data: from now on that is the block's content. */
    method Write(i: nat, data: Block, me: nat)
      requires Valid() && i < n && buf[i].valid && refs[i] > 0 && buf[i].holder == Some(me)
      modifies this`buf, this`contents, this`dirty
      ensures Valid() && buf == old(buf)[i := old(buf)[i].(data := data)]
      ensures contents == old(contents)[old(buf)[i].key := data]
      ensures dirty == if i in pinned then old(dirty) else old(dirty) + {i}
    {
      OnlyCopy(i);
      ghost var dirty1 := if i in pinned then dirty else dirty + {i};
      WriteKeeps(buf, refs, pinned, dirty, leaked, contents, disk, i, data, dirty1);
      contents := contents[buf[i].key := data];
      buf := buf[i := buf[i].(data := data)];
      dirty := dirty1;
    }

    /** bwrite: the disk catches up with the buffer; readers notice nothing. */
    method Bwrite(i: nat, me: nat)
      requires Valid() && i < n && buf[i].valid && buf[i].holder == Some(me)
      modifies this`disk, this`dirty, this`writes
      ensures Valid() && disk == old(disk)[buf[i].key := buf[i].data] && dirty == old(dirty) - {i}
      ensures writes == old(writes) + [(buf[i].key, buf[i].data)]
    {
      assert OkBuf(i);
      disk := disk[buf[i].key := buf[i].data];
      writes := writes + [(buf[i].key, buf[i].data)];
      assert writes[..|writes| - 1] == old(writes);
      dirty := dirty - {i};
      OneChanged(old(buf), old(refs), old(pinned), old(dirty), old(leaked), contents, i, buf[i], refs[i], pinned, dirty,
                 leaked);
      StillCurrent(old(buf), old(pinned), old(dirty), old(contents), old(disk), buf, pinned, dirty, contents, disk,
                   buf[i].key);
    }

    /** bpin: one more reference, kept until bunpin. */
    method Bpin(i: nat)
      requires Valid() && i < n && buf[i].valid && refs[i] > 0 && i !in pinned
      modifies this`buf, this`pinned, this`dirty
      ensures Valid() && pinned == old(pinned) + {i} && dirty == old(dirty) - {i}
      ensures buf == old(buf)[i := old(buf)[i].(refcnt := Inc(old(buf)[i].refcnt))]
    {
      assert OkBuf(i);
      buf := buf[i := buf[i].(refcnt := Inc(buf[i].refcnt))];
      pinned := pinned + {i};
      dirty := dirty - {i};
      OneChanged(old(buf), old(refs), old(pinned), old(dirty), old(leaked), contents, i, buf[i], refs[i], pinned, dirty,
                 leaked);
      KeptCurrent(old(buf), old(pinned), old(dirty), buf, pinned, dirty, contents, disk);
    }

    /** bunpin, called on a buffer that was just written. Without a pin to undo, one reference is lost. */
    method Bunpin(i: nat)
      requires Valid() && i < n && buf[i].key in disk && buf[i].data == disk[buf[i].key] && buf[i].valid && i !in dirty
      requires i in leaked ==> i in pinned
      modifies this`buf, this`pinned, this`leaked
      ensures Valid()
      ensures pinned == old(pinned) - {i} && leaked == if i in old(pinned) then old(leaked) else old(leaked) + {i}
      ensures buf == old(buf)[i := old(buf)[i].(refcnt := Dec(old(buf)[i].refcnt))]
    {
      assert OkBuf(i);
      ghost var k := buf[i].key;
      buf := buf[i := buf[i].(refcnt := Dec(buf[i].refcnt))];
      leaked := if i in pinned then leaked else leaked + {i};
      pinned := pinned - {i};
      OneChanged(old(buf), old(refs), old(pinned), old(dirty), old(leaked), contents, i, buf[i], refs[i], pinned, dirty,
                 leaked);
      StillCurrent(old(buf), old(pinned), old(dirty), old(contents), old(disk), buf, pinned, dirty, contents, disk,
                   buf[i].key);
    }

    /** Buffer i is now the most recently used one, and the others are in the order they were in. */
    static ghost predicate Fronted(was: seq<int>, now: seq<int>, i: int) {
      exists p :: 0 <= p < |was| && was[p] == i && now == [i] + (was[..p] + was[p + 1..])
    }

    method MoveToFront(i: nat)
      requires Valid() && i < n && forall j :: 0 <= j < n && j != i && buf[j].key == buf[i].key ==> Fresh(j)
      modifies this`next, this`prev, this`order
      ensures Valid() && Fronted(old(order), order, i)
    {
      OrderDistinct();
      assert i in order;
      ghost var p: nat :| p < |order| && order[p] == i;
      Relink(i, p);
      order := [i] + (order[..p] + order[p + 1..]);
      Reordered(old(order), p);
      KeptCurrent(old(buf), old(pinned), old(dirty), buf, pinned, dirty, contents, disk);
    }

    /** The pointer moves of brelse: unlink buffer i, relink it after the head. */
    method Relink(i: int, ghost p: nat)
      requires Ring(next, prev, n, order) && p < |order| && order[p] == i
      modifies this`next, this`prev
      ensures Ring(next, prev, n, [i] + (order[..p] + order[p + 1..]))
    {
      ghost var ord, rest := order, order[..p] + order[p + 1..];
      RingDomain(next, prev, n, ord);
      RemoveNeighbours(next, prev, n, ord, p);
      RemovedMembers(n, ord, p, rest);
      assert i !in rest;
      ghost var nx, pv := next, prev;
      prev := prev[next[i] := prev[i]];
      next := next[prev[i] := next[i]];
      RemoveRing(nx, pv, next, prev, n, ord, p);
      assert i != n by { assert ([n] + ord)[p + 1] != ([n] + ord)[0]; }
      RingDomain(next, prev, n, rest);
      assert Link(next, prev, Loop(n, rest), 0);
      nx, pv := next, prev;
      next := next[i := next[n]];
      prev := prev[i := n];
      prev := prev[next[n] := i];
      next := next[n := i];
      PushRing(nx, pv, next, prev, n, i, rest);
    }

    /** Moving one buffer to the front keeps every buffer listed ... */
    lemma ReorderedAll(order0: seq<int>, p: nat)
      requires p < |order0| == n && order == [order0[p]] + (order0[..p] + order0[p + 1..])
      requires forall j :: 0 <= j < n ==> 0 <= order0[j] < n
      requires forall i :: 0 <= i < n ==> i in order0
      ensures |order| == n && order[0] == order0[p]
      ensures forall j :: 1 <= j < n ==> order[j] == if j <= p then order0[j - 1] else order0[j]
      ensures forall j :: 0 <= j < n ==> 0 <= order[j] < n
      ensures forall i :: 0 <= i < n ==> i in order
    {
      forall i | 0 <= i < n ensures i in order {
        assert i in order0;
        var j :| 0 <= j < |order0| && order0[j] == i;
        assert i == order[if j == p then 0 else if j < p then j + 1 else j];
      }
    }

    /** ... and, when its key is its own, keeps uniqueness. */
    lemma Reordered(order0: seq<int>, p: nat)
      requires |buf| == |refs| == n && p < |order0| == n && order == [order0[p]] + (order0[..p] + order0[p + 1..])
      requires forall j :: 0 <= j < n ==> 0 <= order0[j] < n
      requires forall i :: 0 <= i < n ==> i in order0
      requires forall p, q :: 0 <= p < q < n && buf[order0[p]].key == buf[order0[q]].key ==> Fresh(order0[q])
      requires forall p, q :: 0 <= p < q < n ==> order0[p] != order0[q]
      requires forall j :: 0 <= j < n && j != order0[p] && buf[j].key == buf[order0[p]].key ==> Fresh(j)
      ensures |order| == n
      ensures forall j :: 0 <= j < n ==> 0 <= order[j] < n
      ensures forall i :: 0 <= i < n ==> i in order
      ensures forall p, q :: 0 <= p < q < n && buf[order[p]].key == buf[order[q]].key ==> Fresh(order[q])
    {
      ReorderedAll(order0, p);
      forall a, b | 0 <= a < b < n && buf[order[a]].key == buf[order[b]].key ensures Fresh(order[b]) {
        var a0, b0 := if a <= p then a - 1 else a, if b <= p then b - 1 else b;
        assert order[b] == order0[b0] && b0 != p;
        if a > 0 {
          assert order[a] == order0[a0] && a0 < b0;
        }
      }
    }

    /** One reference less. */
    method Uncount(i: nat)
      requires Valid() && i < n && refs[i] > 0 && i !in dirty
      modifies this`buf, this`refs
      ensures Valid() && refs == old(refs)[i := old(refs)[i] - 1]
      ensures buf == old(buf)[i := old(buf)[i].(refcnt := Dec(old(buf)[i].refcnt))]
      ensures forall j :: 0 <= j < n && j != i && buf[j].key == buf[i].key ==> Fresh(j)
    {
      assert OkBuf(i);
      forall j | 0 <= j < n && j != i && buf[j].key == buf[i].key ensures Fresh(j) {
        SameKeyOneFresh(i, j);
      }
      buf := buf[i := buf[i].(refcnt := Dec(buf[i].refcnt))];
      refs := refs[i := refs[i] - 1];
      OneChanged(old(buf), old(refs), old(pinned), old(dirty), old(leaked), contents, i, buf[i], refs[i], pinned, dirty,
                 leaked);
      KeptCurrent(old(buf), old(pinned), old(dirty), buf, pinned, dirty, contents, disk);
      forall j | 0 <= j < n && j != i && buf[j].key == buf[i].key ensures Fresh(j) {
        assert old(Fresh(j));
      }
    }

    /** brelse after its releasesleep: one reference less; a buffer nobody uses becomes the most recently used. */
    method Unref(i: nat)
      requires Valid() && i < n && refs[i] > 0 && i !in dirty
      modifies this`buf, this`refs, this`next, this`prev, this`order
      ensures Valid() && refs == old(refs)[i := old(refs)[i] - 1]
      ensures buf == old(buf)[i := old(buf)[i].(refcnt := Dec(old(buf)[i].refcnt))]
      ensures if buf[i].refcnt == 0 then Fronted(old(order), order, i) else order == old(order)
    {
      Uncount(i);
      if buf[i].refcnt == 0 {
        MoveToFront(i);
      }
    }

    /** brelse: unlock and drop the reference. */
    method Brelse(i: nat, me: nat)
      requires Valid() && i < n && refs[i] > 0 && i !in dirty && buf[i].holder == Some(me)
      modifies this`buf, this`refs, this`next, this`prev, this`order
      ensures Valid() && refs == old(refs)[i := old(refs)[i] - 1]
      ensures buf == old(buf)[i := old(buf)[i].(holder := None, refcnt := Dec(old(buf)[i].refcnt))]
      ensures if buf[i].refcnt == 0 then Fronted(old(order), order, i) else order == old(order)
    {
      Unlock(i);
      Unref(i);
    }

    /** A buffer released to count 0 is the last that bget recycles: it takes it for an uncached block exactly when
        every other buffer has a positive count. */
    method ReleasedLast(i: nat, me: nat, k: Key) returns (r: Option<nat>)
      requires Valid() && i < n && refs[i] > 0 && i !in dirty && buf[i].holder == Some(me) && !Cached(k)
      requires Dec(buf[i].refcnt) == 0
      modifies this`buf, this`refs, this`next, this`prev, this`order
      ensures r.Some? && (r.value == i <==> forall j :: 0 <= j < n && j != i ==> old(buf)[j].refcnt != 0)
    {
      Brelse(i, me);
      ghost var now, at := buf, 0;
      OrderDistinct();
      r, at := Bget(k);
      FirstIsLast(order, now, i, r.value, at);
    }

    /** Of the buffers of count 0, the most recently used is the last one found only if there is no other. */
    static lemma FirstIsLast(order: seq<int>, buf: seq<Buf>, i: int, b: int, at: nat)
      requires |order| == |buf| && at < |order| && order[at] == b
      requires forall q :: 0 <= q < |order| ==> 0 <= order[q] < |buf|
      requires forall j :: 0 <= j < |buf| ==> j in order
      requires forall p, q :: 0 <= p < q < |order| ==> order[p] != order[q]
      requires order[0] == i && buf[b].refcnt == 0 && forall q :: at < q < |order| ==> buf[order[q]].refcnt != 0
      ensures b == i <==> forall j :: 0 <= j < |buf| && j != i ==> buf[j].refcnt != 0
    {
      if b == i {
        forall j | 0 <= j < |buf| && j != i ensures buf[j].refcnt != 0 {
          assert j in order;
        }
      }
    }

    /** At most one buffer that is filled or in use holds a block, whatever its number. */
    lemma OneBufferPerBlock(i: nat, j: nat)
      requires Valid() && i < n && j < n && buf[i].key == buf[j].key
      requires buf[i].valid || refs[i] > 0
      requires buf[j].valid || refs[j] > 0
      ensures i == j
    {
      if i != j {
        SameKeyOneFresh(i, j);
      }
    }

    /** A buffer of count 0 is in use, referenced or pinned, exactly when it has lost a reference: those are the buffers
        that bget must not recycle and does. */
    lemma ZeroCountInUseIff(i: nat)
      requires Valid() && i < n && buf[i].refcnt == 0
      ensures refs[i] > 0 || i in pinned <==> i in leaked
      ensures i in leaked ==> refs[i] + (if i in pinned then 1 else 0) == 1
    {
      assert OkBuf(i);
    }

    /** When no reference was ever lost, a buffer with count zero is neither referenced nor pinned and, if filled,
        equals the disk: bget may recycle it. */
    lemma ZeroCountIsIdle(i: nat)
      requires Valid() && leaked == {} && i < n && buf[i].refcnt == 0
      ensures refs[i] == 0 && i !in pinned && (buf[i].valid ==> buf[i].key in disk && buf[i].data == disk[buf[i].key])
    {
      assert OkBuf(i);
      if buf[i].valid {
        IdleEqualsDisk(i);
      }
    }

    /** bget of an uncached block takes the least recently used buffer of count 0, which is in use exactly when it has
        lost a reference. */
    method TakesInUseIff(k: Key) returns (r: Option<nat>, ghost j: nat)
      requires Valid() && !Cached(k)
      modifies this`buf, this`refs
      ensures r.None? <==> forall i :: 0 <= i < n ==> old(buf)[i].refcnt != 0
      ensures r.Some? ==> old(LastIdle(r.value, j)) && |old(refs)| == n
      ensures r.Some? ==> (old(refs)[r.value] > 0 || r.value in pinned <==> r.value in leaked)
    {
      forall i: nat | i < n && buf[i].refcnt == 0 ensures refs[i] > 0 || i in pinned <==> i in leaked {
        ZeroCountInUseIff(i);
      }
      r, j := Bget(k);
    }

    // ---------------------------------------------------------------- after a lost reference

    /** bget of the block of a buffer that has lost a reference finds that buffer, and leaves it with count 0. */
    method GetLeaked(k: Key, ghost l: nat) returns (i: nat, ghost p: nat)
      requires Counted() && l < n && l in leaked && buf[l].key == k
      modifies this`buf, this`refs
      ensures Valid() && i == l && p < n && order[p] == i && buf[i].refcnt == 0 && refs[i] == 1
      ensures buf == old(buf)[i := old(buf)[i].(refcnt := 0)]
    {
      assert l in order;
      ghost var at: nat :| at < |order| && order[at] == l;
      assert OkBuf(l);
      var r;
      r, p := Bget(k);
      i := r.value;
    }

    /** After a lost reference, two calls of bget, for the block of that buffer and for an uncached one, return the same
        buffer exactly when every less recently used buffer is in use; the first holder then has it under the number of
        the second. */
    method LostReferenceSharesBuffer(k: Key, other: Key, ghost l: nat)
      returns (first: nat, second: Option<nat>, ghost p: nat)
      requires Counted() && l < n && l in leaked && buf[l].key == k && !Cached(other)
      modifies this`buf, this`refs
      ensures first == l && p < n == |refs| == |buf| && order[p] == l && second.Some?
      ensures second.value == first <==> forall q :: p < q < n ==> old(buf)[order[q]].refcnt != 0
      ensures second.value == first ==> refs[first] == 2 && buf[first].key == other && !buf[first].valid
    {
      first, p := GetLeaked(k, l);
      OrderDistinct();
      ghost var j;
      second, j := Bget(other);
    }

    /** A disk with more blocks than the cache has buffers has an uncached one. */
    lemma SomeUncached()
      requires |buf| == n < |disk|
      ensures exists k :: k in disk && !Cached(k)
    {
      var keys := set i | 0 <= i < n :: buf[i].key;
      KeysBound(n);
      if forall k :: k in disk ==> Cached(k) {
        assert disk.Keys <= keys;
        Subset(disk.Keys, keys);
      }
    }

    lemma {:induction false} KeysBound(m: nat)
      requires m <= |buf|
      ensures |set i | 0 <= i < m :: buf[i].key| <= m
    {
      if m > 0 {
        KeysBound(m - 1);
        assert (set i | 0 <= i < m :: buf[i].key) == (set i | 0 <= i < m - 1 :: buf[i].key) + {buf[m - 1].key};
      }
    }

    static lemma Subset<T>(a: set<T>, b: set<T>)
      requires a <= b
      ensures |a| <= |b|
    {
      assert b == a + (b - a);
    }

    /** However it is used, a buffer of count 0 is recycled once enough other blocks are held. */
    method Exhaust(i: nat) returns (other: Key)
      requires Shape() && i < n < |disk| && buf[i].refcnt == 0
      modifies this`buf, this`refs
      ensures Shape() && other in disk && buf[i].key == other != old(buf)[i].key && !buf[i].valid
      ensures refs[i] == old(refs)[i] + 1
      ensures forall j :: 0 <= j < n && j != i ==> buf[j] == old(buf)[j] || buf[j].key != old(buf)[i].key
    {
      ghost var idle := set j | 0 <= j < n && buf[j].refcnt == 0;
      while true
        invariant Shape() && buf[i] == old(buf)[i] && refs[i] == old(refs)[i]
        invariant idle == set j | 0 <= j < n && buf[j].refcnt == 0
        invariant forall j :: 0 <= j < n && j != i ==> buf[j] == old(buf)[j] || buf[j].key != buf[i].key
        decreases |idle|
      {
        SomeUncached();
        other :| other in disk && !Cached(other);
        var r;
        ghost var j;
        r, j := Bget(other);
        if r.value == i {
          return;
        }
        idle := idle - {r.value};
      }
    }

    /** From every state in which a buffer has lost a reference, some run hands that buffer to two holders under two
        numbers. */
    method SharingReached(k: Key, ghost l: nat) returns (i: nat, other: Key)
      requires Counted() && l < n < |disk| && l in leaked && buf[l].key == k
      modifies this`buf, this`refs
      ensures i == l && i < |buf| == |refs| && refs[i] == 2 && buf[i].key == other != k
    {
      ghost var p;
      i, p := GetLeaked(k, l);
      other := Exhaust(i);
    }

    /** bread of the block of a buffer that has lost a reference finds that buffer. */
    method ReadLeaked(k: Key, me: nat, ghost l: nat) returns (i: nat)
      requires Counted() && l < n && l in leaked && buf[l].key == k && k in disk
      requires forall i :: 0 <= i < n && (buf[i].key == k || buf[i].refcnt == 0) ==> buf[i].holder.None?
      modifies this`buf, this`refs
      ensures Valid() && i == l && refs[i] == 1 && buf[i].valid && buf[i].key == k && buf[i].holder == Some(me)
    {
      var r := Bread(k, me);
      i := r.value;
      if i != l {
        SameKeyOneFresh(i, l);
      }
    }

    /** Change, bpin and brelse by the only holder of such a buffer: it is pinned with count 0. */
    method PinLeaked(i: nat, data: Block, me: nat)
      requires Valid() && i < n && i in leaked && i !in pinned && refs[i] == 1 && buf[i].valid
      requires buf[i].holder == Some(me)
      modifies this
      ensures Valid() && i in pinned && buf[i].refcnt == 0 && disk == old(disk)
      ensures contents == old(contents)[old(buf)[i].key := data] && buf[i].key == old(buf)[i].key
      ensures forall j :: 0 <= j < n && j != i && buf[j].key == buf[i].key ==> !buf[j].valid
    {
      Write(i, data, me);
      OnlyCopy(i);
      Bpin(i);
      Brelse(i, me);
      assert OkBuf(i);
    }

    /** From every such state, some run loses a logged update: the buffer is changed, pinned and released, and recycled
        for another block before the commit. Readers then get the old block. */
    method PinLost(k: Key, data: Block, me: nat, ghost l: nat) returns (i: nat, other: Key)
      requires Counted() && l < n < |disk| && l in leaked && buf[l].key == k && k in disk
      requires forall i :: 0 <= i < n && (buf[i].key == k || buf[i].refcnt == 0) ==> buf[i].holder.None?
      modifies this
      ensures i == l && i in pinned && contents == old(contents)[k := data] && disk == old(disk) && |buf| == n
      ensures forall j :: 0 <= j < n && buf[j].key == k ==> !buf[j].valid
    {
      i := ReadLeaked(k, me, l);
      PinLeaked(i, data, me);
      other := Exhaust(i);
    }
  }
}
