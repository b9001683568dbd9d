/** Physical pages behind page tables (kernel/vm.c): taking frames and giving them back, copying address spaces, user
    memory as bytes. */
module VmPages {
  import opened VmSpec

  // ---------------------------------------------------------------- taking frames and mapping them

  /** Physical memory: frames in use as tables, frames in use as pages of bytes, free frames. */
  datatype Mem = Mem(tab: Tables, page: map<int, seq<nat>>, free: set<nat>)

  ghost predicate OkMem(m: Mem) {
    && OkTables(m.tab)
    && (forall f :: f in m.page ==> f > 0 && |m.page[f]| == 4096 && f !in m.tab)
    && (forall f :: f in m.free ==> f > 0 && f !in m.tab && f !in m.page)
  }

  /** The new tables are frames taken from the free ones. */
  ghost predicate Took(tab: Tables, free: set<nat>, tab1: Tables, free1: set<nat>) {
    free1 <= free && tab1.Keys == tab.Keys + (free - free1)
  }

  /** What a page is to hold, and its permissions. */
  datatype Fill = Fill(content: seq<nat>, perm: nat)

  ghost predicate OkFill(x: Fill) { |x.content| == 4096 && 1 < x.perm < 1024 }

  ghost predicate GotAt(m: Mem, m1: Mem, root: int, v0: nat, fills: seq<Fill>, v: nat) {
    if v0 <= v < v0 + |fills| && fills[v - v0].perm < 1024 then
      var pte := Pte(m1.tab, root, v);
      && !IsValid(Pte(m.tab, root, v)) && pte == MakePte(Frame(pte), fills[v - v0].perm)
      && Frame(pte) in m.free && Frame(pte) in m1.page && m1.page[Frame(pte)] == fills[v - v0].content
    else Pte(m1.tab, root, v) == Pte(m.tab, root, v)
  }

  /** From m to m1 the pages from v0 on, none of them mapped, have got frames of their own, filled; nothing else changed
      but for new tables. */
  ghost predicate Got(m: Mem, m1: Mem, root: int, v0: nat, fills: seq<Fill>) {
    && (forall v :: GotAt(m, m1, root, v0, fills, v))
    && Owned(m1.tab, root, m1.page.Keys, v0, v0 + |fills|)
    && GotFrames(m, m1, FramesOf(m1.tab, root, v0, |fills|))
  }

  ghost predicate GotFrames(m: Mem, m1: Mem, frames: set<nat>) {
    && m1.page.Keys == m.page.Keys + frames && (forall f :: f in m.page ==> m1.page[f] == m.page[f])
    && frames <= m.free && Took(m.tab, m.free - frames, m1.tab, m1.free)
  }

  lemma GotFramesStep(m: Mem, m1: Mem, m2: Mem, frames: set<nat>, f: nat, content: seq<nat>)
    requires OkMem(m) && OkMem(m1) && GotFrames(m, m1, frames) && f in m1.free
    requires m2.page == m1.page[f := content] && Took(m1.tab, m1.free - {f}, m2.tab, m2.free)
    ensures GotFrames(m, m2, frames + {f})
  {
  }

  lemma GotFramesUndone(m: Mem, m1: Mem, m2: Mem, frames: set<nat>)
    requires OkMem(m) && GotFrames(m, m1, frames) && m2.tab.Keys == m1.tab.Keys && m2.page == m1.page - frames
    requires m2.free == m1.free + frames
    ensures m2.page == m.page && Took(m.tab, m.free, m2.tab, m2.free)
  {
    assert m2.page.Keys == m.page.Keys;
    forall f | f in m.page ensures m2.page[f] == m.page[f] { assert f in m2.page; }
  }

  lemma FramesPut(tab: Tables, tab1: Tables, root: int, v0: nat, n: nat, f: nat, perm: nat)
    requires perm < 1024 && Put(tab, tab1, root, v0 + n, MakePte(f, perm))
    ensures FramesOf(tab1, root, v0, n + 1) == FramesOf(tab, root, v0, n) + {f}
  {
    MadePte(f, perm);
    FramesStep(tab1, root, v0, n);
    assert PutAt(tab, tab1, root, v0 + n, MakePte(f, perm), v0 + n);
    forall v: nat | v0 <= v < v0 + n ensures Pte(tab1, root, v) == Pte(tab, root, v) {
      assert PutAt(tab, tab1, root, v0 + n, MakePte(f, perm), v);
    }
    forall g ensures g in FramesOf(tab1, root, v0, n) <==> g in FramesOf(tab, root, v0, n) {
      if v: nat :| v0 <= v < v0 + n && g == Frame(Pte(tab1, root, v)) {
        assert g == Frame(Pte(tab, root, v));
      }
      if v: nat :| v0 <= v < v0 + n && g == Frame(Pte(tab, root, v)) {
        assert g == Frame(Pte(tab1, root, v));
      }
    }
  }

  /** One more page. */
  ghost predicate GetsOne(m: Mem, m1: Mem, root: int, v: nat, f: nat, x: Fill) {
    && x.perm < 1024 && f in m.free && Put(m.tab, m1.tab, root, v, MakePte(f, x.perm)) && !IsValid(Pte(m.tab, root, v))
    && m1.page == m.page[f := x.content] && Took(m.tab, m.free - {f}, m1.tab, m1.free)
  }

  lemma GotStepAt(m: Mem, m1: Mem, m2: Mem, root: int, v0: nat, fills: seq<Fill>, f: nat, x: Fill, v: nat)
    requires OkMem(m) && OkMem(m1) && OkFill(x) && Got(m, m1, root, v0, fills)
    requires GetsOne(m1, m2, root, v0 + |fills|, f, x)
    ensures GotAt(m, m2, root, v0, fills + [x], v)
  {
    MadePte(f, x.perm);
    assert GotAt(m, m1, root, v0, fills, v) && PutAt(m1.tab, m2.tab, root, v0 + |fills|, MakePte(f, x.perm), v);
  }

  lemma GotStepOwned(m: Mem, m1: Mem, m2: Mem, root: int, v0: nat, fills: seq<Fill>, f: nat, x: Fill, v: nat, w: nat)
    requires OkMem(m1) && OkFill(x) && Got(m, m1, root, v0, fills) && GetsOne(m1, m2, root, v0 + |fills|, f, x)
    ensures OwnedAt(m2.tab, root, m2.page.Keys, v0, v0 + |fills| + 1, v, w)
  {
    var n, page := |fills|, m1.page.Keys;
    MadePte(f, x.perm);
    assert m2.page.Keys == page + {f};
    assert OwnedAt(m1.tab, root, page, v0, v0 + n, v, w) && OwnedAt(m1.tab, root, page, v0, v0 + n, w, v);
    assert && PutAt(m1.tab, m2.tab, root, v0 + n, MakePte(f, x.perm), v)
           && PutAt(m1.tab, m2.tab, root, v0 + n, MakePte(f, x.perm), w);
    assert GotAt(m, m1, root, v0, fills, v);
  }

  lemma GotStepOwneds(m: Mem, m1: Mem, m2: Mem, root: int, v0: nat, fills: seq<Fill>, f: nat, x: Fill)
    requires OkMem(m1) && OkFill(x) && Got(m, m1, root, v0, fills) && GetsOne(m1, m2, root, v0 + |fills|, f, x)
    ensures Owned(m2.tab, root, m2.page.Keys, v0, v0 + |fills + [x]|)
  {
    var page2, hi := m2.page.Keys, v0 + |fills| + 1;
    forall v: nat, w: nat ensures OwnedAt(m2.tab, root, page2, v0, hi, v, w) {
      GotStepOwned(m, m1, m2, root, v0, fills, f, x, v, w);
    }
    assert hi == v0 + |fills + [x]|;
  }

  lemma GotStep(m: Mem, m1: Mem, m2: Mem, root: int, v0: nat, fills: seq<Fill>, f: nat, x: Fill)
    requires OkMem(m) && OkMem(m1) && OkFill(x) && Got(m, m1, root, v0, fills)
    requires GetsOne(m1, m2, root, v0 + |fills|, f, x)
    ensures Got(m, m2, root, v0, fills + [x])
  {
    FramesPut(m1.tab, m2.tab, root, v0, |fills|, f, x.perm);
    GotFramesStep(m, m1, m2, FramesOf(m1.tab, root, v0, |fills|), f, x.content);
    GotStepOwneds(m, m1, m2, root, v0, fills, f, x);
    var all := fills + [x];
    forall v: nat ensures GotAt(m, m2, root, v0, all, v) { GotStepAt(m, m1, m2, root, v0, fills, f, x, v); }
  }

  /** Unmapping what has been got, and freeing it, restores the flat map and the pages. */
  lemma GotUndone(m: Mem, m1: Mem, m2: Mem, root: int, v0: nat, fills: seq<Fill>)
    requires OkMem(m) && Got(m, m1, root, v0, fills) && (forall i :: 0 <= i < |fills| ==> OkFill(fills[i]))
    requires Unmapped(m1.tab, m2.tab, root, v0, |fills|) && m2.tab.Keys == m1.tab.Keys
    requires var gone := FramesOf(m1.tab, root, v0, |fills|); m2.page == m1.page - gone && m2.free == m1.free + gone
    ensures SameMap(m.tab, m2.tab, root) && m2.page == m.page && Took(m.tab, m.free, m2.tab, m2.free)
  {
    GotFramesUndone(m, m1, m2, FramesOf(m1.tab, root, v0, |fills|));
    forall v: nat ensures SameMapAt(m.tab, m2.tab, root, v) {
      assert GotAt(m, m1, root, v0, fills, v) && UnmappedAt(m1.tab, m2.tab, root, v0, |fills|, v);
    }
  }

  /** New tables do not change what has been got. */
  lemma GotSame(m: Mem, m1: Mem, m2: Mem, root: int, v0: nat, fills: seq<Fill>)
    requires OkMem(m) && OkMem(m1) && Got(m, m1, root, v0, fills)
    requires Same(m1.tab, m2.tab, root) && m2.page == m1.page && Took(m1.tab, m1.free, m2.tab, m2.free)
    ensures Got(m, m2, root, v0, fills)
  {
    var n, page2, hi := |fills|, m2.page.Keys, v0 + |fills|;
    forall v: nat ensures GotAt(m, m2, root, v0, fills, v) {
      assert GotAt(m, m1, root, v0, fills, v) && SameAt(m1.tab, m2.tab, root, v);
    }
    forall v: nat, w: nat ensures OwnedAt(m2.tab, root, page2, v0, hi, v, w) {
      assert && OwnedAt(m1.tab, root, page2, v0, hi, v, w) && SameAt(m1.tab, m2.tab, root, v)
             && SameAt(m1.tab, m2.tab, root, w);
    }
    FramesSame(m1.tab, m2.tab, root, v0, n);
  }

  lemma FramesSame(tab: Tables, tab1: Tables, root: int, v0: nat, n: nat)
    requires Same(tab, tab1, root)
    ensures FramesOf(tab1, root, v0, n) == FramesOf(tab, root, v0, n)
  {
    forall v: nat ensures Pte(tab1, root, v) == Pte(tab, root, v) { assert SameAt(tab, tab1, root, v); }
    forall g ensures g in FramesOf(tab1, root, v0, n) <==> g in FramesOf(tab, root, v0, n) {
      if v: nat :| v0 <= v < v0 + n && g == Frame(Pte(tab1, root, v)) {
        assert g == Frame(Pte(tab, root, v));
      }
      if v: nat :| v0 <= v < v0 + n && g == Frame(Pte(tab, root, v)) {
        assert g == Frame(Pte(tab1, root, v));
      }
    }
  }

  lemma GotLeaf(m: Mem, m1: Mem, root: int, v0: nat, fills: seq<Fill>, v: nat)
    requires Got(m, m1, root, v0, fills) && v0 <= v < v0 + |fills| && OkFill(fills[v - v0])
    ensures Leaf(Pte(m1.tab, root, v))
  {
    assert GotAt(m, m1, root, v0, fills, v);
    MadePte(Frame(Pte(m1.tab, root, v)), fills[v - v0].perm);
  }

  lemma GotNone(m: Mem, root: int, v0: nat)
    ensures Got(m, m, root, v0, [])
  {
    assert FramesOf(m.tab, root, v0, 0) == {};
    forall v: nat ensures GotAt(m, m, root, v0, [], v) { }
    var page, hi := m.page.Keys, v0;
    forall v: nat, w: nat ensures OwnedAt(m.tab, root, page, v0, hi, v, w) { }
  }

  lemma GotNothing(m: Mem, m1: Mem, root: int, v0: nat, fills: seq<Fill>)
    requires Got(m, m1, root, v0, fills) && fills == []
    ensures SameMap(m.tab, m1.tab, root) && m1.page == m.page && Took(m.tab, m.free, m1.tab, m1.free)
  {
    assert FramesOf(m1.tab, root, v0, 0) == {};
    assert m.free - {} == m.free && m1.page.Keys == m.page.Keys;
    forall f | f in m.page ensures m1.page[f] == m.page[f] { assert f in m1.page; }
    forall v: nat ensures SameMapAt(m.tab, m1.tab, root, v) { assert GotAt(m, m1, root, v0, fills, v); }
  }

  lemma GotOwned(m: Mem, m1: Mem, root: int, v0: nat, fills: seq<Fill>, tab: Tables, page: set<int>, hi: nat)
    requires Got(m, m1, root, v0, fills) && tab == m1.tab && page == m1.page.Keys && hi == v0 + |fills|
    ensures Owned(tab, root, page, v0, hi)
  {
    forall v: nat, w: nat ensures OwnedAt(tab, root, page, v0, hi, v, w) {
      assert OwnedAt(m1.tab, root, m1.page.Keys, v0, v0 + |fills|, v, w);
    }
  }

  /** An unmapping that stops early has met a page that was not mapped. */
  lemma GotUnmaps(m: Mem, m1: Mem, root: int, v0: nat, fills: seq<Fill>, n: nat)
    requires Got(m, m1, root, v0, fills) && (forall i :: 0 <= i < |fills| ==> OkFill(fills[i]))
    ensures n < |fills| ==> Leaf(Pte(m1.tab, root, v0 + n))
  {
    if n < |fills| {
      GotLeaf(m, m1, root, v0, fills, v0 + n);
    }
  }

  // ---------------------------------------------------------------- copying an address space

  /** What a copy of page v of src is to hold. */
  ghost function CopyFill(m: Mem, src: int, v: nat): Fill {
    var pte := Pte(m.tab, src, v);
    Fill(if Frame(pte) in m.page then m.page[Frame(pte)] else [], Flags(pte))
  }

  ghost function CopyFills(m: Mem, src: int, n: nat): seq<Fill> { seq(n, (v: nat) => CopyFill(m, src, v)) }

  lemma CopyFillsNext(m: Mem, src: int, n: nat)
    ensures CopyFills(m, src, n + 1) == CopyFills(m, src, n) + [CopyFill(m, src, n)]
  {
  }

  ghost predicate PresentAt(m: Mem, src: int, v: nat) {
    var pte := Pte(m.tab, src, v);
    IsValid(pte) ==> Leaf(pte) && Frame(pte) in m.page
  }

  /** The first n pages of src that are mapped are pages of bytes. */
  ghost predicate Present(m: Mem, src: int, n: nat) { forall v :: 0 <= v < n ==> PresentAt(m, src, v) }

  ghost predicate AllValid(tab: Tables, src: int, n: nat) { forall v :: 0 <= v < n ==> IsValid(Pte(tab, src, v)) }

  lemma AllValidNext(tab: Tables, src: int, n: nat)
    requires AllValid(tab, src, n) && IsValid(Pte(tab, src, n))
    ensures AllValid(tab, src, n + 1)
  {
    forall v: nat | v < n + 1 ensures IsValid(Pte(tab, src, v)) { assert v < n ==> IsValid(Pte(tab, src, v)); }
  }

  ghost predicate Empty(tab: Tables, dst: int, n: nat) { forall v :: 0 <= v < n ==> !IsValid(Pte(tab, dst, v)) }

  lemma CopyFillOk(m: Mem, src: int, v: nat)
    requires OkMem(m) && PresentAt(m, src, v) && IsValid(Pte(m.tab, src, v))
    ensures OkFill(CopyFill(m, src, v))
  {
  }

  // ---------------------------------------------------------------- user memory as bytes

  type Pages = map<int, seq<nat>>

  /** The byte at a user address, or -1 if it is not mapped for the user. */
  ghost function UserByte(tab: Tables, root: int, page: Pages, a: nat): int {
    var f := UserFrame(tab, root, a / 4096);
    if f != 0 && f in page && |page[f]| == 4096 then page[f][a % 4096] else -1
  }

  ghost predicate UserOwnedAt(tab: Tables, root: int, page: Pages, v: nat, w: nat) {
    UserFrame(tab, root, v) != 0 ==>
      && UserFrame(tab, root, v) in page && |page[UserFrame(tab, root, v)]| == 4096
      && (v != w ==> UserFrame(tab, root, v) != UserFrame(tab, root, w))
  }

  /** Every user page has a frame of its own. */
  ghost predicate UserOwned(tab: Tables, root: int, page: Pages) { forall v, w :: UserOwnedAt(tab, root, page, v, w) }

  ghost predicate WrittenAt(tab: Tables, root: int, page: Pages, page1: Pages, d: nat, data: seq<nat>, a: nat) {
    UserByte(tab, root, page1, a) == if d <= a < d + |data| then data[a - d] else UserByte(tab, root, page, a)
  }

  /** From page to page1 the user's memory has changed by data at d, and nowhere else. */
  ghost predicate Written(tab: Tables, root: int, page: Pages, page1: Pages, d: nat, data: seq<nat>) {
    UserOwned(tab, root, page1) && forall a :: WrittenAt(tab, root, page, page1, d, data, a)
  }

  function Spliced(s: seq<nat>, off: nat, c: seq<nat>): seq<nat>
    requires off + |c| <= |s|
  {
    s[..off] + c + s[off + |c|..]
  }

  /** Two addresses of one page, or of different ones. */
  lemma SplitAddress(a: nat, d: nat)
    ensures a / 4096 == d / 4096 ==> a - d == a % 4096 - d % 4096
    ensures a / 4096 != d / 4096 ==> a >= d + (4096 - d % 4096) || a < d
  {
  }

  lemma ChunkWritten(tab: Tables, root: int, page: Pages, d: nat, c: seq<nat>)
    requires UserOwned(tab, root, page) && UserFrame(tab, root, d / 4096) != 0 && d % 4096 + |c| <= 4096
    ensures var f := UserFrame(tab, root, d / 4096);
            f in page && |page[f]| == 4096 && Written(tab, root, page, page[f := Spliced(page[f], d % 4096, c)], d, c)
  {
    var v := d / 4096;
    var f := UserFrame(tab, root, v);
    assert UserOwnedAt(tab, root, page, v, v);
    var page1 := page[f := Spliced(page[f], d % 4096, c)];
    forall v: nat, w: nat ensures UserOwnedAt(tab, root, page1, v, w) { assert UserOwnedAt(tab, root, page, v, w); }
    forall a: nat ensures WrittenAt(tab, root, page, page1, d, c, a) {
      SplitAddress(a, d);
      assert UserOwnedAt(tab, root, page, v, a / 4096);
    }
  }

  lemma WrittenNothing(tab: Tables, root: int, page: Pages, d: nat)
    requires UserOwned(tab, root, page)
    ensures Written(tab, root, page, page, d, [])
  {
    forall a: nat ensures WrittenAt(tab, root, page, page, d, [], a) { }
  }

  lemma WrittenConcat(tab: Tables, root: int, page: Pages, page1: Pages, page2: Pages, d: nat, c: seq<nat>,
                      c2: seq<nat>)
    requires Written(tab, root, page, page1, d, c) && Written(tab, root, page1, page2, d + |c|, c2)
    ensures Written(tab, root, page, page2, d, c + c2)
  {
    var all := c + c2;
    forall a: nat ensures WrittenAt(tab, root, page, page2, d, all, a) {
      assert WrittenAt(tab, root, page, page1, d, c, a) && WrittenAt(tab, root, page1, page2, d + |c|, c2, a);
    }
  }

  ghost predicate ReadAt(tab: Tables, root: int, page: Pages, d: nat, data: seq<nat>, k: nat) {
    k < |data| ==> UserByte(tab, root, page, d + k) == data[k]
  }

  /** The user's memory holds data at d. */
  ghost predicate Holds(tab: Tables, root: int, page: Pages, d: nat, data: seq<nat>) {
    forall k :: ReadAt(tab, root, page, d, data, k)
  }

  lemma ChunkHeld(tab: Tables, root: int, page: Pages, d: nat, data: seq<nat>, n: nat)
    requires Holds(tab, root, page, d, data)
    requires var v, off := (d + |data|) / 4096, (d + |data|) % 4096;
             var f := UserFrame(tab, root, v); f != 0 && f in page && |page[f]| == 4096 && off + n <= 4096
    ensures var off := (d + |data|) % 4096;
            Holds(tab, root, page, d, data + page[UserFrame(tab, root, (d + |data|) / 4096)][off..off + n])
  {
    var e := d + |data|;
    var off := e % 4096;
    var all := data + page[UserFrame(tab, root, e / 4096)][off..off + n];
    forall k: nat ensures ReadAt(tab, root, page, d, all, k) {
      assert ReadAt(tab, root, page, d, data, k);
      if |data| <= k < |all| {
        InPage(e, k - |data|, n);
      }
    }
  }

  lemma InPage(e: nat, i: nat, n: nat)
    requires i < n && e % 4096 + n <= 4096
    ensures (e + i) / 4096 == e / 4096 && (e + i) % 4096 == e % 4096 + i
  {
  }

  lemma HeldAfterWrite(tab: Tables, root: int, page: Pages, page1: Pages, d: nat, data: seq<nat>, read: seq<nat>)
    requires Written(tab, root, page, page1, d, data) && Holds(tab, root, page1, d, read) && |read| <= |data|
    ensures read == data[..|read|]
  {
    forall k: nat | k < |read| ensures read[k] == data[k] {
      assert ReadAt(tab, root, page1, d, read, k) && WrittenAt(tab, root, page, page1, d, data, d + k);
    }
  }

  /** Every byte of the range is mapped for the user. */
  ghost predicate UserMapped(tab: Tables, root: int, d: nat, n: nat) {
    forall a :: d <= a < d + n ==> UserFrame(tab, root, a / 4096) != 0
  }

  lemma UserMappedMore(tab: Tables, root: int, d: nat, k: nat, n: nat)
    requires UserMapped(tab, root, d, k) && UserFrame(tab, root, (d + k) / 4096) != 0 && (d + k) % 4096 + n <= 4096
    ensures UserMapped(tab, root, d, k + n)
  {
    forall a: nat | d <= a < d + (k + n) ensures UserFrame(tab, root, a / 4096) != 0 {
      if a >= d + k {
        InPage(d + k, a - (d + k), n);
      }
    }
  }

  lemma UserBit(frame: nat, flags: nat)
    ensures (frame * 1024 + flags) / 16 % 2 == flags / 16 % 2
  {
    assert (frame * 1024 + flags) / 16 == frame * 64 + flags / 16;
  }

  lemma SameUser(pte: nat, frame: nat)
    requires IsValid(pte)
    ensures IsUser(MakePte(frame, Flags(pte))) == IsUser(pte)
  {
    UserBit(Frame(pte), Flags(pte));
    UserBit(frame, Flags(pte));
    assert Flags(pte) % 2 == 1;
  }

  /** A copied address space shows the user the same bytes. */
  lemma CopyShowsSame(m: Mem, m1: Mem, src: int, dst: int, n: nat, a: nat)
    requires OkMem(m) && OkMem(m1) && n <= MAXPAGE && Got(m, m1, dst, 0, CopyFills(m, src, n))
    requires AllValid(m.tab, src, n) && Present(m, src, n)
    requires a / 4096 < n
    ensures UserByte(m1.tab, dst, m1.page, a) == UserByte(m.tab, src, m.page, a)
  {
    var v := a / 4096;
    var pte := Pte(m.tab, src, v);
    assert PresentAt(m, src, v) && GotAt(m, m1, dst, 0, CopyFills(m, src, n), v);
    SameUser(pte, Frame(Pte(m1.tab, dst, v)));
    MadePte(Frame(Pte(m1.tab, dst, v)), Flags(pte));
  }

  /** dst has a copy of page v of src of its own, with the same permissions; both show what src showed before. */
  ghost predicate CopiedAt(m: Mem, m1: Mem, src: int, dst: int, v: nat) {
    var was, now := Pte(m.tab, src, v), Pte(m1.tab, dst, v);
    && IsValid(now) && Flags(now) == Flags(was) && Frame(now) in m.free
    && forall a :: v * 4096 <= a < v * 4096 + 4096 ==>
                     && UserByte(m1.tab, dst, m1.page, a) == UserByte(m.tab, src, m.page, a)
                     && UserByte(m1.tab, src, m1.page, a) == UserByte(m.tab, src, m.page, a)
  }

  lemma CopyIsSame(m: Mem, m1: Mem, src: int, dst: int, n: nat, v: nat)
    requires OkMem(m) && OkMem(m1) && n <= MAXPAGE && Got(m, m1, dst, 0, CopyFills(m, src, n))
    requires AllValid(m.tab, src, n) && Present(m, src, n) && Same(m.tab, m1.tab, src) && v < n
    ensures CopiedAt(m, m1, src, dst, v)
  {
    assert PresentAt(m, src, v) && GotAt(m, m1, dst, 0, CopyFills(m, src, n), v) && SameAt(m.tab, m1.tab, src, v);
    MadePte(Frame(Pte(m1.tab, dst, v)), Flags(Pte(m.tab, src, v)));
    FlagsValid(Pte(m.tab, src, v));
    forall a: nat | v * 4096 <= a < v * 4096 + 4096
      ensures UserByte(m1.tab, dst, m1.page, a) == UserByte(m.tab, src, m.page, a)
      ensures UserByte(m1.tab, src, m1.page, a) == UserByte(m.tab, src, m.page, a)
    {
      assert a / 4096 == v;
      CopyShowsSame(m, m1, src, dst, n, a);
    }
  }

  lemma FlagsValid(pte: nat)
    ensures Flags(pte) % 2 == pte % 2
  {
  }
}
