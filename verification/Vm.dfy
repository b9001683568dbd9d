/** Page table operations of kernel/vm.c on physical memory. A frame is in use as a page table, in use as a page of
    bytes, or free; kalloc takes any free frame and fails when there is none. Integers are 64 bits wide and wrap. */
module Vm {
  import opened VmCost
  import opened VmPages
  import opened VmSpec

  const MAXVA := 0x40_0000_0000
  const WORD := 0x1_0000_0000_0000_0000

  function PgRoundDown(a: nat): nat { a / 4096 * 4096 }
  function PgRoundUp(a: nat): nat { (a + 4095) % WORD / 4096 * 4096 }

  /** The least page boundary from a on, unless that is past the last address. */
  lemma RoundUpLeast(a: nat, b: nat)
    requires a < WORD
    ensures PgRoundUp(a) % 4096 == 0 && (b % 4096 == 0 && a <= b < WORD ==> a <= PgRoundUp(a) <= b)
    ensures PgRoundUp(a) < a ==> PgRoundUp(a) == 0 && a > WORD - 4096
  {
  }

  /** PX(level, va) */
  function PX(level: nat, va: nat): nat {
    (if level == 0 then va / 4096 else if level == 1 then va / 0x20_0000 else va / 0x4000_0000) % 512
  }

  lemma PxOfPage(va: nat)
    requires va < MAXVA
    ensures PX(2, va) == PX2(va / 4096) && PX(1, va) == PX1(va / 4096) && PX(0, va) == PX0(va / 4096)
    ensures va / 4096 < MAXPAGE
  {
  }

  /** The way of the address va through the tables (section 4.4 of the RISC-V Privileged Architecture manual): bits 30
      to 38 index the root, bits 21 to 29 the next table, and bits 12 to 20 the last, t. */
  ghost predicate Translates(tab: Tables, root: int, va: nat, t: int, i: nat) {
    && i == va / 4096 % 512 && root in tab && |tab[root]| == 512
    && var top := tab[root][va / 0x4000_0000 % 512];
       && IsValid(top) && Frame(top) in tab && |tab[Frame(top)]| == 512
       && var mid := tab[Frame(top)][va / 0x20_0000 % 512]; IsValid(mid) && Frame(mid) == t
  }

  lemma TableTranslates(tab: Tables, root: int, va: nat)
    requires Tree(tab, root) && va < MAXVA && Table(tab, root, LowOf(va / 4096)) in tab
    ensures Translates(tab, root, va, Table(tab, root, LowOf(va / 4096)), PX0(va / 4096))
  {
    PxOfPage(va);
    assert OkPos(tab, root, Mid(PX2(va / 4096)));
  }

  lemma PageOf(v: nat)
    ensures v * 4096 / 4096 == v && v * 4096 % 4096 == 0 && (v * 4096 < MAXVA <==> v < MAXPAGE)
  {
  }

  lemma DownPage(d: nat)
    ensures PgRoundDown(d) / 4096 == d / 4096
  {
  }

  lemma NextFrame(p: nat)
    ensures (p + 4096) / 4096 == p / 4096 + 1
  {
  }

  lemma OnePage(v: nat)
    requires v * 4096 + 4096 <= WORD
    ensures LastPage(v * 4096, 4096) == v
  {
  }

  lemma DeallocRange(oldsz: nat, newsz: nat)
    requires newsz < oldsz < WORD && PgRoundUp(newsz) < PgRoundUp(oldsz)
    ensures PgRoundUp(newsz) < oldsz && PgRoundUp(newsz) % 4096 == 0
    ensures LastPage(PgRoundUp(newsz), oldsz - PgRoundUp(newsz)) + 1 == PgRoundUp(oldsz) / 4096
    ensures PgRoundUp(newsz) / 4096 < PgRoundUp(oldsz) / 4096
  {
  }

  lemma UndoRange(v0: nat, n: nat)
    requires n > 0 ==> v0 + n <= MAXPAGE
    ensures n > 0 ==> PgRoundUp(v0 * 4096) == v0 * 4096 && PgRoundUp((v0 + n) * 4096) == (v0 + n) * 4096
    ensures PgRoundUp(v0 * 4096) / 4096 == v0 || n == 0
  {
  }

  /** The range of n pages from 0 on; with n == 0, the size wraps and there is no end. */
  lemma UnmapAll(n: nat)
    requires n <= MAXPAGE
    ensures LastPage(0, n * 4096) + 1 == if n > 0 then n else 0x10_0000_0000_0000
  {
  }

  /** Where walk stands with a table of that level. */
  function PosAt(level: nat, v: nat): Pos { if level == 0 then LowOf(v) else if level == 1 then Mid(PX2(v)) else Top }

  /** What walk returns: the address of an entry, a null pointer, or a panic. */
  datatype Slot = At(t: int, i: nat) | Null | WalkPanic

  datatype Outcome = Ok | Fail | Panic

  /** The number of the last page of a range. */
  function LastPage(va: nat, size: nat): nat { (va + size + WORD - 1) % WORD / 4096 }

  /** How a loop over the pages from first to last ends after n pages: past the last, or before it. */
  ghost predicate MapEnd(o: Outcome, first: nat, last: nat, n: nat) {
    if o == Ok then first <= last && n == last - first + 1 else first <= last ==> first + n <= last
  }

  /** PTE_W | PTE_X | PTE_R | PTE_U, on a page of zeros. */
  ghost function ZeroFills(n: nat): seq<Fill> { seq(n, i => Fill(seq(4096, j => 0), 30)) }

  /** The user finds a zero at address a, in a page that may be read, written and executed. */
  ghost predicate ZeroAt(tab: Tables, root: int, page: Pages, a: nat) {
    var pte := Pte(tab, root, a / 4096);
    && UserFrame(tab, root, a / 4096) != 0 && UserByte(tab, root, page, a) == 0
    && IsReadable(pte) && IsWritable(pte) && IsExecutable(pte)
  }

  lemma Shifts(x: nat)
    ensures (2 * x + 1) / 2 == x && (4 * x + 3) / 4 == x && (8 * x + 7) / 8 == x && (16 * x + 15) / 16 == x
  {
  }

  lemma Odd(x: nat)
    ensures (2 * x + 1) % 2 == 1
  {
  }

  lemma UserBits(frame: nat)
    ensures var pte := MakePte(frame, 30);
            && IsValid(pte) && IsUser(pte) && IsReadable(pte) && IsWritable(pte) && IsExecutable(pte)
            && Frame(pte) == frame
  {
    var pte := MakePte(frame, 30);
    Shifts(512 * frame + 15);
    Shifts(256 * frame + 7);
    Shifts(128 * frame + 3);
    Shifts(64 * frame + 1);
    Odd(512 * frame + 15);
    Odd(256 * frame + 7);
    Odd(128 * frame + 3);
    Odd(64 * frame + 1);
    Odd(32 * frame);
    assert pte / 2 == 2 * (256 * frame + 7) + 1 && pte / 4 == 2 * (128 * frame + 3) + 1;
    assert pte / 8 == 2 * (64 * frame + 1) + 1 && pte / 16 == 2 * (32 * frame) + 1;
  }

  lemma ZeroFilled(m: Mem, m1: Mem, root: int, v0: nat, n: nat, v: nat)
    requires OkMem(m) && Got(m, m1, root, v0, ZeroFills(n)) && v < MAXPAGE && v0 <= v < v0 + n
    ensures forall a :: v * 4096 <= a < v * 4096 + 4096 ==> ZeroAt(m1.tab, root, m1.page, a)
  {
    assert GotAt(m, m1, root, v0, ZeroFills(n), v);
    var pte := Pte(m1.tab, root, v);
    UserBits(Frame(pte));
    assert pte == MakePte(Frame(pte), 30);
    var f := UserFrame(m1.tab, root, v);
    assert f != 0 && f in m1.page && |m1.page[f]| == 4096;
    forall a: nat | v * 4096 <= a < v * 4096 + 4096 ensures ZeroAt(m1.tab, root, m1.page, a) {
      AddrPage(a, v);
      assert m1.page[f][a % 4096] == 0;
    }
  }

  lemma AddrPage(a: nat, v: nat)
    requires v * 4096 <= a < v * 4096 + 4096
    ensures a / 4096 == v
  {
  }

  /** The user finds new zeros from lo to hi, and the same as before elsewhere. */
  ghost predicate UserGrown(m: Mem, m1: Mem, root: int, lo: nat, hi: nat) {
    && (forall a :: lo <= a < hi ==> ZeroAt(m1.tab, root, m1.page, a))
    && (UserOwned(m.tab, root, m.page) ==>
          && UserOwned(m1.tab, root, m1.page)
          && (forall a :: 0 <= a < lo || hi <= a ==> UserKeptAt(m, m1, root, a)))
  }

  ghost predicate UserKeptAt(m: Mem, m1: Mem, root: int, a: nat) {
    UserByte(m1.tab, root, m1.page, a) == UserByte(m.tab, root, m.page, a)
  }

  lemma GotUserOwned(m: Mem, m1: Mem, root: int, v0: nat, fills: seq<Fill>, v: nat, w: nat)
    requires OkMem(m) && OkMem(m1) && Got(m, m1, root, v0, fills) && UserOwned(m.tab, root, m.page)
    requires forall i :: 0 <= i < |fills| ==> OkFill(fills[i])
    ensures UserOwnedAt(m1.tab, root, m1.page, v, w)
  {
    assert GotAt(m, m1, root, v0, fills, v) && GotAt(m, m1, root, v0, fills, w);
    assert UserOwnedAt(m.tab, root, m.page, v, w) && UserOwnedAt(m.tab, root, m.page, w, v);
    assert OwnedAt(m1.tab, root, m1.page.Keys, v0, v0 + |fills|, v, w);
    if v0 <= v < v0 + |fills| {
      MadePte(Frame(Pte(m1.tab, root, v)), fills[v - v0].perm);
    }
    if v0 <= w < v0 + |fills| {
      MadePte(Frame(Pte(m1.tab, root, w)), fills[w - v0].perm);
    }
  }

  lemma GotElsewhere(m: Mem, m1: Mem, root: int, v0: nat, fills: seq<Fill>, a: nat)
    requires OkMem(m) && Got(m, m1, root, v0, fills) && UserOwned(m.tab, root, m.page)
    requires a / 4096 < v0 || v0 + |fills| <= a / 4096
    ensures UserKeptAt(m, m1, root, a)
  {
    assert GotAt(m, m1, root, v0, fills, a / 4096);
    assert UserOwnedAt(m.tab, root, m.page, a / 4096, a / 4096);
  }

  /** What uvmalloc has mapped, seen by the user. */
  lemma GrownByZeros(m: Mem, m1: Mem, root: int, v0: nat, n: nat)
    requires OkMem(m) && OkMem(m1) && Got(m, m1, root, v0, ZeroFills(n)) && (n > 0 ==> v0 + n <= MAXPAGE)
    ensures UserGrown(m, m1, root, v0 * 4096, (v0 + n) * 4096)
  {
    forall a: nat | v0 * 4096 <= a < (v0 + n) * 4096 ensures ZeroAt(m1.tab, root, m1.page, a) {
      ZeroFilled(m, m1, root, v0, n, a / 4096);
    }
    if UserOwned(m.tab, root, m.page) {
      forall v: nat, w: nat ensures UserOwnedAt(m1.tab, root, m1.page, v, w) {
        GotUserOwned(m, m1, root, v0, ZeroFills(n), v, w);
      }
      forall a: nat | a < v0 * 4096 || (v0 + n) * 4096 <= a ensures UserKeptAt(m, m1, root, a) {
        GotElsewhere(m, m1, root, v0, ZeroFills(n), a);
      }
    }
  }

  lemma RoundsPast(oldsz: nat, newsz: nat)
    requires oldsz <= newsz < WORD && PgRoundUp(oldsz) < PgRoundUp(newsz)
    ensures PgRoundUp(oldsz) < newsz
  {
  }

  /** The pages that uvmalloc has added are those between the two sizes, rounded up. */
  lemma PagesAdded(oldsz: nat, newsz: nat, n: nat)
    requires oldsz <= newsz < WORD && n == PagesBetween(PgRoundUp(oldsz), newsz)
    requires n > 0 ==> PgRoundUp(oldsz) / 4096 + n <= MAXPAGE
    ensures var hi := (PgRoundUp(oldsz) / 4096 + n) * 4096;
            if n > 0 then hi == PgRoundUp(newsz) else hi == PgRoundUp(oldsz) >= PgRoundUp(newsz)
  {
  }

  /** The number of pages that begin in [lo, hi), lo being page aligned. */
  function PagesBetween(lo: nat, hi: nat): nat { if lo < hi then (hi - lo + 4095) / 4096 else 0 }

  lemma PagesCounted(v0: nat, n: nat, sz: nat)
    requires sz <= (v0 + n) * 4096 && (n > 0 ==> (v0 + n - 1) * 4096 < sz)
    ensures n == PagesBetween(v0 * 4096, sz)
  {
  }

  lemma PagesLeft(n: nat, sz: nat)
    ensures n * 4096 < sz <==> n < PagesBetween(0, sz)
  {
  }

  /** When a copy fails at page 0, given how far it got. */
  lemma FirstPage(m: Mem, src: int, dst: int, sz: nat, panics: bool, n: nat)
    requires Cost(m.tab, dst, 0, n) <= |m.free| && AllValid(m.tab, src, n) && n <= PagesBetween(0, sz)
    requires if panics
             then n > 0 || |m.free| < Cost(m.tab, dst, 0, 1) || !IsValid(Pte(m.tab, src, 0))
             else n > 0 || sz == 0
    ensures sz > 0 ==> (panics && n == 0 <==> !IsValid(Pte(m.tab, src, 0)) || |m.free| <= Missing(m.tab, dst, 0))
  {
    OneCosts(m.tab, dst, 0);
    if n > 0 {
      CostGrows(m.tab, dst, 0, 1, n);
    }
  }

  class Machine {
    var tab: Tables
    var page: map<int, seq<nat>>
    var free: set<nat>

    ghost function M(): Mem
      reads this
    {
      Mem(tab, page, free)
    }

    ghost predicate Valid()
      reads this
    {
      OkMem(M())
    }

    /** Since memory was m, the tree of root has got the pages from v0 on. */
    ghost predicate Growing(m: Mem, root: int, v0: nat, fills: seq<Fill>)
      reads this
    {
      Valid() && Tree(tab, root) && Extends(m.tab, tab, root) && Got(m, M(), root, v0, fills)
    }

    /** Memory is as it was in m, but for new tables in the tree of root. */
    ghost predicate Restored(m: Mem, root: int)
      reads this
    {
      && Valid() && Tree(tab, root) && Extends(m.tab, tab, root) && SameMap(m.tab, tab, root) && page == m.page
      && Took(m.tab, m.free, tab, free)
    }

    method Kalloc() returns (f: int)
      requires Valid()
      modifies this`free
      ensures Valid() && (f == 0 <==> old(free) == {}) && (f == 0 ==> free == old(free))
      ensures f != 0 ==> f in old(free) && free == old(free) - {f}
    {
      if free == {} {
        return 0;
      }
      f :| f in free;
      free := free - {f};
    }

    /** One level of walk: the table that entry i of table t leads to, made if need be, or 0. */
    method Descend(root: int, t: int, i: nat, alloc: bool, ghost at: Pos) returns (n: int)
      requires Valid() && Tree(tab, root) && !at.Low? && t in tab && t == Table(tab, root, at) && i < 512
      modifies this`tab, this`free
      ensures Valid() && Tree(tab, root) && Extends(old(tab), tab, root) && Same(old(tab), tab, root)
      ensures if n == 0
              then Table(tab, root, Child(at, i)) == -1 && tab == old(tab)
              else n in tab && n == Table(tab, root, Child(at, i))
      ensures !alloc ==> tab == old(tab) && free == old(free)
      ensures n == 0 && alloc ==> free == {} && old(free) == {}
      ensures KeptBut(old(tab), tab, root, Child(at, i))
      ensures |old(free)| == |free| + if n != 0 && Table(old(tab), root, Child(at, i)) == -1 then 1 else 0
      ensures Took(old(tab), old(free), tab, free)
    {
      assert OkPos(tab, root, Child(at, i));
      if IsValid(tab[t][i]) {
        n := Frame(tab[t][i]);
      } else if !alloc {
        n := 0;
      } else {
        n := Kalloc();
        if n != 0 {
          GrowKeeps(tab, root, at, i, n);
          GrowExtends(tab, root, at, i, n);
          forall pos ensures KeptAt(tab, Grown(tab, t, i, n), root, Child(at, i), pos) {
            GrowTable(tab, root, at, i, n, pos);
          }
          tab := Grown(tab, t, i, n);
          assert old(free) - free == {n};
        }
      }
    }

    /** walk: finds the entry of page va / 4096, with alloc adding missing tables. */
    method Walk(root: int, va: nat, alloc: bool) returns (r: Slot)
      requires Valid() && Tree(tab, root)
      modifies this`tab, this`free
      ensures Valid() && Tree(tab, root) && Extends(old(tab), tab, root) && Same(old(tab), tab, root)
      ensures r.WalkPanic? <==> va >= MAXVA
      ensures r.At? ==> r.t in tab && r.t == Table(tab, root, LowOf(va / 4096)) && r.i == PX0(va / 4096)
      ensures r.At? ==> Translates(tab, root, va, r.t, r.i)
      ensures r.At? ==>
                && VisitedTo(old(tab), tab, root, va / 4096, 0)
                && |old(free)| == |free| + Missing(old(tab), root, va / 4096)
      ensures r.Null? && alloc ==> free == {} && |old(free)| < Missing(old(tab), root, va / 4096)
      ensures r.Null? && !alloc ==> Table(tab, root, LowOf(va / 4096)) == -1
      ensures !alloc ==> tab == old(tab) && free == old(free)
      ensures Took(old(tab), old(free), tab, free)
    {
      if va >= MAXVA {
        return WalkPanic;
      }
      ghost var v := va / 4096;
      PxOfPage(va);
      Indices(v, v);
      var t, level := root, 2;
      while level > 0
        invariant level <= 2 && t in tab && t == Table(tab, root, PosAt(level, v))
        invariant VisitedTo(old(tab), tab, root, v, level)
        invariant |old(free)| == |free| + MissingTo(old(tab), root, v, level)
        invariant Valid() && Tree(tab, root) && Extends(old(tab), tab, root) && Same(old(tab), tab, root)
        invariant !alloc ==> tab == old(tab) && free == old(free)
        invariant Took(old(tab), old(free), tab, free)
      {
        ghost var tab0, free0 := tab, free;
        t := Descend(root, t, PX(level, va), alloc, PosAt(level, v));
        ExtendsTrans(old(tab), tab0, tab, root);
        SameTrans(old(tab), tab0, tab, root);
        assert old(free) - free == (old(free) - free0) + (free0 - free);
        if t == 0 {
          VisitedStop(old(tab), tab, root, v, level);
          return Null;
        }
        VisitedStep(old(tab), tab0, tab, root, v, level);
        level := level - 1;
      }
      TableTranslates(tab, root, va);
      r := At(t, PX(0, va));
    }

    /** walkaddr: the frame a user page is mapped to, or 0. */
    method WalkAddr(root: int, va: nat) returns (f: nat)
      requires Valid() && Tree(tab, root)
      modifies this`tab, this`free
      ensures tab == old(tab) && free == old(free) && f == UserFrame(tab, root, va / 4096)
    {
      if va >= MAXVA {
        return 0;
      }
      PxOfPage(va);
      var r := Walk(root, va, false);
      if r.Null? {
        return 0;
      }
      var pte := tab[r.t][r.i];
      if !IsValid(pte) || !IsUser(pte) {
        return 0;
      }
      f := Frame(pte);
    }

    /** Stores an entry where walk has found its place. */
    method Store(ghost root: int, ghost v: nat, r: Slot, pte: nat)
      requires Valid() && Tree(tab, root) && r.At? && r.t in tab && r.t == Table(tab, root, LowOf(v)) && r.i == PX0(v)
      modifies this`tab
      ensures Valid() && Tree(tab, root) && Extends(old(tab), tab, root) && tab.Keys == old(tab).Keys
      ensures Put(old(tab), tab, root, v, pte) && KeptBut(old(tab), tab, root, Top)
    {
      StoreKeeps(tab, root, v, pte);
      StoreExtends(tab, root, v, pte);
      forall pos ensures KeptAt(tab, Stored(tab, r.t, r.i, pte), root, Top, pos) {
        StoreTable(tab, root, LowOf(v), r.i, pte, pos);
      }
      tab := Stored(tab, r.t, r.i, pte);
    }

    /** Maps one page. */
    method MapOne(root: int, a: nat, pte: nat, ghost v: nat) returns (o: Outcome)
      requires Valid() && Tree(tab, root) && a == v * 4096
      modifies this`tab, this`free
      ensures Valid() && Tree(tab, root) && Extends(old(tab), tab, root)
      ensures Took(old(tab), old(free), tab, free)
      ensures if o == Ok then Put(old(tab), tab, root, v, pte) else Same(old(tab), tab, root)
      ensures match o
              case Ok => v < MAXPAGE && !IsValid(Pte(old(tab), root, v))
              case Fail => v < MAXPAGE && free == {} && |old(free)| < Missing(old(tab), root, v)
              case Panic => v >= MAXPAGE || IsValid(Pte(old(tab), root, v))
      ensures o == Ok ==> Paid(old(tab), tab, root, v, 1) && |old(free)| == |free| + Missing(old(tab), root, v)
    {
      PageOf(v);
      var r := Walk(root, a, true);
      assert SameAt(old(tab), tab, root, v);
      if r.WalkPanic? {
        return Panic;
      } else if r.Null? {
        return Fail;
      } else if IsValid(tab[r.t][r.i]) {
        return Panic;
      }
      ghost var tab1 := tab;
      Store(root, v, r, pte);
      ExtendsTrans(old(tab), tab1, tab, root);
      SamePut(old(tab), tab1, tab, root, v, pte);
      VisitedSame(old(tab), tab1, tab, root, v);
      VisitedPaid(old(tab), tab, root, v);
      o := Ok;
    }

    /** Since memory was (tab0, free0), the n pages from v0 on have taken their tables and nothing more. */
    ghost predicate Charged(tab0: Tables, free0: set<nat>, root: int, v0: nat, n: nat)
      reads this
    {
      Paid(tab0, tab, root, v0, n) && |free0| == |free| + TablesFor(tab0, root, v0, n)
    }

    /** Since then, those pages and no others have been mapped, and tables have been added for them. */
    ghost predicate Mapping(tab0: Tables, free0: set<nat>, root: int, v0: nat, n: nat, frame: nat, perm: nat)
      reads this
    {
      && Valid() && Tree(tab, root) && Extends(tab0, tab, root) && Took(tab0, free0, tab, free)
      && perm < 1024 && Mapped(tab0, tab, root, v0, n, frame, perm)
    }

    /** Why mappages stops at page v0 + n: the frames do not suffice for its tables, or it cannot be mapped. */
    ghost predicate Stops(o: Outcome, tab0: Tables, free0: set<nat>, root: int, v0: nat, n: nat)
      reads this
    {
      match o
      case Ok => false
      case Fail => v0 + n < MAXPAGE && free == {} && |free0| < TablesFor(tab0, root, v0, n + 1)
      case Panic => v0 + n >= MAXPAGE || IsValid(Pte(tab0, root, v0 + n))
    }

    /** One turn of mappages: n pages from v0 on have been mapped since memory was (tab0, free0). */
    method MapNext(root: int, a: nat, p: nat, perm: nat, ghost tab0: Tables, ghost free0: set<nat>, ghost v0: nat,
                   ghost n: nat,
                   ghost frame: nat) returns (o: Outcome)
      requires a == (v0 + n) * 4096 && p / 4096 == frame + n
      requires Mapping(tab0, free0, root, v0, n, frame, perm) && Charged(tab0, free0, root, v0, n)
      modifies this`tab, this`free
      ensures Mapping(tab0, free0, root, v0, if o == Ok then n + 1 else n, frame, perm)
      ensures o == Ok ==> v0 + n < MAXPAGE && Charged(tab0, free0, root, v0, n + 1)
      ensures o != Ok ==> Stops(o, tab0, free0, root, v0, n)
    {
      ghost var tab1 := tab;
      assert MappedAt(tab0, tab, root, v0, n, frame, perm, v0 + n);
      PaidNext(tab0, tab, root, v0, n);
      o := MapOne(root, a, MakePte(p / 4096, perm), v0 + n);
      ExtendsTrans(tab0, tab1, tab, root);
      if o == Ok {
        MappedStep(tab0, tab1, tab, root, v0, n, frame, perm);
        PaidStep(tab0, tab1, tab, root, v0, n);
      } else {
        MappedSame(tab0, tab1, tab, root, v0, n, frame, perm);
      }
    }

    /** The loop of mappages, from page v0 to page v1. */
    method MapRange(root: int, first: nat, last: nat, pa: nat, perm: nat, ghost v0: nat, ghost v1: nat)
      returns (o: Outcome, ghost n: nat)
      requires Valid() && Tree(tab, root) && perm < 1024 && first == v0 * 4096 && last == v1 * 4096
      modifies this`tab, this`free
      ensures Mapping(old(tab), old(free), root, v0, n, pa / 4096, perm) && MapEnd(o, v0, v1, n)
      ensures o == Ok ==> Charged(old(tab), old(free), root, v0, n)
      ensures o != Ok ==> Stops(o, old(tab), old(free), root, v0, n)
      ensures n > 0 ==> v0 + n <= MAXPAGE
    {
      var a, p := first, pa;
      o, n := Ok, 0;
      PaidNone(tab, root, v0);
      while true
        invariant a == (v0 + n) * 4096 && p / 4096 == pa / 4096 + n
        invariant (n > 0 ==> v0 + n <= MAXPAGE) && (v0 <= v1 ==> v0 + n <= v1)
        invariant Mapping(old(tab), old(free), root, v0, n, pa / 4096, perm)
        invariant Charged(old(tab), old(free), root, v0, n)
        decreases MAXPAGE - (v0 + n)
      {
        NextFrame(p);
        o := MapNext(root, a, p, perm, old(tab), old(free), v0, n, pa / 4096);
        if o != Ok {
          return;
        }
        n := n + 1;
        if a == last {
          return;
        }
        a, p := a + 4096, p + 4096;
      }
    }

    /** mappages: maps the pages of the range in turn, n of them, until it has mapped the last, is out of memory, or
        panics. It is out of memory exactly when the frames do not suffice for the tables of the next page. */
    method MapPages(root: int, va: nat, size: nat, pa: nat, perm: nat) returns (o: Outcome, ghost n: nat)
      requires Valid() && Tree(tab, root) && perm < 1024 && va < WORD && size < WORD
      modifies this`tab, this`free
      ensures Mapping(old(tab), old(free), root, va / 4096, n, pa / 4096, perm)
      ensures MapEnd(o, va / 4096, LastPage(va, size), n)
      ensures o == Ok ==> Charged(old(tab), old(free), root, va / 4096, n)
      ensures o != Ok ==> Stops(o, old(tab), old(free), root, va / 4096, n)
      ensures n > 0 ==> va / 4096 + n <= MAXPAGE
    {
      var a, last := PgRoundDown(va), PgRoundDown((va + size + WORD - 1) % WORD);
      o, n := MapRange(root, a, last, pa, perm, va / 4096, LastPage(va, size));
    }

    method Kfree(f: nat)
      requires Valid() && f in page
      modifies this`free, this`page
      ensures Valid() && free == old(free) + {f} && page == old(page) - {f}
    {
      page, free := page - {f}, free + {f};
    }

    /** Unmaps one page. */
    method UnmapOne(root: int, a: nat, doFree: bool, ghost v: nat) returns (panics: bool)
      requires Valid() && Tree(tab, root) && a == v * 4096
      requires doFree && v < MAXPAGE && Leaf(Pte(tab, root, v)) ==> Frame(Pte(tab, root, v)) in page
      modifies this
      ensures Valid() && Tree(tab, root) && Extends(old(tab), tab, root) && tab.Keys == old(tab).Keys
      ensures panics <==> v >= MAXPAGE || !Leaf(Pte(old(tab), root, v))
      ensures if panics then tab == old(tab) else Put(old(tab), tab, root, v, 0)
      ensures var gone := if doFree && !panics then {Frame(Pte(old(tab), root, v))} else {};
              page == old(page) - gone && free == old(free) + gone
    {
      PageOf(v);
      var r := Walk(root, a, false);
      if r.WalkPanic? || r.Null? {
        return true;
      }
      var pte := tab[r.t][r.i];
      if !IsValid(pte) || Flags(pte) == 1 {
        return true;
      }
      if doFree {
        Kfree(Frame(pte));
      }
      Store(root, v, r, 0);
      panics := false;
    }

    /** One turn of uvmunmap: n pages from v0 on have been unmapped since memory was (tab0, page0, free0). */
    method UnmapNext(root: int, a: nat, doFree: bool, ghost tab0: Tables, ghost page0: map<int, seq<nat>>,
                     ghost free0: set<nat>, ghost v0: nat, ghost n: nat, ghost hi: nat)
        returns (panics: bool)
      requires Unmapping(doFree, tab0, page0, free0, root, v0, n) && a == (v0 + n) * 4096
      requires doFree ==> Owned(tab0, root, page0.Keys, v0, hi) && (v0 + n < hi || !Leaf(Pte(tab0, root, v0 + n)))
      modifies this
      ensures panics <==> v0 + n >= MAXPAGE || !Leaf(Pte(tab0, root, v0 + n))
      ensures Unmapping(doFree, tab0, page0, free0, root, v0, if panics then n else n + 1)
    {
      ghost var tab1 := tab;
      assert UnmappedAt(tab0, tab, root, v0, n, v0 + n);
      if doFree && Leaf(Pte(tab, root, v0 + n)) {
        forall v: nat | v0 <= v < v0 + n ensures Leaf(Pte(tab0, root, v)) {
          assert UnmappedAt(tab0, tab, root, v0, n, v);
        }
        NextOwned(tab0, root, page0.Keys, v0, n, hi);
      }
      panics := UnmapOne(root, a, doFree, v0 + n);
      ExtendsTrans(tab0, tab1, tab, root);
      if !panics {
        UnmappedStep(tab0, tab1, tab, root, v0, n);
        FramesStep(tab0, root, v0, n);
      }
    }

    /** With doFree, the frames of the n pages from v0 on have gone back to the free ones. */
    ghost predicate Freed(doFree: bool, tab0: Tables, root: int, v0: nat, n: nat, page0: map<int, seq<nat>>,
                          free0: set<nat>)
      reads this`page, this`free
    {
      var gone := if doFree then FramesOf(tab0, root, v0, n) else {};
      page == page0 - gone && free == free0 + gone
    }

    /** Since memory was (tab0, page0, free0), the n pages from v0 on and no others have been unmapped. */
    ghost predicate Unmapping(doFree: bool, tab0: Tables, page0: map<int, seq<nat>>, free0: set<nat>, root: int,
                              v0: nat, n: nat)
      reads this
    {
      && Valid() && Tree(tab, root) && Extends(tab0, tab, root) && tab.Keys == tab0.Keys
      && Unmapped(tab0, tab, root, v0, n) && Freed(doFree, tab0, root, v0, n, page0, free0)
    }

    /** The loop of uvmunmap, from page v0 to page v1. */
    method UnmapRange(root: int, first: nat, last: nat, doFree: bool, ghost v0: nat, ghost v1: nat, ghost hi: nat)
      returns (panics: bool, ghost n: nat)
      requires Valid() && Tree(tab, root) && v0 <= hi && first == v0 * 4096 && last == v1 * 4096
      requires doFree ==> Owned(tab, root, page.Keys, v0, hi) && (v0 < hi == v1 + 1 || !Leaf(Pte(tab, root, hi)))
      modifies this
      ensures Unmapping(doFree, old(tab), old(page), old(free), root, v0, n)
      ensures MapEnd(if panics then Panic else Ok, v0, v1, n)
      ensures panics ==> v0 + n >= MAXPAGE || !Leaf(Pte(old(tab), root, v0 + n))
      ensures n > 0 ==> v0 + n <= MAXPAGE
    {
      var a := first;
      panics, n := false, 0;
      while true
        invariant a == (v0 + n) * 4096
        invariant (n > 0 ==> v0 + n <= MAXPAGE) && (v0 <= v1 ==> v0 + n <= v1)
        invariant Unmapping(doFree, old(tab), old(page), old(free), root, v0, n)
        invariant doFree ==> v0 + n <= hi
        decreases MAXPAGE - (v0 + n)
      {
        panics := UnmapNext(root, a, doFree, old(tab), old(page), old(free), v0, n, hi);
        if panics {
          return;
        }
        n := n + 1;
        if a == last {
          return;
        }
        a := a + 4096;
      }
    }

    /** uvmunmap: unmaps the pages of the range in turn, n of them, until the last, or panics at a page that is not
        mapped. With doFree, the pages must own their frames, up to the last or to one that is not mapped. */
    method Unmap(root: int, va: nat, size: nat, doFree: bool, ghost hi: nat) returns (panics: bool, ghost n: nat)
      requires Valid() && Tree(tab, root) && va < WORD && size < WORD && va / 4096 <= hi
      requires doFree ==> Owned(tab, root, page.Keys, va / 4096, hi)
      requires doFree ==> va / 4096 < hi == LastPage(va, size) + 1 || !Leaf(Pte(tab, root, hi))
      modifies this
      ensures Unmapping(doFree, old(tab), old(page), old(free), root, va / 4096, n)
      ensures MapEnd(if panics then Panic else Ok, va / 4096, LastPage(va, size), n)
      ensures panics ==> va / 4096 + n >= MAXPAGE || !Leaf(Pte(old(tab), root, va / 4096 + n))
      ensures n > 0 ==> va / 4096 + n <= MAXPAGE
    {
      var a, last := PgRoundDown(va), PgRoundDown((va + size + WORD - 1) % WORD);
      panics, n := UnmapRange(root, a, last, doFree, va / 4096, LastPage(va, size), hi);
    }

    /** uvmdealloc: unmaps and frees the pages that only the old size needs. */
    method Dealloc(root: int, oldsz: nat, newsz: nat) returns (sz: nat, panics: bool, ghost n: nat)
      requires Valid() && Tree(tab, root) && oldsz < WORD && newsz < WORD
      requires newsz < oldsz && PgRoundUp(newsz) < PgRoundUp(oldsz) ==>
                 Owned(tab, root, page.Keys, PgRoundUp(newsz) / 4096, PgRoundUp(oldsz) / 4096)
      modifies this
      ensures Valid() && Tree(tab, root) && Extends(old(tab), tab, root) && tab.Keys == old(tab).Keys
      ensures sz == if newsz < oldsz then newsz else oldsz
      ensures Unmapped(old(tab), tab, root, PgRoundUp(newsz) / 4096, n)
      ensures Freed(true, old(tab), root, PgRoundUp(newsz) / 4096, n, old(page), old(free))
      ensures newsz >= oldsz ==> M() == old(M()) && !panics
      ensures !panics ==>
                n ==
                  if newsz < oldsz && PgRoundUp(newsz) < PgRoundUp(oldsz)
                  then PgRoundUp(oldsz) / 4096 - PgRoundUp(newsz) / 4096
                  else 0
      ensures panics ==>
                var v := PgRoundUp(newsz) / 4096 + n;
                v < PgRoundUp(oldsz) / 4096 && (v >= MAXPAGE || !Leaf(Pte(old(tab), root, v)))
    {
      panics, n := false, 0;
      if newsz >= oldsz {
        return oldsz, panics, n;
      }
      var newup := PgRoundUp(newsz);
      if newup < PgRoundUp(oldsz) {
        DeallocRange(oldsz, newsz);
        panics, n := Unmap(root, newup, oldsz - newup, true, PgRoundUp(oldsz) / 4096);
      }
      sz := newsz;
    }

    /** The same between two page boundaries. */
    method DeallocPages(root: int, a: nat, base: nat, ghost lo: nat, ghost hi: nat) returns (panics: bool, ghost n: nat)
      requires Valid() && Tree(tab, root) && base == lo * 4096 && a == hi * 4096 && lo <= hi
      requires (lo < hi ==> hi <= MAXPAGE) && a < WORD
      requires Owned(tab, root, page.Keys, lo, hi)
      modifies this
      ensures Valid() && Tree(tab, root) && Extends(old(tab), tab, root) && tab.Keys == old(tab).Keys
      ensures Unmapped(old(tab), tab, root, lo, n) && Freed(true, old(tab), root, lo, n, old(page), old(free))
      ensures if panics then lo + n < hi && !Leaf(Pte(old(tab), root, lo + n)) else lo + n == hi
    {
      UndoRange(lo, hi - lo);
      var sz;
      sz, panics, n := Dealloc(root, a, base);
      if lo == hi {
        assert n == 0;
        forall v: nat ensures UnmappedAt(old(tab), tab, root, lo, n, v) { }
        assert FramesOf(tab, root, lo, n) == {};
      }
    }

    /** Takes a frame, fills it and maps it at one page. */
    method AllocMap(root: int, a: nat, content: seq<nat>, perm: nat, ghost v: nat) returns (o: Outcome, ghost f: nat)
      requires Valid() && Tree(tab, root) && perm < 1024 && a == v * 4096 && a + 4096 <= WORD && |content| == 4096
      modifies this
      ensures Valid() && Tree(tab, root) && Extends(old(tab), tab, root)
      ensures o == Ok ==> v < MAXPAGE && GetsOne(old(M()), M(), root, v, f, Fill(content, perm))
      ensures o == Ok ==> Paid(old(tab), tab, root, v, 1) && |old(free)| == |free| + 1 + Missing(old(tab), root, v)
      ensures o == Fail ==>
                |free| <= 1 && page == old(page) && Same(old(tab), tab, root) && Took(old(tab), old(free), tab, free)
      ensures o == Fail ==> |old(free)| <= Missing(old(tab), root, v)
      ensures o == Panic ==> v >= MAXPAGE || IsValid(Pte(old(tab), root, v))
    {
      f := 0;
      var mem := Kalloc();
      if mem == 0 {
        return Fail, f;
      }
      f := mem;
      page := page[mem := content];
      assert Valid();
      o := MapFrame(root, a, mem, perm, v);
      if o == Fail {
        Kfree(mem);
      }
    }

    /** mappages of one page. */
    method MapFrame(root: int, a: nat, mem: nat, perm: nat, ghost v: nat) returns (o: Outcome)
      requires Valid() && Tree(tab, root) && perm < 1024 && a == v * 4096 && a + 4096 <= WORD
      modifies this`tab, this`free
      ensures Valid() && Tree(tab, root) && Extends(old(tab), tab, root) && Took(old(tab), old(free), tab, free)
      ensures o == Ok ==>
                v < MAXPAGE && Put(old(tab), tab, root, v, MakePte(mem, perm)) && !IsValid(Pte(old(tab), root, v))
      ensures o == Ok ==> Paid(old(tab), tab, root, v, 1) && |old(free)| == |free| + Missing(old(tab), root, v)
      ensures o == Fail ==>
                v < MAXPAGE && Same(old(tab), tab, root) && |old(free)| < Missing(old(tab), root, v) && free == {}
      ensures o == Panic ==> v >= MAXPAGE || IsValid(Pte(old(tab), root, v))
    {
      ghost var n;
      PageOf(v);
      PageOf(mem);
      OnePage(v);
      OneCosts(tab, root, v);
      o, n := MapPages(root, a, 4096, mem * 4096, perm);
      MappedOne(old(tab), tab, root, v, n, mem, perm);
    }

    /** Since memory was m, the n pages from v0 on have taken their frames and tables and nothing more. */
    ghost predicate Costed(m: Mem, root: int, v0: nat, n: nat)
      reads this
    {
      Paid(m.tab, tab, root, v0, n) && |m.free| == |free| + Cost(m.tab, root, v0, n)
    }

    /** Gets one more page, after those got since memory was m. */
    method GetPage(root: int, a: nat, content: seq<nat>, perm: nat, ghost m: Mem, ghost v0: nat, ghost fills: seq<Fill>)
      returns (o: Outcome)
      requires OkMem(m) && Growing(m, root, v0, fills) && OkFill(Fill(content, perm))
      requires a == (v0 + |fills|) * 4096 && a + 4096 <= WORD
      modifies this
      ensures o == Ok ==> v0 + |fills| < MAXPAGE && Growing(m, root, v0, fills + [Fill(content, perm)])
      ensures o == Ok ==> Paid(old(tab), tab, root, v0 + |fills|, 1)
      ensures o == Ok ==> |old(free)| == |free| + 1 + Missing(old(tab), root, v0 + |fills|)
      ensures o == Fail ==> Growing(m, root, v0, fills) && |free| <= 1
      ensures o == Fail ==> |old(free)| <= Missing(old(tab), root, v0 + |fills|)
      ensures o == Panic ==> v0 + |fills| >= MAXPAGE || IsValid(Pte(m.tab, root, v0 + |fills|))
    {
      ghost var m1 := M();
      ghost var f;
      assert GotAt(m, m1, root, v0, fills, v0 + |fills|);
      o, f := AllocMap(root, a, content, perm, v0 + |fills|);
      ExtendsTrans(m.tab, m1.tab, tab, root);
      if o == Ok {
        GotStep(m, m1, M(), root, v0, fills, f, Fill(content, perm));
      } else if o == Fail {
        GotSame(m, m1, M(), root, v0, fills);
      }
    }

    /** The same, with what it costs. */
    method GetNext(root: int, a: nat, content: seq<nat>, perm: nat, ghost m: Mem, ghost v0: nat, ghost fills: seq<Fill>)
      returns (o: Outcome)
      requires OkMem(m) && Growing(m, root, v0, fills) && OkFill(Fill(content, perm))
      requires a == (v0 + |fills|) * 4096 && a + 4096 <= WORD && Costed(m, root, v0, |fills|)
      modifies this
      ensures o == Ok ==> v0 + |fills| < MAXPAGE && Growing(m, root, v0, fills + [Fill(content, perm)])
      ensures o == Ok ==> Costed(m, root, v0, |fills| + 1)
      ensures o == Fail ==> Growing(m, root, v0, fills) && |free| <= 1 && |m.free| < Cost(m.tab, root, v0, |fills| + 1)
      ensures o == Panic ==> v0 + |fills| >= MAXPAGE || IsValid(Pte(m.tab, root, v0 + |fills|))
    {
      ghost var n, tab1 := |fills|, tab;
      CostNext(m.tab, tab, root, v0, n, |m.free|, |free|);
      o := GetPage(root, a, content, perm, m, v0, fills);
      if o == Ok {
        PaidStep(m.tab, tab1, tab, root, v0, n);
      }
    }

    /** Takes back the pages got since memory was m. */
    method Undo(root: int, a: nat, base: nat, ghost m: Mem, ghost v0: nat, ghost fills: seq<Fill>)
      requires base == v0 * 4096 && a == (v0 + |fills|) * 4096 && (fills != [] ==> v0 + |fills| <= MAXPAGE) && a < WORD
      requires OkMem(m) && Growing(m, root, v0, fills) && (forall i :: 0 <= i < |fills| ==> OkFill(fills[i]))
      modifies this
      ensures Restored(m, root) && |free| <= |old(free)| + |fills|
    {
      ghost var m1 := M();
      var panics;
      ghost var n;
      ghost var hi := v0 + |fills|;
      GotOwned(m, m1, root, v0, fills, tab, page.Keys, hi);
      panics, n := DeallocPages(root, a, base, v0, hi);
      ExtendsTrans(m.tab, m1.tab, tab, root);
      GotUnmaps(m, m1, root, v0, fills, n);
      GotUndone(m, m1, M(), root, v0, fills);
      FramesCard(m1.tab, root, v0, |fills|);
    }

    /** One turn of uvmalloc. */
    method AllocNext(root: int, a: nat, base: nat, ghost m: Mem, ghost v0: nat, ghost n: nat) returns (o: Outcome)
      requires base == v0 * 4096 && a == (v0 + n) * 4096 && (n > 0 ==> v0 + n <= MAXPAGE) && a + 4096 <= WORD
      requires OkMem(m) && Growing(m, root, v0, ZeroFills(n)) && Costed(m, root, v0, n)
      modifies this
      ensures o == Ok ==> v0 + n < MAXPAGE && Growing(m, root, v0, ZeroFills(n + 1)) && Costed(m, root, v0, n + 1)
      ensures o == Fail ==> Restored(m, root) && |free| <= n + 1 && |m.free| < Cost(m.tab, root, v0, n + 1)
      ensures o == Panic ==> v0 + n >= MAXPAGE || IsValid(Pte(m.tab, root, v0 + n))
    {
      o := GetNext(root, a, seq(4096, j => 0), 30, m, v0, ZeroFills(n));
      assert ZeroFills(n + 1) == ZeroFills(n) + [Fill(seq(4096, j => 0), 30)];
      if o == Fail {
        Undo(root, a, base, m, v0, ZeroFills(n));
      }
    }

    /** The loop of uvmalloc, from page v0 on. */
    method AllocFrom(root: int, base: nat, newsz: nat, ghost v0: nat) returns (o: Outcome, ghost n: nat)
      requires Valid() && Tree(tab, root) && newsz < WORD && base == v0 * 4096 < WORD
      modifies this
      ensures o == Ok ==>
                && Growing(old(M()), root, v0, ZeroFills(n)) && newsz <= (v0 + n) * 4096
                && (n > 0 ==> (v0 + n - 1) * 4096 < newsz && v0 + n <= MAXPAGE)
      ensures o == Fail ==> Restored(old(M()), root) && (v0 + n) * 4096 < newsz && |free| <= n + 1
      ensures Cost(old(tab), root, v0, n) <= |old(free)|
      ensures o == Fail ==> |old(free)| < Cost(old(tab), root, v0, n + 1)
      ensures o == Panic ==> (v0 + n) * 4096 < newsz && (v0 + n >= MAXPAGE || IsValid(Pte(old(tab), root, v0 + n)))
    {
      var a := base;
      ghost var m := M();
      o, n := Ok, 0;
      GotNone(m, root, v0);
      PaidNone(tab, root, v0);
      assert ZeroFills(0) == [];
      while a < newsz
        invariant a == (v0 + n) * 4096 && (n > 0 ==> v0 + n <= MAXPAGE && (v0 + n - 1) * 4096 < newsz) && o == Ok
        invariant Growing(m, root, v0, ZeroFills(n)) && Costed(m, root, v0, n)
        decreases MAXPAGE - (v0 + n)
      {
        o := AllocNext(root, a, base, m, v0, n);
        if o != Ok {
          return;
        }
        n := n + 1;
        a := a + 4096;
      }
    }

    /** uvmalloc: maps fresh zeroed pages, n of them, from the old size up to the new one. Out of memory, it takes back
        what it has mapped and returns 0. */
    method Alloc(root: int, oldsz: nat, newsz: nat) returns (sz: nat, panics: bool, ghost n: nat)
      requires Valid() && Tree(tab, root) && oldsz < WORD && newsz < WORD
      modifies this
      ensures newsz < oldsz ==> sz == oldsz && !panics && M() == old(M())
      ensures newsz >= oldsz && !panics && sz == newsz > 0 ==>
                && Growing(old(M()), root, PgRoundUp(oldsz) / 4096, ZeroFills(n))
                && n == PagesBetween(PgRoundUp(oldsz), newsz)
                && UserGrown(old(M()), M(), root, PgRoundUp(oldsz),
                             if PgRoundUp(oldsz) < newsz then PgRoundUp(newsz) else PgRoundUp(oldsz))
      ensures newsz >= oldsz && !panics && (sz != newsz || newsz == 0) ==> sz == 0 && Restored(old(M()), root)
      ensures newsz > 0 && newsz >= oldsz && !panics && sz == 0 ==>
                (PgRoundUp(oldsz) / 4096 + n) * 4096 < newsz && |free| <= n + 1
      ensures newsz >= oldsz ==> Cost(old(tab), root, PgRoundUp(oldsz) / 4096, n) <= |old(free)|
      ensures newsz > 0 && newsz >= oldsz && !panics && sz == 0 ==>
                |old(free)| < Cost(old(tab), root, PgRoundUp(oldsz) / 4096, n + 1)
      ensures panics ==>
                var v := PgRoundUp(oldsz) / 4096 + n;
                v * 4096 < newsz && (v >= MAXPAGE || IsValid(Pte(old(tab), root, v)))
    {
      if newsz < oldsz {
        return oldsz, false, 0;
      }
      var o;
      o, n := AllocFrom(root, PgRoundUp(oldsz), newsz, PgRoundUp(oldsz) / 4096);
      if o == Ok {
        PagesCounted(PgRoundUp(oldsz) / 4096, n, newsz);
        PagesAdded(oldsz, newsz, n);
        GrownByZeros(old(M()), M(), root, PgRoundUp(oldsz) / 4096, n);
        if newsz == 0 {
          GotNothing(old(M()), M(), root, PgRoundUp(oldsz) / 4096, ZeroFills(n));
        }
      }
      return if o == Ok then newsz else 0, o == Panic, n;
    }

    /** uvmunmap of the first hi pages, which does not end well when there is none. */
    method UnmapFirst(dst: int, i: nat, ghost hi: nat) returns (panics: bool, ghost n: nat)
      requires Valid() && Tree(tab, dst) && i == hi * 4096 && hi <= MAXPAGE
      requires Owned(tab, dst, page.Keys, 0, hi) && (hi == 0 ==> !Leaf(Pte(tab, dst, 0)))
      modifies this
      ensures Valid() && Tree(tab, dst) && Extends(old(tab), tab, dst) && tab.Keys == old(tab).Keys
      ensures Unmapped(old(tab), tab, dst, 0, n) && Freed(true, old(tab), dst, 0, n, old(page), old(free))
      ensures if panics then hi == 0 || (n < hi && !Leaf(Pte(old(tab), dst, n))) else n == hi > 0
    {
      UnmapAll(hi);
      panics, n := Unmap(dst, 0, i, true, hi);
    }

    /** The error exit of uvmcopy: uvmunmap of the pages copied so far, which panics when there is none. */
    method UndoCopy(dst: int, i: nat, ghost m: Mem, ghost fills: seq<Fill>) returns (panics: bool)
      requires i == |fills| * 4096 && |fills| <= MAXPAGE && !IsValid(Pte(m.tab, dst, 0))
      requires OkMem(m) && Growing(m, dst, 0, fills) && (forall k :: 0 <= k < |fills| ==> OkFill(fills[k]))
      modifies this
      ensures panics <==> fills == []
      ensures !panics ==> Restored(m, dst) && |free| <= |old(free)| + |fills|
    {
      ghost var m1 := M();
      ghost var n;
      ghost var hi := |fills|;
      GotOwned(m, m1, dst, 0, fills, tab, page.Keys, hi);
      assert GotAt(m, m1, dst, 0, fills, 0);
      panics, n := UnmapFirst(dst, i, hi);
      GotUnmaps(m, m1, dst, 0, fills, n);
      if !panics {
        ExtendsTrans(m.tab, m1.tab, tab, dst);
        GotUndone(m, m1, M(), dst, 0, fills);
        FramesCard(m1.tab, dst, 0, |fills|);
      }
    }

    /** The entry of a page that must be present. */
    method PresentPte(src: int, i: nat, ghost v: nat) returns (ok: bool, pte: nat)
      requires Valid() && Tree(tab, src) && i == v * 4096
      modifies this`tab, this`free
      ensures tab == old(tab) && free == old(free)
      ensures ok <==> v < MAXPAGE && IsValid(Pte(tab, src, v))
      ensures ok ==> pte == Pte(tab, src, v)
    {
      PageOf(v);
      var r := Walk(src, i, false);
      if r.WalkPanic? || r.Null? {
        return false, 0;
      }
      pte := tab[r.t][r.i];
      ok := IsValid(pte);
    }

    /** One turn of uvmcopy: n pages have been copied since memory was m. */
    method CopyNext(src: int, dst: int, i: nat, ghost m: Mem, ghost n: nat) returns (o: Outcome)
      requires i == n * 4096 && n <= MAXPAGE && OkMem(m) && Tree(m.tab, src) && Separate(m.tab, dst, src)
      requires Growing(m, dst, 0, CopyFills(m, src, n)) && PresentAt(m, src, n) && !IsValid(Pte(m.tab, dst, n))
      requires Costed(m, dst, 0, n)
      modifies this
      ensures o == Ok ==> n < MAXPAGE && IsValid(Pte(m.tab, src, n)) && Growing(m, dst, 0, CopyFills(m, src, n + 1))
      ensures o == Ok ==> Costed(m, dst, 0, n + 1)
      ensures o == Fail ==>
                Growing(m, dst, 0, CopyFills(m, src, n)) && |free| <= 1 && |m.free| < Cost(m.tab, dst, 0, n + 1)
      ensures o == Panic ==> n >= MAXPAGE || !IsValid(Pte(m.tab, src, n))
    {
      var ok, content, perm := SourcePage(src, dst, i, m, n);
      if !ok {
        return Panic;
      }
      o := GetNext(dst, i, content, perm, m, 0, CopyFills(m, src, n));
      CopyFillsNext(m, src, n);
    }

    /** The page of src to be copied next. */
    method SourcePage(src: int, ghost dst: int, i: nat, ghost m: Mem, ghost n: nat)
      returns (ok: bool, content: seq<nat>, perm: nat)
      requires i == n * 4096 && OkMem(m) && Tree(m.tab, src) && Separate(m.tab, dst, src)
      requires Growing(m, dst, 0, CopyFills(m, src, n)) && PresentAt(m, src, n)
      modifies this`tab, this`free
      ensures tab == old(tab) && free == old(free)
      ensures ok <==> n < MAXPAGE && IsValid(Pte(m.tab, src, n))
      ensures ok ==> OkFill(Fill(content, perm)) && Fill(content, perm) == CopyFill(m, src, n)
    {
      OtherTreeKept(m.tab, tab, dst, src);
      assert SameAt(m.tab, tab, src, n);
      var pte;
      ok, pte := PresentPte(src, i, n);
      if !ok {
        return false, [], 0;
      }
      CopyFillOk(m, src, n);
      content, perm := page[Frame(pte)], Flags(pte);
    }

    /** uvmcopy out of memory. */
    method CopyFailed(src: int, dst: int, i: nat, ghost m: Mem, ghost n: nat) returns (panics: bool)
      requires i == n * 4096 && n <= MAXPAGE && !IsValid(Pte(m.tab, dst, 0)) && OkMem(m)
      requires Growing(m, dst, 0, CopyFills(m, src, n)) && AllValid(m.tab, src, n) && Present(m, src, n)
      modifies this
      ensures panics <==> n == 0
      ensures !panics ==> Restored(m, dst) && |free| <= |old(free)| + n
    {
      forall k: nat | k < n ensures OkFill(CopyFills(m, src, n)[k]) {
        assert PresentAt(m, src, k) && IsValid(Pte(m.tab, src, k));
        CopyFillOk(m, src, k);
      }
      panics := UndoCopy(dst, i, m, CopyFills(m, src, n));
    }

    /** The first n pages of src are copied, and paid for. */
    ghost predicate CopiedUpTo(m: Mem, src: int, dst: int, n: nat)
      reads this
    {
      n <= MAXPAGE && Costed(m, dst, 0, n) && Growing(m, dst, 0, CopyFills(m, src, n)) && AllValid(m.tab, src, n)
    }

    /** One turn of uvmcopy, with its error exit. */
    method CopyTurn(src: int, dst: int, i: nat, ghost m: Mem, ghost n: nat, ghost all: nat) returns (o: Outcome)
      requires i == n * 4096 && n < all && OkMem(m) && Tree(m.tab, src) && Separate(m.tab, dst, src)
      requires CopiedUpTo(m, src, dst, n) && Present(m, src, all) && Empty(m.tab, dst, all)
      modifies this
      ensures o == Ok ==> CopiedUpTo(m, src, dst, n + 1)
      ensures o == Fail ==> n > 0 && Restored(m, dst) && |free| <= n + 1 && |m.free| < Cost(m.tab, dst, 0, n + 1)
      ensures o == Panic ==>
                (n == 0 && |m.free| < Cost(m.tab, dst, 0, 1)) || n >= MAXPAGE || !IsValid(Pte(m.tab, src, n))
    {
      assert PresentAt(m, src, n) && !IsValid(Pte(m.tab, dst, n)) && !IsValid(Pte(m.tab, dst, 0));
      o := CopyNext(src, dst, i, m, n);
      if o == Fail {
        var panics := CopyFailed(src, dst, i, m, n);
        o := if panics then Panic else Fail;
      } else if o == Ok {
        AllValidNext(m.tab, src, n);
      }
    }

    /** The loop of uvmcopy over all pages of sz bytes, from memory m on. */
    method CopyPages(src: int, dst: int, sz: nat, ghost m: Mem, ghost all: nat) returns (o: Outcome, ghost n: nat)
      requires OkMem(m) && Tree(m.tab, src) && Separate(m.tab, dst, src) && Present(m, src, all)
      requires Empty(m.tab, dst, all)
      requires all == PagesBetween(0, sz) && Growing(m, dst, 0, CopyFills(m, src, 0)) && Costed(m, dst, 0, 0)
      modifies this
      ensures Cost(m.tab, dst, 0, n) <= |m.free| && AllValid(m.tab, src, n) && (o == Panic ==> n < all)
      ensures o == Ok ==> n == all && n <= MAXPAGE && Growing(m, dst, 0, CopyFills(m, src, n))
      ensures o == Fail ==> 0 < n < all && Restored(m, dst) && |free| <= n + 1 && |m.free| < Cost(m.tab, dst, 0, n + 1)
      ensures o == Panic ==>
                (n == 0 && |m.free| < Cost(m.tab, dst, 0, 1)) || n >= MAXPAGE || !IsValid(Pte(m.tab, src, n))
    {
      var i := 0;
      o, n := Ok, 0;
      while i < sz
        invariant i == n * 4096 && n <= all && o == Ok && CopiedUpTo(m, src, dst, n)
        decreases MAXPAGE - n
      {
        PagesLeft(n, sz);
        o := CopyTurn(src, dst, i, m, n, all);
        if o != Ok {
          return;
        }
        n := n + 1;
        i := i + 4096;
      }
      PagesLeft(n, sz);
    }

    /** uvmcopy: gives dst, empty up to there, copies of the first sz bytes of src, and leaves src as it is. Out of
        memory at page n, it takes back what it has copied and returns -1, but panics if that is nothing; it also panics
        at a page src does not have. It is out of memory exactly when the frames do not suffice for the tables and pages
        up to there. */
    method Copy(src: int, dst: int, sz: nat) returns (o: Outcome, ghost n: nat)
      requires Valid() && Tree(tab, src) && Tree(tab, dst) && Separate(tab, dst, src) && sz < WORD
      requires Present(M(), src, PagesBetween(0, sz)) && Empty(tab, dst, PagesBetween(0, sz))
      modifies this
      ensures Cost(old(tab), dst, 0, n) <= |old(free)| && AllValid(old(tab), src, n)
      ensures o == Panic ==> n < PagesBetween(0, sz)
      ensures o == Ok ==> n == PagesBetween(0, sz) && Growing(old(M()), dst, 0, CopyFills(old(M()), src, n))
      ensures o == Ok ==> forall v :: 0 <= v < n ==> CopiedAt(old(M()), M(), src, dst, v)
      ensures o == Fail ==> 0 < n < PagesBetween(0, sz) && Restored(old(M()), dst) && |free| <= n + 1
      ensures o == Fail ==> |old(free)| < Cost(old(tab), dst, 0, n + 1)
      ensures o != Panic ==> Tree(tab, src) && Separate(tab, dst, src) && Same(old(tab), tab, src)
      ensures o == Panic && n > 0 ==> n >= MAXPAGE || !IsValid(Pte(old(tab), src, n))
      ensures sz > 0 ==>
                (o == Panic && n == 0 <==> !IsValid(Pte(old(tab), src, 0)) || |old(free)| <= Missing(old(tab), dst, 0))
    {
      ghost var m := M();
      GotNone(m, dst, 0);
      PaidNone(tab, dst, 0);
      assert CopyFills(m, src, 0) == [];
      o, n := CopyPages(src, dst, sz, m, PagesBetween(0, sz));
      PagesLeft(0, sz);
      FirstPage(m, src, dst, sz, o == Panic, n);
      if o != Panic {
        OtherTreeKept(m.tab, tab, dst, src);
      }
      if o == Ok {
        forall v | 0 <= v < n ensures CopiedAt(m, M(), src, dst, v) {
          CopyIsSame(m, M(), src, dst, n, v);
        }
      }
    }

    /** With no frame left, uvmcopy of a process with memory panics. */
    method CopyWithoutMemory(src: int, dst: int, sz: nat) returns (o: Outcome)
      requires Valid() && Tree(tab, src) && Tree(tab, dst) && Separate(tab, dst, src) && 0 < sz < WORD && free == {}
      requires Present(M(), src, PagesBetween(0, sz)) && Empty(tab, dst, PagesBetween(0, sz))
      modifies this
      ensures o == Panic
    {
      ghost var n;
      o, n := Copy(src, dst, sz);
    }

    /** The part of one page that copyout and copyin move at a time. */
    function Chunk(a: nat, len: nat): (n: nat)
      ensures n <= len && a % 4096 + n <= 4096 && (len > 0 ==> n > 0)
      ensures n < len ==> a + n == PgRoundDown(a) + 4096
    {
      var n := 4096 - (a - PgRoundDown(a));
      if n > len then len else n
    }

    /** copyout: writes src to user memory at dstva, stopping with -1 at the first page that is not mapped for the
        user. */
    method CopyOut(root: int, dstva: nat, src: seq<nat>) returns (r: int, ghost k: nat)
      requires Valid() && Tree(tab, root) && UserOwned(tab, root, page)
      modifies this
      ensures Valid() && tab == old(tab) && free == old(free)
      ensures k <= |src| && Written(tab, root, old(page), page, dstva, src[..k]) && UserMapped(tab, root, dstva, k)
      ensures if r == 0 then k == |src| else r == -1 && k < |src| && UserFrame(tab, root, (dstva + k) / 4096) == 0
    {
      var len, d, from := |src|, dstva, 0;
      k := 0;
      WrittenNothing(tab, root, page, dstva);
      while len > 0
        invariant len == |src| - k && from == k <= |src| && (len > 0 ==> d == dstva + k)
        invariant Valid() && tab == old(tab) && free == old(free) && UserMapped(tab, root, dstva, k)
        invariant Written(tab, root, old(page), page, dstva, src[..k])
        decreases len
      {
        var n := CopyOutPage(root, d, src[from..], old(page), dstva, src[..k]);
        if n == 0 {
          assert src[..k] + src[from..][..n] == src[..k];
          return -1, k;
        }
        UserMappedMore(tab, root, dstva, k, n);
        assert src[..k] + src[from..][..n] == src[..k + n];
        len, from, k := len - n, from + n, k + n;
        d := PgRoundDown(d) + 4096;
      }
      r := 0;
    }

    /** One turn of copyout. */
    method CopyOutPage(root: int, d: nat, src: seq<nat>, ghost page0: Pages, ghost dstva: nat, ghost done: seq<nat>)
      returns (n: nat)
      requires Valid() && Tree(tab, root) && src != [] && d == dstva + |done|
      requires Written(tab, root, page0, page, dstva, done)
      modifies this
      ensures Valid() && tab == old(tab) && free == old(free)
      ensures n == 0 <==> UserFrame(tab, root, d / 4096) == 0
      ensures n <= |src| && Written(tab, root, page0, page, dstva, done + src[..n])
      ensures n > 0 ==> n == Chunk(d, |src|)
    {
      DownPage(d);
      var f := WalkAddr(root, PgRoundDown(d));
      if f == 0 {
        assert done + src[..0] == done;
        return 0;
      }
      n := Chunk(d, |src|);
      ghost var page1 := page;
      ChunkWritten(tab, root, page, d, src[..n]);
      page := page[f := Spliced(page[f], d % 4096, src[..n])];
      WrittenConcat(tab, root, page0, page1, page, dstva, done, src[..n]);
    }

    /** One turn of copyin. */
    method CopyInPage(root: int, d: nat, left: nat, ghost srcva: nat, ghost done: seq<nat>)
      returns (n: nat, c: seq<nat>)
      requires Valid() && Tree(tab, root) && UserOwned(tab, root, page) && left > 0 && d == srcva + |done|
      requires Holds(tab, root, page, srcva, done)
      modifies this`tab, this`free
      ensures tab == old(tab) && free == old(free) && |c| == n <= left
      ensures n == 0 <==> UserFrame(tab, root, d / 4096) == 0
      ensures n > 0 ==> Holds(tab, root, page, srcva, done + c) && n == Chunk(d, left)
    {
      DownPage(d);
      var f := WalkAddr(root, PgRoundDown(d));
      if f == 0 {
        return 0, [];
      }
      n := Chunk(d, left);
      assert UserOwnedAt(tab, root, page, d / 4096, d / 4096);
      ChunkHeld(tab, root, page, srcva, done, n);
      c := page[f][d % 4096..d % 4096 + n];
    }

    /** copyin: reads len bytes of user memory at srcva, stopping with -1 at the first page that is not mapped for the
        user. */
    method CopyIn(root: int, srcva: nat, len: nat) returns (r: int, dst: seq<nat>)
      requires Valid() && Tree(tab, root) && UserOwned(tab, root, page)
      modifies this`tab, this`free
      ensures tab == old(tab) && free == old(free) && |dst| <= len && Holds(tab, root, page, srcva, dst)
      ensures UserMapped(tab, root, srcva, |dst|)
      ensures if r == 0
              then |dst| == len
              else r == -1 && |dst| < len && UserFrame(tab, root, (srcva + |dst|) / 4096) == 0
    {
      var left, d := len, srcva;
      dst := [];
      while left > 0
        invariant left == len - |dst| && |dst| <= len && (left > 0 ==> d == srcva + |dst|)
        invariant tab == old(tab) && free == old(free) && Holds(tab, root, page, srcva, dst)
        invariant UserMapped(tab, root, srcva, |dst|)
        decreases left
      {
        var n, c := CopyInPage(root, d, left, srcva, dst);
        if n == 0 {
          return -1, dst;
        }
        UserMappedMore(tab, root, srcva, |dst|, n);
        dst := dst + c;
        left := left - n;
        d := PgRoundDown(d) + 4096;
      }
      r := 0;
    }

    /** Memory that uvmalloc has added takes what copyout writes to it, all of it. */
    method GrowAndWrite(root: int, oldsz: nat, newsz: nat, d: nat, data: seq<nat>) returns (grown: bool, r: int)
      requires Valid() && Tree(tab, root) && UserOwned(tab, root, page) && oldsz <= newsz < WORD
      requires PgRoundUp(oldsz) <= d && d + |data| <= PgRoundUp(newsz) && data != []
      modifies this
      ensures grown ==> r == 0 && forall i :: 0 <= i < |data| ==> UserByte(tab, root, page, d + i) == data[i]
    {
      var sz, panics;
      ghost var n, k;
      sz, panics, n := Alloc(root, oldsz, newsz);
      grown := !panics && sz == newsz && newsz > 0;
      r := -1;
      if grown {
        RoundsPast(oldsz, newsz);
        ghost var page0 := page;
        forall a: nat | d <= a < d + |data| ensures UserFrame(tab, root, a / 4096) != 0 {
          assert ZeroAt(tab, root, page, a);
        }
        r, k := CopyOut(root, d, data);
        assert data[..k] == data;
        forall i | 0 <= i < |data| ensures UserByte(tab, root, page, d + i) == data[i] {
          assert WrittenAt(tab, root, page0, page, d, data, d + i);
        }
      }
    }

    /** Bytes that copyout has written come back from copyin. */
    method CopyRoundTrip(root: int, va: nat, src: seq<nat>) returns (out: int, back: int, dst: seq<nat>)
      requires Valid() && Tree(tab, root) && UserOwned(tab, root, page)
      modifies this
      ensures out == 0 ==> back == 0 && dst == src
    {
      ghost var k;
      out, k := CopyOut(root, va, src);
      back, dst := CopyIn(root, va, |src|);
      if out == 0 {
        assert src[..k] == src;
        HeldAfterWrite(tab, root, old(page), page, va, src, dst);
      }
    }
  }
}
