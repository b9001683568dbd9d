/** Sv39 page tables (kernel/vm.c) as values: a three-level tree of 512-entry tables that denotes a flat map from page
    numbers to page table entries. Tables are found by frame number, that is physical address / 4096. */
module VmSpec {

  const MAXPAGE := 0x400_0000   // MAXVA / PGSIZE

  // ---------------------------------------------------------------- page table entries

  predicate IsValid(pte: nat) { pte % 2 == 1 }
  predicate IsReadable(pte: nat) { pte / 2 % 2 == 1 }
  predicate IsWritable(pte: nat) { pte / 4 % 2 == 1 }
  predicate IsExecutable(pte: nat) { pte / 8 % 2 == 1 }
  predicate IsUser(pte: nat) { pte / 16 % 2 == 1 }
  function Frame(pte: nat): nat { pte / 1024 }
  function Flags(pte: nat): nat { pte % 1024 }

  /** PA2PTE(pa) | perm | PTE_V */
  function MakePte(frame: nat, perm: nat): nat
    requires perm < 1024
  {
    frame * 1024 + if perm % 2 == 1 then perm else perm + 1
  }

  lemma MadePte(frame: nat, perm: nat)
    requires perm < 1024
    ensures var pte := MakePte(frame, perm);
            IsValid(pte) && Frame(pte) == frame && Flags(pte) == if perm % 2 == 1 then perm else perm + 1
  {
  }

  // ---------------------------------------------------------------- the tree

  datatype Pos = Top | Mid(i: nat) | Low(i: nat, j: nat)

  type Tables = map<int, seq<nat>>

  ghost predicate OkTables(tab: Tables) { forall f :: f in tab ==> f > 0 && |tab[f]| == 512 }

  /** The table entry i of table t leads to, or -1. */
  function Down(tab: Tables, t: int, i: nat): int {
    if t in tab && i < |tab[t]| && IsValid(tab[t][i]) then Frame(tab[t][i]) else -1
  }

  /** The frame of the table at a position of the tree, or -1. */
  function Table(tab: Tables, root: int, pos: Pos): int {
    match pos
    case Top => root
    case Mid(i) => Down(tab, root, i)
    case Low(i, j) => Down(tab, Down(tab, root, i), j)
  }

  ghost predicate OkPos(tab: Tables, root: int, pos: Pos) {
    Table(tab, root, pos) != -1 ==> Table(tab, root, pos) in tab
  }

  ghost predicate Apart(tab: Tables, root: int, pos: Pos, other: Pos) {
    pos != other && Table(tab, root, pos) != -1 ==> Table(tab, root, pos) != Table(tab, root, other)
  }

  /** Below root hangs a tree of tables, no two positions sharing one. */
  ghost predicate Tree(tab: Tables, root: int) {
    && OkTables(tab) && root in tab
    && (forall pos :: OkPos(tab, root, pos)) && (forall pos, other :: Apart(tab, root, pos, other))
  }

  // ---------------------------------------------------------------- the flat map

  function PX2(v: nat): nat { v / 0x40000 }
  function PX1(v: nat): nat { v / 512 % 512 }
  function PX0(v: nat): nat { v % 512 }

  function LowOf(v: nat): Pos { Low(PX2(v), PX1(v)) }

  lemma Indices(v: nat, w: nat)
    ensures PX2(v) == PX2(w) && PX1(v) == PX1(w) && PX0(v) == PX0(w) ==> v == w
    ensures v < MAXPAGE ==> PX2(v) < 512
  {
    assert v == PX2(v) * 0x40000 + PX1(v) * 512 + PX0(v);
    assert w == PX2(w) * 0x40000 + PX1(w) * 512 + PX0(w);
  }

  /** The page table entry of page v, 0 if there is no table for it. */
  function Pte(tab: Tables, root: int, v: nat): nat {
    var t := Table(tab, root, LowOf(v));
    if t in tab && PX0(v) < |tab[t]| then tab[t][PX0(v)] else 0
  }

  ghost predicate SameAt(tab: Tables, tab1: Tables, root: int, v: nat) { Pte(tab1, root, v) == Pte(tab, root, v) }

  /** The flat map has not changed. */
  ghost predicate Same(tab: Tables, tab1: Tables, root: int) { forall v :: SameAt(tab, tab1, root, v) }

  ghost predicate SameMapAt(tab: Tables, tab1: Tables, root: int, v: nat) {
    Pte(tab1, root, v) == Pte(tab, root, v) || (!IsValid(Pte(tab1, root, v)) && !IsValid(Pte(tab, root, v)))
  }

  /** The same pages are mapped, and to the same entries. */
  ghost predicate SameMap(tab: Tables, tab1: Tables, root: int) { forall v :: SameMapAt(tab, tab1, root, v) }

  ghost predicate PutAt(tab: Tables, tab1: Tables, root: int, v: nat, x: nat, w: nat) {
    Pte(tab1, root, w) == if w == v then x else Pte(tab, root, w)
  }

  /** The flat map has changed at v only. */
  ghost predicate Put(tab: Tables, tab1: Tables, root: int, v: nat, x: nat) {
    forall w :: PutAt(tab, tab1, root, v, x, w)
  }

  lemma SameTrans(tab: Tables, tab1: Tables, tab2: Tables, root: int)
    requires Same(tab, tab1, root) && Same(tab1, tab2, root)
    ensures Same(tab, tab2, root)
  {
    forall v: nat ensures SameAt(tab, tab2, root, v) {
      assert SameAt(tab, tab1, root, v) && SameAt(tab1, tab2, root, v);
    }
  }

  lemma SamePut(tab: Tables, tab1: Tables, tab2: Tables, root: int, v: nat, x: nat)
    requires Same(tab, tab1, root) && Put(tab1, tab2, root, v, x)
    ensures Put(tab, tab2, root, v, x)
  {
    forall w: nat ensures PutAt(tab, tab2, root, v, x, w) {
      assert SameAt(tab, tab1, root, w) && PutAt(tab1, tab2, root, v, x, w);
    }
  }

  /** The frame a user page is mapped to, or 0. */
  function UserFrame(tab: Tables, root: int, v: nat): nat {
    var pte := Pte(tab, root, v);
    if v < MAXPAGE && IsValid(pte) && IsUser(pte) then Frame(pte) else 0
  }

  // ---------------------------------------------------------------- storing an entry in a lowest table

  function Stored(tab: Tables, t: int, i: nat, x: nat): Tables
    requires t in tab && i < |tab[t]|
  {
    var row: seq<nat> := tab[t][i := x];
    tab[t := row]
  }

  lemma StoreTable(tab: Tables, root: int, low: Pos, i: nat, x: nat, pos: Pos)
    requires Tree(tab, root) && low.Low? && Table(tab, root, low) in tab && i < 512
    ensures OkTables(tab) && Table(Stored(tab, Table(tab, root, low), i, x), root, pos) == Table(tab, root, pos)
  {
    var t := Table(tab, root, low);
    assert Apart(tab, root, low, Top);
    if pos != Top {
      assert Apart(tab, root, low, Mid(pos.i));
    }
  }

  /** A store at page v keeps the tree and changes the entry of v only. */
  lemma StoreKeeps(tab: Tables, root: int, v: nat, x: nat)
    requires Tree(tab, root) && Table(tab, root, LowOf(v)) in tab
    ensures OkTables(tab)
    ensures var tab1 := Stored(tab, Table(tab, root, LowOf(v)), PX0(v), x);
            Tree(tab1, root) && Put(tab, tab1, root, v, x)
  {
    var t := Table(tab, root, LowOf(v));
    var tab1 := Stored(tab, t, PX0(v), x);
    forall pos ensures Table(tab1, root, pos) == Table(tab, root, pos) {
      StoreTable(tab, root, LowOf(v), PX0(v), x, pos);
    }
    forall pos ensures OkPos(tab1, root, pos) { assert OkPos(tab, root, pos); }
    forall pos, other ensures Apart(tab1, root, pos, other) { assert Apart(tab, root, pos, other); }
    forall w: nat ensures PutAt(tab, tab1, root, v, x, w) {
      Indices(v, w);
      assert Apart(tab, root, LowOf(v), LowOf(w)) && OkPos(tab, root, LowOf(w));
    }
  }

  // ---------------------------------------------------------------- adding an empty table

  function Zeros(): seq<nat> { seq(512, i => 0) }

  function Child(pos: Pos, i: nat): Pos
    requires !pos.Low?
  {
    match pos case Top => Mid(i) case Mid(k) => Low(k, i)
  }

  function Grown(tab: Tables, t: int, i: nat, f: nat): Tables
    requires t in tab && i < |tab[t]| && f !in tab
  {
    Stored(tab, t, i, MakePte(f, 0))[f := Zeros()]
  }

  lemma GrowTable(tab: Tables, root: int, at: Pos, i: nat, f: nat, pos: Pos)
    requires Tree(tab, root) && !at.Low? && Table(tab, root, at) in tab && i < 512 && f > 0 && f !in tab
    requires Table(tab, root, Child(at, i)) == -1
    ensures OkTables(tab)
    ensures Table(Grown(tab, Table(tab, root, at), i, f), root, pos) ==
              if pos == Child(at, i) then f else Table(tab, root, pos)
  {
    MadePte(f, 0);
    assert Apart(tab, root, at, Top);
    if pos != Top {
      assert Apart(tab, root, at, Mid(pos.i)) && OkPos(tab, root, Mid(pos.i));
    }
  }

  /** A new empty table keeps the tree and every entry. */
  lemma GrowKeeps(tab: Tables, root: int, at: Pos, i: nat, f: nat)
    requires Tree(tab, root) && !at.Low? && Table(tab, root, at) in tab && i < 512 && f > 0 && f !in tab
    requires Table(tab, root, Child(at, i)) == -1
    ensures OkTables(tab)
    ensures var tab1 := Grown(tab, Table(tab, root, at), i, f); Tree(tab1, root) && Same(tab, tab1, root)
    ensures Table(Grown(tab, Table(tab, root, at), i, f), root, Child(at, i)) == f
  {
    var t := Table(tab, root, at);
    var tab1 := Grown(tab, t, i, f);
    forall pos ensures Table(tab1, root, pos) == if pos == Child(at, i) then f else Table(tab, root, pos) {
      GrowTable(tab, root, at, i, f, pos);
    }
    forall pos ensures OkPos(tab1, root, pos) { assert OkPos(tab, root, pos); }
    forall pos, other ensures Apart(tab1, root, pos, other) {
      assert Apart(tab, root, pos, other) && OkPos(tab, root, pos) && OkPos(tab, root, other);
    }
    forall v: nat ensures SameAt(tab, tab1, root, v) {
      assert Apart(tab, root, at, LowOf(v)) && OkPos(tab, root, LowOf(v));
    }
  }

  // ---------------------------------------------------------------- what an operation on one tree leaves of the others

  ghost predicate IsTable(tab: Tables, root: int, f: int) { exists pos :: Table(tab, root, pos) == f }

  ghost predicate KeepsTable(tab: Tables, tab1: Tables, root: int, f: int) {
    f in tab ==> f in tab1 && (tab1[f] == tab[f] || IsTable(tab, root, f))
  }

  ghost predicate KeepsPos(tab: Tables, tab1: Tables, root: int, pos: Pos) {
    var t, t1 := Table(tab, root, pos), Table(tab1, root, pos);
    (t != -1 ==> t1 == t) && (t1 in tab ==> t1 == t)
  }

  /** From tab to tab1 only tables of the tree of root have changed, and it has grown by new tables only. */
  ghost predicate Extends(tab: Tables, tab1: Tables, root: int) {
    (forall f :: KeepsTable(tab, tab1, root, f)) && (forall pos :: KeepsPos(tab, tab1, root, pos))
  }

  lemma ExtendsTrans(tab: Tables, tab1: Tables, tab2: Tables, root: int)
    requires Extends(tab, tab1, root) && Extends(tab1, tab2, root)
    ensures Extends(tab, tab2, root)
  {
    forall f ensures KeepsTable(tab, tab2, root, f) {
      assert KeepsTable(tab, tab1, root, f) && KeepsTable(tab1, tab2, root, f);
      if pos :| Table(tab1, root, pos) == f {
        assert KeepsPos(tab, tab1, root, pos);
      }
    }
    forall pos ensures KeepsPos(tab, tab2, root, pos) {
      assert KeepsPos(tab, tab1, root, pos) && KeepsPos(tab1, tab2, root, pos);
      var t := Table(tab2, root, pos);
      assert KeepsTable(tab, tab1, root, t);
    }
  }

  lemma StoreExtends(tab: Tables, root: int, v: nat, x: nat)
    requires Tree(tab, root) && Table(tab, root, LowOf(v)) in tab
    ensures OkTables(tab) && Extends(tab, Stored(tab, Table(tab, root, LowOf(v)), PX0(v), x), root)
  {
    var tab1 := Stored(tab, Table(tab, root, LowOf(v)), PX0(v), x);
    forall pos ensures KeepsPos(tab, tab1, root, pos) { StoreTable(tab, root, LowOf(v), PX0(v), x, pos); }
    forall f ensures KeepsTable(tab, tab1, root, f) { }
  }

  lemma GrowExtends(tab: Tables, root: int, at: Pos, i: nat, f: nat)
    requires Tree(tab, root) && !at.Low? && Table(tab, root, at) in tab && i < 512 && f > 0 && f !in tab
    requires Table(tab, root, Child(at, i)) == -1
    ensures OkTables(tab) && Extends(tab, Grown(tab, Table(tab, root, at), i, f), root)
  {
    var tab1 := Grown(tab, Table(tab, root, at), i, f);
    forall pos ensures KeepsPos(tab, tab1, root, pos) {
      GrowTable(tab, root, at, i, f, pos);
      assert OkPos(tab, root, pos);
    }
    forall g ensures KeepsTable(tab, tab1, root, g) { }
  }

  ghost predicate SeparateAt(tab: Tables, root: int, root2: int, pos: Pos, other: Pos) {
    Table(tab, root, pos) != -1 ==> Table(tab, root, pos) != Table(tab, root2, other)
  }

  /** The two trees share no table. */
  ghost predicate Separate(tab: Tables, root: int, root2: int) {
    forall pos, other :: SeparateAt(tab, root, root2, pos, other)
  }

  lemma OtherTable(tab: Tables, tab1: Tables, root: int, root2: int, pos: Pos)
    requires Tree(tab, root2) && Separate(tab, root, root2) && Extends(tab, tab1, root) && OkTables(tab1)
    ensures Table(tab1, root2, pos) == Table(tab, root2, pos)
    ensures var t := Table(tab, root2, pos); t != -1 ==> t in tab && t in tab1 && tab1[t] == tab[t]
  {
    OtherSame(tab, tab1, root, root2, Top);
    OtherSame(tab, tab1, root, root2, pos);
    if pos != Top {
      OtherSame(tab, tab1, root, root2, Mid(pos.i));
    }
  }

  lemma OtherSame(tab: Tables, tab1: Tables, root: int, root2: int, pos: Pos)
    requires Tree(tab, root2) && Separate(tab, root, root2) && Extends(tab, tab1, root)
    ensures var t := Table(tab, root2, pos); t != -1 ==> t in tab && t in tab1 && tab1[t] == tab[t]
  {
    var t := Table(tab, root2, pos);
    assert OkPos(tab, root2, pos) && KeepsTable(tab, tab1, root, t);
    if p :| Table(tab, root, p) == t {
      assert SeparateAt(tab, root, root2, p, pos);
    }
  }

  /** An operation on the tree of root leaves a separate tree, its flat map and its separateness as they were. */
  lemma OtherTreeKept(tab: Tables, tab1: Tables, root: int, root2: int)
    requires Tree(tab, root2) && Separate(tab, root, root2) && Extends(tab, tab1, root) && OkTables(tab1)
    ensures Tree(tab1, root2) && Separate(tab1, root, root2) && Same(tab, tab1, root2)
  {
    forall pos ensures Table(tab1, root2, pos) == Table(tab, root2, pos) { OtherTable(tab, tab1, root, root2, pos); }
    assert OkPos(tab, root2, Top);
    OtherTable(tab, tab1, root, root2, Top);
    forall pos ensures OkPos(tab1, root2, pos) { OtherTable(tab, tab1, root, root2, pos); }
    forall pos, other ensures Apart(tab1, root2, pos, other) { assert Apart(tab, root2, pos, other); }
    forall v: nat ensures SameAt(tab, tab1, root2, v) {
      OtherTable(tab, tab1, root, root2, LowOf(v));
      assert OkPos(tab1, root2, LowOf(v));
    }
    forall pos, other ensures SeparateAt(tab1, root, root2, pos, other) {
      assert SeparateAt(tab, root, root2, pos, other) && KeepsPos(tab, tab1, root, pos) && OkPos(tab, root2, other);
    }
  }

  // ---------------------------------------------------------------- ranges

  ghost predicate MappedAt(tab: Tables, tab1: Tables, root: int, v0: nat, n: nat, frame: nat, perm: nat, v: nat)
    requires perm < 1024
  {
    if v0 <= v < v0 + n then Pte(tab1, root, v) == MakePte(frame + (v - v0), perm) && !IsValid(Pte(tab, root, v))
    else Pte(tab1, root, v) == Pte(tab, root, v)
  }

  /** From tab to tab1 the n pages from v0 on, none of them mapped, have been mapped to consecutive frames; nothing else
      changed. */
  ghost predicate Mapped(tab: Tables, tab1: Tables, root: int, v0: nat, n: nat, frame: nat, perm: nat)
    requires perm < 1024
  {
    forall v :: MappedAt(tab, tab1, root, v0, n, frame, perm, v)
  }

  lemma MappedStep(tab: Tables, tab1: Tables, tab2: Tables, root: int, v0: nat, n: nat, frame: nat, perm: nat)
    requires perm < 1024 && Mapped(tab, tab1, root, v0, n, frame, perm) && !IsValid(Pte(tab1, root, v0 + n))
    requires Put(tab1, tab2, root, v0 + n, MakePte(frame + n, perm))
    ensures Mapped(tab, tab2, root, v0, n + 1, frame, perm)
  {
    var m := n + 1;
    forall v: nat ensures MappedAt(tab, tab2, root, v0, m, frame, perm, v) {
      assert && MappedAt(tab, tab1, root, v0, n, frame, perm, v)
             && PutAt(tab1, tab2, root, v0 + n, MakePte(frame + n, perm), v);
    }
  }

  lemma MappedSame(tab: Tables, tab1: Tables, tab2: Tables, root: int, v0: nat, n: nat, frame: nat, perm: nat)
    requires perm < 1024 && Mapped(tab, tab1, root, v0, n, frame, perm) && Same(tab1, tab2, root)
    ensures Mapped(tab, tab2, root, v0, n, frame, perm)
  {
    forall v: nat ensures MappedAt(tab, tab2, root, v0, n, frame, perm, v) {
      assert MappedAt(tab, tab1, root, v0, n, frame, perm, v) && SameAt(tab1, tab2, root, v);
    }
  }

  /** A mapped page, as opposed to a pointer to a table. */
  predicate Leaf(pte: nat) { IsValid(pte) && Flags(pte) != 1 }

  ghost predicate UnmappedAt(tab: Tables, tab1: Tables, root: int, v0: nat, n: nat, v: nat) {
    if v0 <= v < v0 + n
    then Pte(tab1, root, v) == 0 && Leaf(Pte(tab, root, v))
    else Pte(tab1, root, v) == Pte(tab, root, v)
  }

  /** From tab to tab1 the n pages from v0 on, all of them mapped, have been unmapped; nothing else changed. */
  ghost predicate Unmapped(tab: Tables, tab1: Tables, root: int, v0: nat, n: nat) {
    forall v :: UnmappedAt(tab, tab1, root, v0, n, v)
  }

  lemma UnmappedStep(tab: Tables, tab1: Tables, tab2: Tables, root: int, v0: nat, n: nat)
    requires Unmapped(tab, tab1, root, v0, n) && Leaf(Pte(tab1, root, v0 + n)) && Put(tab1, tab2, root, v0 + n, 0)
    ensures Unmapped(tab, tab2, root, v0, n + 1)
  {
    var m := n + 1;
    forall v: nat ensures UnmappedAt(tab, tab2, root, v0, m, v) {
      assert UnmappedAt(tab, tab1, root, v0, n, v) && PutAt(tab1, tab2, root, v0 + n, 0, v);
    }
  }

  /** The frames of the n pages from v0 on. */
  ghost function FramesOf(tab: Tables, root: int, v0: nat, n: nat): set<nat> {
    set v | v0 <= v < v0 + n :: Frame(Pte(tab, root, v))
  }

  lemma FramesStep(tab: Tables, root: int, v0: nat, n: nat)
    ensures FramesOf(tab, root, v0, n + 1) == FramesOf(tab, root, v0, n) + {Frame(Pte(tab, root, v0 + n))}
  {
    var f := Frame(Pte(tab, root, v0 + n));
    forall g | g in FramesOf(tab, root, v0, n) ensures g in FramesOf(tab, root, v0, n + 1) {
      var v: nat :| v0 <= v < v0 + n && g == Frame(Pte(tab, root, v));
      assert v0 <= v < v0 + (n + 1);
    }
    assert v0 <= v0 + n < v0 + (n + 1);
    assert f in FramesOf(tab, root, v0, n + 1);
  }

  lemma {:induction false} FramesCard(tab: Tables, root: int, v0: nat, n: nat)
    ensures |FramesOf(tab, root, v0, n)| <= n
  {
    if n == 0 {
      assert FramesOf(tab, root, v0, 0) == {};
    } else {
      FramesCard(tab, root, v0, n - 1);
      FramesStep(tab, root, v0, n - 1);
    }
  }

  ghost predicate OwnedAt(tab: Tables, root: int, page: set<int>, lo: nat, hi: nat, v: nat, w: nat) {
    lo <= v < hi && Leaf(Pte(tab, root, v)) ==>
      && Frame(Pte(tab, root, v)) in page
      && (lo <= w < hi && Leaf(Pte(tab, root, w)) && v != w ==> Frame(Pte(tab, root, v)) != Frame(Pte(tab, root, w)))
  }

  /** The pages mapped in [lo, hi) have frames of their own. */
  ghost predicate Owned(tab: Tables, root: int, page: set<int>, lo: nat, hi: nat) {
    forall v, w :: OwnedAt(tab, root, page, lo, hi, v, w)
  }

  /** The frame of the next page of an owned range is not among those of the pages before it. */
  lemma NextOwned(tab: Tables, root: int, page: set<int>, v0: nat, n: nat, hi: nat)
    requires Owned(tab, root, page, v0, hi) && v0 + n < hi && Leaf(Pte(tab, root, v0 + n))
    requires forall v :: v0 <= v < v0 + n ==> Leaf(Pte(tab, root, v))
    ensures Frame(Pte(tab, root, v0 + n)) in page && Frame(Pte(tab, root, v0 + n)) !in FramesOf(tab, root, v0, n)
  {
    var f := Frame(Pte(tab, root, v0 + n));
    assert OwnedAt(tab, root, page, v0, hi, v0 + n, v0 + n);
    forall v: nat | v0 <= v < v0 + n ensures f != Frame(Pte(tab, root, v)) {
      assert OwnedAt(tab, root, page, v0, hi, v, v0 + n);
    }
  }

  lemma MappedOne(tab: Tables, tab1: Tables, root: int, v: nat, n: nat, frame: nat, perm: nat)
    requires perm < 1024 && n <= 1 && Mapped(tab, tab1, root, v, n, frame, perm)
    ensures if n == 1
            then Put(tab, tab1, root, v, MakePte(frame, perm)) && !IsValid(Pte(tab, root, v))
            else Same(tab, tab1, root)
  {
    assert MappedAt(tab, tab1, root, v, n, frame, perm, v);
    if n == 1 {
      forall w: nat ensures PutAt(tab, tab1, root, v, MakePte(frame, perm), w) {
        assert MappedAt(tab, tab1, root, v, n, frame, perm, w);
      }
    } else {
      forall w: nat ensures SameAt(tab, tab1, root, w) { assert MappedAt(tab, tab1, root, v, n, frame, perm, w); }
    }
  }
}
