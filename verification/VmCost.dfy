/** What mapping pages costs (kernel/vm.c): walk adds the tables that are missing on the way to a page, so a run of
    pages needs a number of frames that the tree alone determines. */
module VmCost {
  import opened VmSpec

  /** There is a table of the middle level, and one of the lowest, on the way to page v. */
  predicate HasMid(tab: Tables, root: int, v: nat) { Table(tab, root, Mid(PX2(v))) != -1 }
  predicate HasLow(tab: Tables, root: int, v: nat) { Table(tab, root, LowOf(v)) != -1 }

  /** The tables that walk adds on the way to page v, down to the given level: all of them at level 0. */
  function MissingTo(tab: Tables, root: int, v: nat, level: nat): nat {
    (if level < 2 && !HasMid(tab, root, v) then 1 else 0) + (if level < 1 && !HasLow(tab, root, v) then 1 else 0)
  }

  function Missing(tab: Tables, root: int, v: nat): nat { MissingTo(tab, root, v, 0) }

  ghost predicate VisitedAt(tab: Tables, tab1: Tables, root: int, v: nat, level: nat, w: nat) {
    && (HasMid(tab1, root, w) <==> HasMid(tab, root, w) || (level < 2 && PX2(w) == PX2(v)))
    && (HasLow(tab1, root, w) <==> HasLow(tab, root, w) || (level < 1 && LowOf(w) == LowOf(v)))
  }

  /** The tables are those there were, and those on the way to page v, down to the level. */
  ghost predicate VisitedTo(tab: Tables, tab1: Tables, root: int, v: nat, level: nat) {
    forall w :: VisitedAt(tab, tab1, root, v, level, w)
  }

  ghost predicate KeptAt(tab: Tables, tab1: Tables, root: int, c: Pos, pos: Pos) {
    pos != c ==> Table(tab1, root, pos) == Table(tab, root, pos)
  }

  /** No table but the one at c is new. */
  ghost predicate KeptBut(tab: Tables, tab1: Tables, root: int, c: Pos) {
    forall pos :: KeptAt(tab, tab1, root, c, pos)
  }

  /** A table on the way to page v has been found or made. */
  lemma VisitedStep(tab: Tables, tab1: Tables, tab2: Tables, root: int, v: nat, level: nat)
    requires 0 < level <= 2 && VisitedTo(tab, tab1, root, v, level)
    requires var c := if level == 2 then Mid(PX2(v)) else LowOf(v);
             KeptBut(tab1, tab2, root, c) && Table(tab2, root, c) != -1
    ensures VisitedTo(tab, tab2, root, v, level - 1)
    ensures var c := if level == 2 then Mid(PX2(v)) else LowOf(v);
            MissingTo(tab, root, v, level - 1) == MissingTo(tab, root, v, level) +
              if Table(tab1, root, c) == -1 then 1 else 0
  {
    var c, next := if level == 2 then Mid(PX2(v)) else LowOf(v), level - 1;
    forall w: nat ensures VisitedAt(tab, tab2, root, v, next, w) {
      assert VisitedAt(tab, tab1, root, v, level, w);
      assert KeptAt(tab1, tab2, root, c, Mid(PX2(w))) && KeptAt(tab1, tab2, root, c, LowOf(w));
    }
    assert VisitedAt(tab, tab1, root, v, level, v);
  }

  /** Without the table that comes next, walk has still to add one. */
  lemma VisitedStop(tab: Tables, tab1: Tables, root: int, v: nat, level: nat)
    requires 0 < level <= 2 && VisitedTo(tab, tab1, root, v, level)
    requires Table(tab1, root, if level == 2 then Mid(PX2(v)) else LowOf(v)) == -1
    ensures MissingTo(tab, root, v, level) < Missing(tab, root, v)
  {
    assert VisitedAt(tab, tab1, root, v, level, v);
  }

  /** A store moves no table. */
  lemma VisitedSame(tab: Tables, tab1: Tables, tab2: Tables, root: int, v: nat)
    requires VisitedTo(tab, tab1, root, v, 0) && KeptBut(tab1, tab2, root, Top)
    ensures VisitedTo(tab, tab2, root, v, 0)
  {
    forall w: nat ensures VisitedAt(tab, tab2, root, v, 0, w) {
      assert VisitedAt(tab, tab1, root, v, 0, w);
      assert KeptAt(tab1, tab2, root, Top, Mid(PX2(w))) && KeptAt(tab1, tab2, root, Top, LowOf(w));
    }
  }

  // ---------------------------------------------------------------- a run of pages

  /** The tables that page v0 + k adds when the pages from v0 on are mapped in turn. */
  function New(tab: Tables, root: int, v0: nat, k: nat): nat {
    var v := v0 + k;
    (if HasMid(tab, root, v) || (k > 0 && PX2(v - 1) == PX2(v)) then 0 else 1)
    + (if HasLow(tab, root, v) || (k > 0 && LowOf(v - 1) == LowOf(v)) then 0 else 1)
  }

  /** The tables that n pages from v0 on add, and the frames they take with the pages themselves. */
  function TablesFor(tab: Tables, root: int, v0: nat, n: nat): nat {
    if n == 0 then 0 else TablesFor(tab, root, v0, n - 1) + New(tab, root, v0, n - 1)
  }

  function Cost(tab: Tables, root: int, v0: nat, n: nat): nat { TablesFor(tab, root, v0, n) + n }

  ghost predicate PaidAt(tab: Tables, tab1: Tables, root: int, v0: nat, n: nat, w: nat) {
    v0 + n <= w ==>
      && (HasMid(tab1, root, w) <==> HasMid(tab, root, w) || (n > 0 && PX2(v0 + n - 1) == PX2(w)))
      && (HasLow(tab1, root, w) <==> HasLow(tab, root, w) || (n > 0 && LowOf(v0 + n - 1) == LowOf(w)))
  }

  /** Ahead of the n pages mapped from v0 on, the tables are those there were, and those of the last of these pages. */
  ghost predicate Paid(tab: Tables, tab1: Tables, root: int, v0: nat, n: nat) {
    forall w :: PaidAt(tab, tab1, root, v0, n, w)
  }

  lemma PaidNone(tab: Tables, root: int, v0: nat)
    ensures Paid(tab, tab, root, v0, 0)
  {
  }

  /** Between two pages with a common table, every page has it. */
  lemma InOrder(u: nat, v: nat, w: nat)
    requires u <= v <= w
    ensures PX2(u) == PX2(w) ==> PX2(v) == PX2(w)
    ensures LowOf(u) == LowOf(w) ==> LowOf(v) == LowOf(w)
  {
    assert u / 0x40000 <= v / 0x40000 <= w / 0x40000;
    assert u / 512 <= v / 512 <= w / 512;
    Lows(u);
    Lows(v);
    Lows(w);
  }

  /** The lowest table of a page is the one its number / 512 says. */
  lemma Lows(v: nat)
    ensures v / 512 == PX2(v) * 512 + PX1(v)
  {
  }

  lemma VisitedPaid(tab: Tables, tab1: Tables, root: int, v: nat)
    requires VisitedTo(tab, tab1, root, v, 0)
    ensures Paid(tab, tab1, root, v, 1)
  {
    forall w: nat ensures PaidAt(tab, tab1, root, v, 1, w) { assert VisitedAt(tab, tab1, root, v, 0, w); }
  }

  lemma PaidStep(tab: Tables, tab1: Tables, tab2: Tables, root: int, v0: nat, n: nat)
    requires Paid(tab, tab1, root, v0, n) && Paid(tab1, tab2, root, v0 + n, 1)
    ensures Paid(tab, tab2, root, v0, n + 1)
  {
    var n1, v := n + 1, v0 + n;
    forall w: nat ensures PaidAt(tab, tab2, root, v0, n1, w) {
      if v0 + n1 <= w {
        assert PaidAt(tab, tab1, root, v0, n, w) && PaidAt(tab1, tab2, root, v, 1, w);
        if n > 0 {
          InOrder(v0 + n - 1, v0 + n, w);
        }
      }
    }
  }

  /** One page costs what is missing on the way to it. */
  lemma OneCosts(tab: Tables, root: int, v: nat)
    ensures TablesFor(tab, root, v, 0) == 0 && TablesFor(tab, root, v, 1) == Missing(tab, root, v)
    ensures Cost(tab, root, v, 0) == 0 && Cost(tab, root, v, 1) == 1 + Missing(tab, root, v)
  {
    assert TablesFor(tab, root, v, 1) == TablesFor(tab, root, v, 0) + New(tab, root, v, 0);
  }

  /** What the next page costs now is what it was to cost in its turn. */
  lemma PaidNext(tab: Tables, tab1: Tables, root: int, v0: nat, n: nat)
    requires Paid(tab, tab1, root, v0, n)
    ensures Missing(tab1, root, v0 + n) == New(tab, root, v0, n)
    ensures TablesFor(tab, root, v0, n + 1) == TablesFor(tab, root, v0, n) + Missing(tab1, root, v0 + n)
  {
    assert PaidAt(tab, tab1, root, v0, n, v0 + n);
  }

  /** One more page, from free frames now to later: had of them at first. */
  lemma CostNext(tab: Tables, tab1: Tables, root: int, v0: nat, n: nat, had: nat, now: nat)
    requires Paid(tab, tab1, root, v0, n) && had == now + Cost(tab, root, v0, n)
    ensures now > Missing(tab1, root, v0 + n) ==>
              had == now - 1 - Missing(tab1, root, v0 + n) + Cost(tab, root, v0, n + 1)
    ensures now <= Missing(tab1, root, v0 + n) ==> had < Cost(tab, root, v0, n + 1)
  {
    PaidNext(tab, tab1, root, v0, n);
  }

  lemma {:induction false} CostGrows(tab: Tables, root: int, v0: nat, n: nat, k: nat)
    requires n <= k
    ensures Cost(tab, root, v0, n) <= Cost(tab, root, v0, k)
    decreases k
  {
    if n < k {
      CostGrows(tab, root, v0, n, k - 1);
    }
  }
}
