/** Circular doubly linked lists threaded through memory (kernel/list.c). */
module List {

  /** One pointer field of every node, by node address. */
  type Ptrs<T> = map<T, T>

  /** The ring walked once round, from its head back to its head. */
  function Loop<T>(h: T, s: seq<T>): seq<T> { [h] + s + [h] }

  /** The j-th node of walk d and the one after it point at each other. */
  ghost predicate Link<T>(next: Ptrs<T>, prev: Ptrs<T>, d: seq<T>, j: int) {
    0 <= j < |d| - 1 ==>
      d[j] in next && d[j + 1] in prev && next[d[j]] == d[j + 1] && prev[d[j + 1]] == d[j]
  }

  ghost predicate Distinct<T>(s: seq<T>) {
    forall i, j :: 0 <= i < j < |s| ==> s[i] != s[j]
  }

  /** h is the head of a ring whose other nodes are s, from h.next on. */
  ghost predicate Ring<T>(next: Ptrs<T>, prev: Ptrs<T>, h: T, s: seq<T>) {
    Distinct([h] + s) && forall j :: Link(next, prev, Loop(h, s), j)
  }

  /** A ring depends on its own nodes only. */
  lemma RingFrame<T>(n: Ptrs<T>, p: Ptrs<T>, n': Ptrs<T>, p': Ptrs<T>, h: T, s: seq<T>)
    requires Ring(n, p, h, s)
    requires forall x :: (x == h || x in s) && x in n ==> x in n' && n'[x] == n[x]
    requires forall x :: (x == h || x in s) && x in p ==> x in p' && p'[x] == p[x]
    ensures Ring(n', p', h, s)
  {
    var d := Loop(h, s);
    forall j ensures Link(n', p', d, j) {
      assert Link(n, p, d, j);
    }
  }

  /** Every node of a ring has both pointers. */
  lemma RingDomain<T>(n: Ptrs<T>, p: Ptrs<T>, h: T, s: seq<T>)
    requires Ring(n, p, h, s)
    ensures h in n && h in p && forall x :: x in s ==> x in n && x in p
  {
    var d := Loop(h, s);
    assert Link(n, p, d, 0) && Link(n, p, d, |s|);
    forall x | x in s ensures x in n && x in p {
      var j :| 0 <= j < |s| && s[j] == x;
      assert d[j + 1] == x;
      assert Link(n, p, d, j) && Link(n, p, d, j + 1);
    }
  }

  /** Dropping one node of a ring drops it everywhere. */
  lemma RemovedMembers<T>(h: T, s: seq<T>, j: nat, t: seq<T>)
    requires Distinct([h] + s) && j < |s| && t == s[..j] + s[j + 1..]
    ensures forall x :: x in t <==> x in s && x != s[j]
  {
    var c := [h] + s;
    forall x | x in t ensures x in s && x != s[j] {
      var i :| 0 <= i < |t| && t[i] == x;
      var i' := if i < j then i else i + 1;
      assert s[i'] == x == c[i' + 1] && s[j] == c[j + 1];
    }
    forall x | x in s && x != s[j] ensures x in t {
      var i :| 0 <= i < |s| && s[i] == x;
      assert t[if i < j then i else i - 1] == x;
    }
  }

  class Links<T(==)> {
    var next: Ptrs<T>
    var prev: Ptrs<T>

    constructor ()
      ensures next == map[] && prev == map[]
    {
      next, prev := map[], map[];
    }

    /** lst_init: an empty ring at lst. */
    method Init(lst: T)
      modifies this
      ensures Ring(next, prev, lst, [])
      ensures forall x :: x != lst && x in old(next) ==> x in next && next[x] == old(next[x])
      ensures forall x :: x != lst && x in old(prev) ==> x in prev && prev[x] == old(prev[x])
    {
      next := next[lst := lst];
      prev := prev[lst := lst];
    }

    /** lst_empty: true exactly for a ring with no node besides its head. */
    method Empty(lst: T, ghost s: seq<T>) returns (r: bool)
      requires Ring(next, prev, lst, s)
      ensures r <==> s == []
    {
      assert Link(next, prev, Loop(lst, s), 0);
      r := next[lst] == lst;
      assert s != [] ==> Loop(lst, s)[1] == s[0] && ([lst] + s)[1] == s[0];
    }

    /** lst_remove: e leaves its ring, the others keep their order; no node off the ring changes. */
    method Remove(e: T, ghost h: T, ghost s: seq<T>, ghost j: nat)
      requires Ring(next, prev, h, s) && j < |s| && s[j] == e
      modifies this
      ensures Ring(next, prev, h, s[..j] + s[j + 1..])
      ensures forall x :: x != h && x !in s && x in old(next) ==> x in next && next[x] == old(next[x])
      ensures forall x :: x != h && x !in s && x in old(prev) ==> x in prev && prev[x] == old(prev[x])
    {
      RingDomain(next, prev, h, s);
      RemoveNeighbours(next, prev, h, s, j);
      next := next[prev[e] := next[e]];
      prev := prev[next[e] := prev[e]];
      RemoveRing(old(next), old(prev), next, prev, h, s, j);
    }

    /** lst_pop: removes and returns the node after the head. */
    method Pop(lst: T, ghost s: seq<T>) returns (p: T)
      requires Ring(next, prev, lst, s) && s != []
      modifies this
      ensures p == s[0] && Ring(next, prev, lst, s[1..])
      ensures forall x :: x != lst && x !in s && x in old(next) ==> x in next && next[x] == old(next[x])
      ensures forall x :: x != lst && x !in s && x in old(prev) ==> x in prev && prev[x] == old(prev[x])
    {
      assert Link(next, prev, Loop(lst, s), 0);
      p := next[lst];
      assert s[..0] + s[1..] == s[1..];
      Remove(p, lst, s, 0);
    }

    /** lst_push: p becomes the node after the head. */
    method Push(lst: T, p: T, ghost s: seq<T>)
      requires Ring(next, prev, lst, s) && p != lst && p !in s
      modifies this
      ensures Ring(next, prev, lst, [p] + s)
      ensures forall x :: x != lst && x != p && x !in s && x in old(next) ==> x in next && next[x] == old(next[x])
      ensures forall x :: x != lst && x != p && x !in s && x in old(prev) ==> x in prev && prev[x] == old(prev[x])
    {
      RingDomain(next, prev, lst, s);
      assert Link(next, prev, Loop(lst, s), 0);
      next := next[p := next[lst]];
      prev := prev[p := lst];
      prev := prev[next[lst] := p];
      next := next[lst := p];
      PushRing(old(next), old(prev), next, prev, lst, p, s);
    }
  }

  lemma RemoveNeighbours<T>(n: Ptrs<T>, p: Ptrs<T>, h: T, s: seq<T>, j: nat)
    requires Ring(n, p, h, s) && j < |s|
    ensures s[j] in n && s[j] in p
    ensures p[s[j]] == Loop(h, s)[j] && n[s[j]] == Loop(h, s)[j + 2] && p[s[j]] != s[j] && n[s[j]] != s[j]
  {
    var d, c := Loop(h, s), [h] + s;
    assert Link(n, p, d, j) && Link(n, p, d, j + 1);
    assert d[j + 1] == s[j] == c[j + 1] && d[j] == c[j];
    assert d[j + 2] == if j + 2 < |c| then c[j + 2] else c[0];
  }

  lemma RemoveRing<T>(n: Ptrs<T>, p: Ptrs<T>, n': Ptrs<T>, p': Ptrs<T>, h: T, s: seq<T>, j: nat)
    requires Ring(n, p, h, s) && j < |s|
    requires s[j] in n && s[j] in p
    requires n' == n[p[s[j]] := n[s[j]]]
    requires p' == p[n[s[j]] := p[s[j]]]
    ensures Ring(n', p', h, s[..j] + s[j + 1..])
  {
    var t := s[..j] + s[j + 1..];
    var c, d, e := [h] + s, Loop(h, s), Loop(h, t);
    assert forall i :: 0 <= i <= j ==> e[i] == d[i];
    assert forall i :: j < i < |e| ==> e[i] == d[i + 1];
    assert forall i :: 0 <= i <= |s| ==> d[i] == c[i];
    RemoveNeighbours(n, p, h, s, j);
    assert Distinct([h] + t) by {
      assert forall i :: 0 <= i <= |t| ==> ([h] + t)[i] == e[i];
    }
    forall i ensures Link(n', p', e, i) {
      if 0 <= i < |e| - 1 {
        assert Link(n, p, d, i) && Link(n, p, d, i + 1);
        if i < j {
          assert d[i] != d[j];
          assert c[i + 1] != c[0];
          assert d[j + 2] == if j + 2 < |c| then c[j + 2] else c[0];
        } else if i > j {
          assert d[i + 1] != d[j];
          assert c[j + 2] != if i + 2 < |c| then c[i + 2] else c[0];
        }
      }
    }
  }

  lemma PushRing<T>(n: Ptrs<T>, p: Ptrs<T>, n': Ptrs<T>, p': Ptrs<T>, h: T, e: T, s: seq<T>)
    requires Ring(n, p, h, s) && e != h && e !in s && h in n
    requires n' == n[e := n[h]][h := e]
    requires p' == p[e := h][n[h] := e]
    ensures Ring(n', p', h, [e] + s)
  {
    var c, d, f := [h] + s, Loop(h, s), Loop(h, [e] + s);
    assert forall i :: 2 <= i < |f| ==> f[i] == d[i - 1];
    assert forall i :: 0 <= i <= |s| ==> d[i] == c[i];
    assert Distinct([h] + ([e] + s)) by {
      var g := [h] + ([e] + s);
      forall i, j | 0 <= i < j < |g| ensures g[i] != g[j] {
        assert g[j] == if j == 1 then e else c[j - 1];
        assert j > 1 ==> c[j - 1] == s[j - 2];
        assert g[i] == if i == 0 then c[0] else if i == 1 then e else c[i - 1];
      }
    }
    assert Link(n, p, d, 0);
    forall i ensures Link(n', p', f, i) {
      if 2 <= i < |f| - 1 {
        assert Link(n, p, d, i - 1);
        assert d[i - 1] == s[i - 2] != e;
        assert d[i - 1] == c[i - 1] != c[0];
        if i < |s| + 1 {
          assert d[i] == c[i] == s[i - 1] != e;
          assert d[i] != d[1];
        } else {
          assert d[i] == h;
          assert d[1] == c[1] != h;
        }
      }
    }
  }
}
