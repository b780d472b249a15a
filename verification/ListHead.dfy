// The kernel's intrusive circular lists.
//
// A list_head is addressed by a number: nodes 0 .. nodes-1 are the list_heads
// embedded in struct page, and nodes + h is the h-th list head itself.  The
// abstraction is one sequence of node numbers for each head.
module ListHead {

  const NULL: int := -1

  /** Walking the ring of head a: position 0 and position |s| + 1 are the head. */
  function At(a: int, s: seq<nat>, i: nat): int
    requires i <= |s| + 1
  {
    if i == 0 || i == |s| + 1 then a else s[i - 1]
  }

  ghost predicate InRange(nx: seq<int>, a: int, s: seq<nat>) {
    0 <= a < |nx| && forall i :: 0 <= i < |s| ==> s[i] < |nx|
  }

  /** next and prev thread the nodes of s, in order, into a ring through a. */
  ghost predicate Ring(nx: seq<int>, pv: seq<int>, a: int, s: seq<nat>)
    requires |nx| == |pv|
  {
    && InRange(nx, a, s)
    && forall i: nat :: i <= |s| ==> nx[At(a, s, i)] == At(a, s, i + 1) && pv[At(a, s, i + 1)] == At(a, s, i)
  }

  /** No node occurs twice, neither in one list nor in two. */
  ghost predicate Disjoint(lists: seq<seq<nat>>) {
    forall g, i, h, j ::
      0 <= g < |lists| && 0 <= i < |lists[g]| && 0 <= h < |lists| && 0 <= j < |lists[h]| && lists[g][i] == lists[h][j]
      ==> g == h && i == j
  }

  ghost predicate NodesBelow(lists: seq<seq<nat>>, nodes: nat) {
    forall h, i :: 0 <= h < |lists| && 0 <= i < |lists[h]| ==> lists[h][i] < nodes
  }

  ghost predicate Threaded(nx: seq<int>, pv: seq<int>, nodes: nat, lists: seq<seq<nat>>) {
    && |nx| == |pv| == nodes + |lists|
    && Disjoint(lists)
    && NodesBelow(lists, nodes)
    && forall h :: 0 <= h < |lists| ==> Ring(nx, pv, nodes + h, lists[h])
  }

  ghost predicate OnSome(lists: seq<seq<nat>>, x: nat) {
    exists h :: 0 <= h < |lists| && x in lists[h]
  }

  /** Node x linked in between positions k and k + 1 of list h. */
  function Inserted(s: seq<nat>, k: nat, x: nat): seq<nat>
    requires k <= |s|
  {
    s[..k] + [x] + s[k..]
  }

  function Removed(s: seq<nat>, k: nat): seq<nat>
    requires k < |s|
  {
    s[..k] + s[k + 1..]
  }

  lemma OtherRing(nx: seq<int>, pv: seq<int>, nx': seq<int>, pv': seq<int>, a: int, s: seq<nat>)
    requires |nx| == |pv| == |nx'| == |pv'| && Ring(nx, pv, a, s)
    requires nx'[a] == nx[a] && pv'[a] == pv[a]
    requires forall i :: 0 <= i < |s| ==> nx'[s[i]] == nx[s[i]] && pv'[s[i]] == pv[s[i]]
    ensures Ring(nx', pv', a, s)
  {
    forall i: nat | i <= |s|
      ensures nx'[At(a, s, i)] == At(a, s, i + 1) && pv'[At(a, s, i + 1)] == At(a, s, i)
    {
      assert nx[At(a, s, i)] == At(a, s, i + 1) && pv[At(a, s, i + 1)] == At(a, s, i);
      if i > 0 { assert nx'[s[i - 1]] == nx[s[i - 1]]; }
      if i < |s| { assert pv'[s[i]] == pv[s[i]]; }
    }
  }

  lemma InsertRing(nx: seq<int>, pv: seq<int>, nx': seq<int>, pv': seq<int>, a: int, s: seq<nat>, k: nat, x: nat)
    requires |nx| == |pv| && Ring(nx, pv, a, s) && k <= |s| && x < |nx| && x != a && x !in s && a !in s
    requires forall i, j :: 0 <= i < j < |s| ==> s[i] != s[j]
    requires var p, n := At(a, s, k), At(a, s, k + 1);
             nx' == nx[x := n][p := x] && pv' == pv[n := x][x := p]
    ensures Ring(nx', pv', a, Inserted(s, k, x))
  {
    var r := Inserted(s, k, x);
    forall i: nat | i <= |r|
      ensures nx'[At(a, r, i)] == At(a, r, i + 1) && pv'[At(a, r, i + 1)] == At(a, r, i)
    {
      if i < k {
        assert At(a, r, i) == At(a, s, i) && At(a, r, i + 1) == At(a, s, i + 1);
        assert nx[At(a, s, i)] == At(a, s, i + 1) && pv[At(a, s, i + 1)] == At(a, s, i);
      } else if i > k + 1 {
        assert At(a, r, i) == At(a, s, i - 1) && At(a, r, i + 1) == At(a, s, i);
        assert nx[At(a, s, i - 1)] == At(a, s, i) && pv[At(a, s, i)] == At(a, s, i - 1);
      }
    }
  }

  lemma RemoveRing(nx: seq<int>, pv: seq<int>, nx': seq<int>, pv': seq<int>, a: int, s: seq<nat>, k: nat)
    requires |nx| == |pv| && Ring(nx, pv, a, s) && k < |s| && a !in s
    requires forall i, j :: 0 <= i < j < |s| ==> s[i] != s[j]
    requires var p, n := At(a, s, k), At(a, s, k + 2);
             nx' == nx[p := n][s[k] := NULL] && pv' == pv[n := p][s[k] := NULL]
    ensures Ring(nx', pv', a, Removed(s, k))
  {
    var r := Removed(s, k);
    forall i: nat | i <= |r|
      ensures nx'[At(a, r, i)] == At(a, r, i + 1) && pv'[At(a, r, i + 1)] == At(a, r, i)
    {
      if i < k {
        assert At(a, r, i) == At(a, s, i) && At(a, r, i + 1) == At(a, s, i + 1);
        assert nx[At(a, s, i)] == At(a, s, i + 1) && pv[At(a, s, i + 1)] == At(a, s, i);
      } else if i > k {
        assert At(a, r, i) == At(a, s, i + 1) && At(a, r, i + 1) == At(a, s, i + 2);
        assert nx[At(a, s, i + 1)] == At(a, s, i + 2) && pv[At(a, s, i + 2)] == At(a, s, i + 1);
      }
    }
  }

  lemma InsertDisjoint(lists: seq<seq<nat>>, h: nat, k: nat, x: nat)
    requires Disjoint(lists) && h < |lists| && k <= |lists[h]| && !OnSome(lists, x)
    ensures Disjoint(lists[h := Inserted(lists[h], k, x)])
  {
    var s, r := lists[h], lists[h := Inserted(lists[h], k, x)];
    forall g, i | 0 <= g < |lists| && 0 <= i < |lists[g]| ensures lists[g][i] != x {
      assert lists[g][i] in lists[g];
    }
    // where node i of list g of the result was before
    forall g, i, f, j | 0 <= g < |r| && 0 <= i < |r[g]| && 0 <= f < |r| && 0 <= j < |r[f]| && r[g][i] == r[f][j]
      ensures g == f && i == j
    {
      var i' := if g == h && i > k then i - 1 else i;
      var j' := if f == h && j > k then j - 1 else j;
      assert (g == h && i == k) || r[g][i] == lists[g][i'];
      assert (f == h && j == k) || r[f][j] == lists[f][j'];
    }
  }

  lemma RemoveDisjoint(lists: seq<seq<nat>>, h: nat, k: nat)
    requires Disjoint(lists) && h < |lists| && k < |lists[h]|
    ensures Disjoint(lists[h := Removed(lists[h], k)])
    ensures !OnSome(lists[h := Removed(lists[h], k)], lists[h][k])
  {
    var r := lists[h := Removed(lists[h], k)];
    forall g, i, f, j | 0 <= g < |r| && 0 <= i < |r[g]| && 0 <= f < |r| && 0 <= j < |r[f]| && r[g][i] == r[f][j]
      ensures g == f && i == j
    {
      assert r[g][i] == lists[g][if g == h && i >= k then i + 1 else i];
      assert r[f][j] == lists[f][if f == h && j >= k then j + 1 else j];
    }
    forall g, i | 0 <= g < |r| && 0 <= i < |r[g]| ensures r[g][i] != lists[h][k] {
      assert r[g][i] == lists[g][if g == h && i >= k then i + 1 else i];
    }
  }

  /** Nodes p and n sit next to each other on list h, so no other list sees them change. */
  lemma OthersUntouched(nx: seq<int>, pv: seq<int>, nx': seq<int>, pv': seq<int>,
                        nodes: nat, lists: seq<seq<nat>>, h: nat, k: nat, l: nat, x: nat, g: nat)
    requires Threaded(nx, pv, nodes, lists) && h < |lists| && g < |lists| && g != h
    requires k <= |lists[h]| + 1 && l <= |lists[h]| + 1 && x !in lists[g] && x < nodes
    requires |nx'| == |nx| && |pv'| == |pv|
    requires var p, n := At(nodes + h, lists[h], k), At(nodes + h, lists[h], l);
             forall a :: 0 <= a < |nx| && a != p && a != n && a != x ==> nx'[a] == nx[a] && pv'[a] == pv[a]
    ensures Ring(nx', pv', nodes + g, lists[g])
  {
    assert Ring(nx, pv, nodes + g, lists[g]);
    forall i | 0 <= i < |lists[g]|
      ensures nx'[lists[g][i]] == nx[lists[g][i]] && pv'[lists[g][i]] == pv[lists[g][i]]
    {
      assert lists[g][i] in lists[g];
    }
    hide Ring, Threaded;
    OtherRing(nx, pv, nx', pv', nodes + g, lists[g]);
  }

  lemma InsertThreaded(nx: seq<int>, pv: seq<int>, nx': seq<int>, pv': seq<int>,
                       nodes: nat, lists: seq<seq<nat>>, h: nat, k: nat, x: nat)
    requires Threaded(nx, pv, nodes, lists) && h < |lists| && k <= |lists[h]|
    requires x < nodes && !OnSome(lists, x)
    requires var p, n := At(nodes + h, lists[h], k), At(nodes + h, lists[h], k + 1);
             nx' == nx[x := n][p := x] && pv' == pv[n := x][x := p]
    ensures Threaded(nx', pv', nodes, lists[h := Inserted(lists[h], k, x)])
  {
    var r := lists[h := Inserted(lists[h], k, x)];
    assert Ring(nx, pv, nodes + h, lists[h]);
    forall g | 0 <= g < |lists| ensures x !in lists[g] { }
    NoRepeats(lists, h);
    InsertDisjoint(lists, h, k, x);
    InsertBelow(lists, nodes, h, k, x);
    hide Ring, Disjoint, OnSome, NodesBelow, Inserted;
    InsertRing(nx, pv, nx', pv', nodes + h, lists[h], k, x);
    forall g | 0 <= g < |r| && g != h ensures Ring(nx', pv', nodes + g, r[g]) {
      OthersUntouched(nx, pv, nx', pv', nodes, lists, h, k, k + 1, x, g);
    }
  }

  lemma NoRepeats(lists: seq<seq<nat>>, h: nat)
    requires Disjoint(lists) && h < |lists|
    ensures forall i, j :: 0 <= i < j < |lists[h]| ==> lists[h][i] != lists[h][j]
  {
  }

  lemma InsertBelow(lists: seq<seq<nat>>, nodes: nat, h: nat, k: nat, x: nat)
    requires NodesBelow(lists, nodes) && h < |lists| && k <= |lists[h]| && x < nodes
    ensures NodesBelow(lists[h := Inserted(lists[h], k, x)], nodes)
    ensures nodes + h !in lists[h]
  {
  }

  lemma RemoveBelow(lists: seq<seq<nat>>, nodes: nat, h: nat, k: nat)
    requires NodesBelow(lists, nodes) && h < |lists| && k < |lists[h]|
    ensures NodesBelow(lists[h := Removed(lists[h], k)], nodes)
    ensures nodes + h !in lists[h] && lists[h][k] < nodes
  {
  }

  lemma RemoveThreaded(nx: seq<int>, pv: seq<int>, nx': seq<int>, pv': seq<int>,
                       nodes: nat, lists: seq<seq<nat>>, h: nat, k: nat)
    requires Threaded(nx, pv, nodes, lists) && h < |lists| && k < |lists[h]|
    requires var p, n := At(nodes + h, lists[h], k), At(nodes + h, lists[h], k + 2);
             nx' == nx[p := n][lists[h][k] := NULL] && pv' == pv[n := p][lists[h][k] := NULL]
    ensures Threaded(nx', pv', nodes, lists[h := Removed(lists[h], k)])
  {
    var r := lists[h := Removed(lists[h], k)];
    assert Ring(nx, pv, nodes + h, lists[h]);
    forall g | 0 <= g < |lists| && g != h ensures lists[h][k] !in lists[g] { }
    NoRepeats(lists, h);
    RemoveBelow(lists, nodes, h, k);
    hide Ring, Disjoint, NodesBelow, Removed;
    RemoveRing(nx, pv, nx', pv', nodes + h, lists[h], k);
    RemoveDisjoint(lists, h, k);
    forall g | 0 <= g < |r| && g != h ensures Ring(nx', pv', nodes + g, r[g]) {
      OthersUntouched(nx, pv, nx', pv', nodes, lists, h, k, k + 2, lists[h][k], g);
    }
  }

  /** All list_heads of the kernel that can be linked to one another. */
  class ListArena {
    const nodes: nat
    const next: array<int>
    const prev: array<int>
    ghost var lists: seq<seq<nat>>

    ghost predicate Valid()
      reads this, next, prev
    {
      next != prev && Threaded(next[..], prev[..], nodes, lists)
    }

    /** Every head starts as an empty ring; the nodes hold whatever memory held. */
    constructor (nodes: nat, heads: nat)
      ensures Valid() && fresh(next) && fresh(prev) && this.nodes == nodes
      ensures lists == seq(heads, _ => [])
    {
      this.nodes := nodes;
      next := new int[nodes + heads];
      prev := new int[nodes + heads];
      lists := seq(heads, _ => []);
      new;
      for h := 0 to heads
        invariant next != prev && fresh(next) && fresh(prev)
        invariant this.nodes == nodes && next.Length == prev.Length == nodes + heads
        invariant lists == seq(heads, _ => [])
        invariant forall a :: nodes <= a < nodes + h ==> next[a] == a && prev[a] == a
      {
        InitListHead(nodes + h);
      }
      forall h | 0 <= h < heads ensures Ring(next[..], prev[..], nodes + h, lists[h]) {
      }
    }

    method InitListHead(a: nat)
      requires next != prev && a < next.Length == prev.Length
      modifies next, prev
      ensures next[..] == old(next[..])[a := a] && prev[..] == old(prev[..])[a := a]
    {
      next[a] := a;
      prev[a] := a;
    }

    /** INIT_LIST_HEAD on a node that no list holds. */
    method InitNode(x: nat)
      requires Valid() && x < nodes && !OnSome(lists, x)
      modifies next, prev
      ensures Valid()
    {
      ghost var nx, pv := next[..], prev[..];
      InitListHead(x);
      forall h | 0 <= h < |lists| ensures Ring(next[..], prev[..], nodes + h, lists[h]) {
        assert x !in lists[h];
        OtherRing(nx, pv, next[..], prev[..], nodes + h, lists[h]);
      }
    }

    method ListEmpty(h: nat) returns (b: bool)
      requires Valid() && h < |lists|
      ensures b <==> lists[h] == []
    {
      assert Ring(next[..], prev[..], nodes + h, lists[h]);
      assert next[..][At(nodes + h, lists[h], 0)] == At(nodes + h, lists[h], 1);
      b := next[nodes + h] == nodes + h;
    }

    method ListFirst(h: nat) returns (x: nat)
      requires Valid() && h < |lists| && lists[h] != []
      ensures x == lists[h][0] && x < nodes
    {
      assert Ring(next[..], prev[..], nodes + h, lists[h]);
      assert next[..][At(nodes + h, lists[h], 0)] == At(nodes + h, lists[h], 1);
      x := next[nodes + h];
    }

    /** The first node of list h, or the head itself when the list is empty: `head->next`. */
    method ListStart(h: nat) returns (y: nat)
      requires Valid() && h < |lists|
      ensures y == At(nodes + h, lists[h], 1)
    {
      assert Ring(next[..], prev[..], nodes + h, lists[h]);
      assert next[..][At(nodes + h, lists[h], 0)] == At(nodes + h, lists[h], 1);
      y := next[nodes + h];
    }

    /** The node after position k of list h, or the head at the end: `pos->next`. */
    method ListNext(h: nat, ghost k: nat, x: nat) returns (y: nat)
      requires Valid() && h < |lists| && k < |lists[h]| && lists[h][k] == x
      ensures y == At(nodes + h, lists[h], k + 2)
    {
      assert Ring(next[..], prev[..], nodes + h, lists[h]);
      assert next[..][At(nodes + h, lists[h], k + 1)] == At(nodes + h, lists[h], k + 2);
      y := next[x];
    }

    method ListInsert(x: nat, p: nat, n: nat, ghost h: nat, ghost k: nat)
      requires Valid() && h < |lists| && k <= |lists[h]| && x < nodes && !OnSome(lists, x)
      requires p == At(nodes + h, lists[h], k) && n == At(nodes + h, lists[h], k + 1)
      modifies this, next, prev
      ensures Valid() && lists == old(lists)[h := Inserted(old(lists)[h], k, x)]
    {
      assert Ring(next[..], prev[..], nodes + h, lists[h]);
      prev[n] := x;
      next[x] := n;
      prev[x] := p;
      next[p] := x;
      InsertThreaded(old(next[..]), old(prev[..]), next[..], prev[..], nodes, lists, h, k, x);
      lists := lists[h := Inserted(lists[h], k, x)];
    }

    method ListAdd(x: nat, h: nat)
      requires Valid() && h < |lists| && x < nodes && !OnSome(lists, x)
      modifies this, next, prev
      ensures Valid() && lists == old(lists)[h := [x] + old(lists)[h]]
    {
      assert Ring(next[..], prev[..], nodes + h, lists[h]);
      assert next[..][At(nodes + h, lists[h], 0)] == At(nodes + h, lists[h], 1);
      ListInsert(x, nodes + h, next[nodes + h], h, 0);
      assert Inserted(old(lists)[h], 0, x) == [x] + old(lists)[h];
    }

    method ListAddTail(x: nat, h: nat)
      requires Valid() && h < |lists| && x < nodes && !OnSome(lists, x)
      modifies this, next, prev
      ensures Valid() && lists == old(lists)[h := old(lists)[h] + [x]]
    {
      ghost var s := lists[h];
      assert Ring(next[..], prev[..], nodes + h, s);
      assert prev[..][At(nodes + h, s, |s| + 1)] == At(nodes + h, s, |s|);
      ListInsert(x, prev[nodes + h], nodes + h, h, |s|);
      assert Inserted(s, |s|, x) == s + [x];
    }

    method ListDel(x: nat, ghost h: nat, ghost k: nat)
      requires Valid() && h < |lists| && k < |lists[h]| && lists[h][k] == x
      modifies this, next, prev
      ensures Valid() && lists == old(lists)[h := Removed(old(lists)[h], k)]
      ensures !OnSome(lists, x)
    {
      ghost var s := lists[h];
      assert Ring(next[..], prev[..], nodes + h, s);
      assert next[..][At(nodes + h, s, k + 1)] == At(nodes + h, s, k + 2);
      assert prev[..][At(nodes + h, s, k + 1)] == At(nodes + h, s, k);
      var p, n := prev[x], next[x];
      prev[n] := p;
      next[p] := n;
      next[x] := NULL;
      prev[x] := NULL;
      RemoveThreaded(old(next[..]), old(prev[..]), next[..], prev[..], nodes, lists, h, k);
      RemoveDisjoint(lists, h, k);
      lists := lists[h := Removed(lists[h], k)];
    }
  }
}
