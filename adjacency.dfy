/** Adjacency lists as values: the two edits the graph class performs on its
    dictionary of neighbour lists, and the shape those edits keep. */
module Adjacency {

  /** Entry u lists the neighbours of vertex u, in insertion order. The weight
      1 that the source pairs with every neighbour is never read and is left
      implicit. */
  type AdjList = seq<seq<nat>>

  ghost predicate NoDup(s: seq<nat>) {
    forall i, j :: 0 <= i < j < |s| ==> s[i] != s[j]
  }

  /** Every listed neighbour is a vertex. */
  ghost predicate InRange(adj: AdjList) {
    forall u, i :: 0 <= u < |adj| && 0 <= i < |adj[u]| ==> adj[u][i] < |adj|
  }

  ghost predicate Symmetric(adj: AdjList) {
    forall u: nat, v: nat {:trigger v in adj[u]} :: u < |adj| && v in adj[u] ==> v < |adj| && u in adj[v]
  }

  /** The shape every completed mutation of the graph leaves behind: neighbours
      are vertices, no vertex lists itself, no neighbour is listed twice, and
      every edge is listed at both ends. */
  ghost predicate WellFormed(adj: AdjList) {
    && InRange(adj)
    && (forall u :: 0 <= u < |adj| ==> u !in adj[u])
    && (forall u :: 0 <= u < |adj| ==> NoDup(adj[u]))
    && Symmetric(adj)
  }

  /** Two adjacency lists that differ at most in the order of each list. */
  ghost predicate SameNeighbours(a: AdjList, b: AdjList) {
    |a| == |b| && forall u :: 0 <= u < |a| ==> multiset(a[u]) == multiset(b[u])
  }

  /** The comprehension that keeps the entries not naming x. */
  function Filter(s: seq<nat>, x: nat): (r: seq<nat>)
    ensures forall y {:trigger y in r} :: y in r <==> y in s && y != x
    ensures multiset(r) == multiset(s)[x := 0]
    ensures x !in s ==> r == s
  {
    if s == [] then []
    else if s[0] == x then
      assert s == [s[0]] + s[1..];
      Filter(s[1..], x)
    else
      assert s == [s[0]] + s[1..];
      [s[0]] + Filter(s[1..], x)
  }

  lemma NoDupTail(s: seq<nat>)
    requires NoDup(s) && s != []
    ensures NoDup(s[1..]) && s[0] !in s[1..]
  {
    var t := s[1..];
    forall i, j | 0 <= i < j < |t| ensures t[i] != t[j] {
      assert t[i] == s[i + 1] && t[j] == s[j + 1];
    }
    forall j | 0 <= j < |t| ensures t[j] != s[0] {
      assert t[j] == s[j + 1];
    }
  }

  lemma NoDupCons(a: nat, f: seq<nat>)
    requires NoDup(f) && a !in f
    ensures NoDup([a] + f)
  {
    var r := [a] + f;
    forall i, j | 0 <= i < j < |r| ensures r[i] != r[j] {
      assert r[j] == f[j - 1];
      if i > 0 {
        assert r[i] == f[i - 1];
      }
    }
  }

  lemma {:induction false} FilterNoDup(s: seq<nat>, x: nat)
    requires NoDup(s)
    ensures NoDup(Filter(s, x))
    ensures x in s ==> |Filter(s, x)| == |s| - 1
  {
    if s != [] {
      NoDupTail(s);
      FilterNoDup(s[1..], x);
      if s[0] != x {
        NoDupCons(s[0], Filter(s[1..], x));
      }
    }
  }

  /** A list of numbers below m without repeats has at most m entries. */
  lemma {:induction false} NoDupBound(s: seq<nat>, m: nat)
    requires NoDup(s) && forall i :: 0 <= i < |s| ==> s[i] < m
    ensures |s| <= m
    decreases m
  {
    if s != [] {
      assert s[0] < m;
      var r := DropLargest(s, m - 1);
      NoDupBound(r, m - 1);
    }
  }

  /** Dropping the largest value m from a list of numbers up to m without
      repeats leaves a list of numbers below m without repeats, at most one
      entry shorter. */
  lemma DropLargest(s: seq<nat>, m: nat) returns (r: seq<nat>)
    requires NoDup(s) && forall i :: 0 <= i < |s| ==> s[i] <= m
    ensures NoDup(r) && |s| <= |r| + 1
    ensures forall i :: 0 <= i < |r| ==> r[i] < m
  {
    r := Filter(s, m);
    FilterNoDup(s, m);
    forall i | 0 <= i < |r| ensures r[i] < m {
      assert r[i] in r;
      var j :| 0 <= j < |s| && s[j] == r[i];
    }
  }

  /** `remover_aresta(u, v)`: the list of u loses every entry naming v, then
      the (possibly just rebuilt) list of v loses every entry naming u. */
  function Without(adj: AdjList, u: nat, v: nat): (r: AdjList)
    requires u < |adj| && v < |adj|
    ensures |r| == |adj|
    ensures forall x, y {:trigger y in r[x]} :: 0 <= x < |adj| ==>
      (y in r[x] <==> y in adj[x] && !(x == u && y == v) && !(x == v && y == u))
    ensures forall x {:trigger r[x]} :: 0 <= x < |adj| && x != u && x != v ==> r[x] == adj[x]
  {
    var a := adj[u := Filter(adj[u], v)];
    a[v := Filter(a[v], u)]
  }

  /** `adicionar_aresta(u, v)`: when v is not yet a neighbour of u, append v to
      the list of u and then u to the list of v. */
  function With(adj: AdjList, u: nat, v: nat): (r: AdjList)
    requires u < |adj| && v < |adj|
    ensures |r| == |adj|
    ensures v in adj[u] ==> r == adj
    ensures forall x {:trigger r[x]} :: 0 <= x < |adj| && x != u && x != v ==> r[x] == adj[x]
    ensures (v in adj[u] <==> u in adj[v]) ==> forall x, y {:trigger y in r[x]} :: 0 <= x < |adj| ==>
      (y in r[x] <==> y in adj[x] || (x == u && y == v) || (x == v && y == u))
  {
    if v in adj[u] then adj
    else
      var a := adj[u := adj[u] + [v]];
      a[v := a[v] + [u]]
  }

  /** Sum of the lengths of all neighbour lists: twice the number of edges. */
  function DegreeSum(adj: AdjList): (r: nat) {
    if adj == [] then 0 else DegreeSum(adj[..|adj| - 1]) + |adj[|adj| - 1]|
  }

  lemma {:induction false} DegreeSumUpdate(adj: AdjList, u: nat, s: seq<nat>)
    requires u < |adj|
    ensures DegreeSum(adj[u := s]) + |adj[u]| == DegreeSum(adj) + |s|
    decreases |adj|
  {
    var last := |adj| - 1;
    if u < last {
      assert adj[u := s][..last] == adj[..last][u := s];
      DegreeSumUpdate(adj[..last], u, s);
    } else {
      assert adj[u := s][..last] == adj[..last];
    }
  }

  lemma {:induction false} DegreeSumSame(a: AdjList, b: AdjList)
    requires SameNeighbours(a, b)
    ensures DegreeSum(a) == DegreeSum(b)
    decreases |a|
  {
    if a != [] {
      var last := |a| - 1;
      assert |a[last]| == |multiset(a[last])| == |multiset(b[last])| == |b[last]|;
      DegreeSumSame(a[..last], b[..last]);
    }
  }

  lemma WithoutKeepsShape(adj: AdjList, u: nat, v: nat)
    requires WellFormed(adj) && u < |adj| && v < |adj|
    ensures WellFormed(Without(adj, u, v))
  {
    var r := Without(adj, u, v);
    forall x | 0 <= x < |r| ensures NoDup(r[x]) {
      if x == u || x == v {
        FilterNoDup(adj[x], if x == u then v else u);
        if x == u && x == v {
          FilterNoDup(Filter(adj[x], v), u);
        }
      }
    }
    forall x, i | 0 <= x < |r| && 0 <= i < |r[x]| ensures r[x][i] < |r| {
      assert r[x][i] in r[x];
    }
  }

  /** Removing an edge of a well-formed graph removes exactly two list
      entries. */
  lemma WithoutDegreeSum(adj: AdjList, u: nat, v: nat)
    requires WellFormed(adj) && u < |adj| && v < |adj| && v in adj[u]
    ensures DegreeSum(Without(adj, u, v)) + 2 == DegreeSum(adj)
  {
    var a := adj[u := Filter(adj[u], v)];
    FilterNoDup(adj[u], v);
    DegreeSumUpdate(adj, u, Filter(adj[u], v));
    assert u != v;
    assert a[v] == adj[v];
    FilterNoDup(adj[v], u);
    DegreeSumUpdate(a, v, Filter(a[v], u));
  }

  lemma WithKeepsShape(adj: AdjList, u: nat, v: nat)
    requires WellFormed(adj) && u < |adj| && v < |adj| && u != v
    ensures WellFormed(With(adj, u, v))
  {
    var r := With(adj, u, v);
    if v !in adj[u] {
      assert u !in adj[v];
      forall x | 0 <= x < |r| ensures NoDup(r[x]) {
        if x == u || x == v {
          var s := adj[x];
          var y := if x == u then v else u;
          assert r[x] == s + [y];
          forall i, j | 0 <= i < j < |r[x]| ensures r[x][i] != r[x][j] {
            if j == |s| {
              assert r[x][i] == s[i];
              assert s[i] in s;
            }
          }
        }
      }
      forall x, i | 0 <= x < |r| && 0 <= i < |r[x]| ensures r[x][i] < |r| {
        assert r[x][i] in r[x];
      }
    }
  }

  /** Adding an edge back after removing it restores every neighbour
      multiset; only the position of the edge in the two lists changes. */
  lemma {:induction false} RemoveThenAddRestores(adj: AdjList, u: nat, v: nat)
    requires WellFormed(adj) && u < |adj| && v < |adj| && v in adj[u]
    ensures SameNeighbours(With(Without(adj, u, v), u, v), adj)
  {
    var w := Without(adj, u, v);
    var r := With(w, u, v);
    assert u != v;
    assert v !in w[u];
    assert r[u] == w[u] + [v] && r[v] == w[v] + [u];
    assert w[u] == Filter(adj[u], v);
    assert w[v] == Filter(adj[v], u);
    MultisetOfSingle(adj[u], v);
    MultisetOfSingle(adj[v], u);
  }

  /** Removing an edge and adding it back moves each end to the back of the
      other's list. */
  lemma RemoveThenAddOrder(adj: AdjList, u: nat, v: nat)
    requires WellFormed(adj) && u < |adj| && v < |adj| && v in adj[u]
    ensures With(Without(adj, u, v), u, v) ==
      adj[u := Filter(adj[u], v) + [v]][v := Filter(adj[v], u) + [u]]
  {
    assert u != v;
    var a1 := adj[u := Filter(adj[u], v)];
    assert a1[v] == adj[v];
    var w := a1[v := Filter(adj[v], u)];
    assert Without(adj, u, v) == w;
    assert w[u] == Filter(adj[u], v) && w[v] == Filter(adj[v], u);
    assert v !in w[u];
    var b1 := w[u := w[u] + [v]];
    assert b1[v] == w[v];
    assert With(w, u, v) == b1[v := b1[v] + [u]];
  }

  lemma {:induction false} MultisetOfSingle(s: seq<nat>, x: nat)
    requires NoDup(s) && x in s
    ensures multiset(s)[x] == 1
    ensures multiset(Filter(s, x) + [x]) == multiset(s)
  {
    NoDupTail(s);
    assert s == [s[0]] + s[1..];
    if s[0] == x {
      assert multiset(s[1..])[x] == 0;
    } else {
      MultisetOfSingle(s[1..], x);
    }
    var m := multiset(Filter(s, x) + [x]);
    assert m == multiset(s)[x := 0] + multiset{x};
  }

  /** Adding an edge that is already present changes nothing. */
  lemma WithIdempotent(adj: AdjList, u: nat, v: nat)
    requires u < |adj| && v < |adj|
    ensures With(With(adj, u, v), u, v) == With(adj, u, v)
  {
  }

  /** Removing an absent edge changes nothing. */
  lemma WithoutAbsent(adj: AdjList, u: nat, v: nat)
    requires Symmetric(adj) && u < |adj| && v < |adj| && v !in adj[u]
    ensures Without(adj, u, v) == adj
  {
  }

  /** `remover_aresta(u, v)` and `remover_aresta(v, u)` leave the same lists. */
  lemma WithoutCommutes(adj: AdjList, u: nat, v: nat)
    requires u < |adj| && v < |adj|
    ensures Without(adj, u, v) == Without(adj, v, u)
  {
  }

  lemma SameNeighboursMembership(a: AdjList, b: AdjList)
    requires SameNeighbours(a, b)
    ensures forall u, y :: 0 <= u < |a| ==> (y in a[u] <==> y in b[u])
  {
    forall u, y | 0 <= u < |a| ensures y in a[u] <==> y in b[u] {
      assert y in a[u] <==> y in multiset(a[u]);
      assert y in b[u] <==> y in multiset(b[u]);
    }
  }

  lemma WithoutSameNeighbours(a: AdjList, b: AdjList, u: nat, v: nat)
    requires SameNeighbours(a, b) && u < |a| && v < |a|
    ensures SameNeighbours(Without(a, u, v), Without(b, u, v))
  {
    var ra, rb := Without(a, u, v), Without(b, u, v);
    forall x | 0 <= x < |a| ensures multiset(ra[x]) == multiset(rb[x]) {
      var a1, b1 := a[u := Filter(a[u], v)], b[u := Filter(b[u], v)];
      assert multiset(a1[x]) == multiset(b1[x]);
      assert multiset(a1[v]) == multiset(b1[v]);
    }
  }
}
