/** Walks, reachability, connectivity and bridges over adjacency lists. */
module Paths {
  import opened Adjacency

  /** p is a walk: a non-empty sequence of vertices, each listed as a neighbour
      of the one before it. */
  ghost predicate IsPath(adj: AdjList, p: seq<nat>) {
    && |p| >= 1
    && (forall i :: 0 <= i < |p| ==> p[i] < |adj|)
    && (forall i :: 0 <= i < |p| - 1 ==> p[i + 1] in adj[p[i]])
  }

  ghost predicate Reachable(adj: AdjList, s: nat, t: nat) {
    exists p :: IsPath(adj, p) && p[0] == s && p[|p| - 1] == t
  }

  /** What `grafo_conectado` tests: every vertex is reachable from vertex 0. */
  ghost predicate Connected(adj: AdjList) {
    |adj| >= 1 && forall t :: 0 <= t < |adj| ==> Reachable(adj, 0, t)
  }

  /** What the connectivity test inside `fleury` tests: any two vertices that
      still have an edge are joined by a walk. */
  ghost predicate ConnectedIgnoringIsolated(adj: AdjList) {
    forall a, b {:trigger Reachable(adj, a, b)} ::
      0 <= a < |adj| && 0 <= b < |adj| && adj[a] != [] && adj[b] != [] ==> Reachable(adj, a, b)
  }

  /** u-v is an edge whose removal separates u from v. */
  ghost predicate Bridge(adj: AdjList, u: nat, v: nat) {
    u < |adj| && v < |adj| && v in adj[u] && !Reachable(Without(adj, u, v), u, v)
  }

  lemma ReachRefl(adj: AdjList, s: nat)
    requires s < |adj|
    ensures Reachable(adj, s, s)
  {
    assert IsPath(adj, [s]);
  }

  lemma ReachEdge(adj: AdjList, s: nat, t: nat)
    requires s < |adj| && t < |adj| && t in adj[s]
    ensures Reachable(adj, s, t)
  {
    assert IsPath(adj, [s, t]);
  }

  lemma ReachStep(adj: AdjList, s: nat, t: nat, u: nat)
    requires Reachable(adj, s, t) && t < |adj| && u < |adj| && u in adj[t]
    ensures Reachable(adj, s, u)
  {
    var p :| IsPath(adj, p) && p[0] == s && p[|p| - 1] == t;
    var q := p + [u];
    assert IsPath(adj, q) by {
      forall i | 0 <= i < |q| - 1 ensures q[i + 1] in adj[q[i]] {
        if i < |p| - 1 { assert q[i] == p[i] && q[i + 1] == p[i + 1]; }
      }
    }
  }

  lemma ReachTrans(adj: AdjList, s: nat, t: nat, u: nat)
    requires Reachable(adj, s, t) && Reachable(adj, t, u)
    ensures Reachable(adj, s, u)
  {
    var p :| IsPath(adj, p) && p[0] == s && p[|p| - 1] == t;
    var q :| IsPath(adj, q) && q[0] == t && q[|q| - 1] == u;
    var r := p + q[1..];
    assert IsPath(adj, r) by {
      forall i | 0 <= i < |r| ensures r[i] < |adj| {
        if i >= |p| { assert r[i] == q[i - |p| + 1]; }
      }
      forall i | 0 <= i < |r| - 1 ensures r[i + 1] in adj[r[i]] {
        if i < |p| - 1 {
          assert r[i] == p[i] && r[i + 1] == p[i + 1];
        } else {
          var k := i - |p| + 1;
          assert r[i] == q[k] && r[i + 1] == q[k + 1];
        }
      }
    }
  }

  lemma ReachSym(adj: AdjList, s: nat, t: nat)
    requires Symmetric(adj) && Reachable(adj, s, t)
    ensures Reachable(adj, t, s)
  {
    var p :| IsPath(adj, p) && p[0] == s && p[|p| - 1] == t;
    var r := seq(|p|, i requires 0 <= i < |p| => p[|p| - 1 - i]);
    assert IsPath(adj, r) by {
      forall i | 0 <= i < |r| - 1 ensures r[i + 1] in adj[r[i]] {
        var k := |p| - 2 - i;
        assert r[i] == p[k + 1] && r[i + 1] == p[k];
        assert p[k + 1] in adj[p[k]];
      }
    }
  }

  /** A set that holds s and every neighbour of its members holds every
      vertex reachable from s. */
  lemma ReachClosed(adj: AdjList, S: set<nat>, s: nat, t: nat)
    requires s in S
    requires forall x, y :: x in S && x < |adj| && y in adj[x] ==> y in S
    requires Reachable(adj, s, t)
    ensures t in S
  {
    var p :| IsPath(adj, p) && p[0] == s && p[|p| - 1] == t;
    var k := 0;
    while k < |p| - 1
      invariant 0 <= k <= |p| - 1
      invariant p[k] in S
    {
      assert p[k + 1] in adj[p[k]];
      k := k + 1;
    }
  }

  lemma PathSameNeighbours(a: AdjList, b: AdjList, p: seq<nat>)
    requires SameNeighbours(a, b) && IsPath(a, p)
    ensures IsPath(b, p)
  {
    SameNeighboursMembership(a, b);
    forall i | 0 <= i < |p| - 1 ensures p[i + 1] in b[p[i]] {
      assert p[i + 1] in a[p[i]];
    }
  }

  /** Reachability sees only which neighbours a vertex has, not their order. */
  lemma ReachSameNeighbours(a: AdjList, b: AdjList, s: nat, t: nat)
    requires SameNeighbours(a, b)
    ensures Reachable(a, s, t) <==> Reachable(b, s, t)
  {
    if Reachable(a, s, t) {
      var p :| IsPath(a, p) && p[0] == s && p[|p| - 1] == t;
      PathSameNeighbours(a, b, p);
    }
    if Reachable(b, s, t) {
      var p :| IsPath(b, p) && p[0] == s && p[|p| - 1] == t;
      assert SameNeighbours(b, a);
      PathSameNeighbours(b, a, p);
    }
  }

  lemma ConnectedSameNeighbours(a: AdjList, b: AdjList)
    requires SameNeighbours(a, b)
    ensures Connected(a) <==> Connected(b)
    ensures ConnectedIgnoringIsolated(a) <==> ConnectedIgnoringIsolated(b)
  {
    forall s, t ensures Reachable(a, s, t) <==> Reachable(b, s, t) {
      ReachSameNeighbours(a, b, s, t);
    }
    forall x | 0 <= x < |a| ensures (a[x] == []) <==> (b[x] == []) {
      assert |a[x]| == |multiset(a[x])| == |multiset(b[x])| == |b[x]|;
    }
  }

  /** A walk that never crosses u-v is a walk once u-v is removed. */
  lemma PathAvoids(adj: AdjList, u: nat, v: nat, p: seq<nat>)
    requires u < |adj| && v < |adj| && IsPath(adj, p)
    requires forall i :: 0 <= i < |p| - 1 ==>
      !(p[i] == u && p[i + 1] == v) && !(p[i] == v && p[i + 1] == u)
    ensures IsPath(Without(adj, u, v), p)
  {
    var w := Without(adj, u, v);
    forall i | 0 <= i < |p| - 1 ensures p[i + 1] in w[p[i]] {
      assert p[i + 1] in adj[p[i]];
    }
  }

  /** Every walk after a removal was a walk before it. */
  lemma ReachWithoutImplies(adj: AdjList, u: nat, v: nat, s: nat, t: nat)
    requires u < |adj| && v < |adj| && Reachable(Without(adj, u, v), s, t)
    ensures Reachable(adj, s, t)
  {
    var w := Without(adj, u, v);
    var p :| IsPath(w, p) && p[0] == s && p[|p| - 1] == t;
    forall i | 0 <= i < |p| - 1 ensures p[i + 1] in adj[p[i]] {
      assert p[i + 1] in w[p[i]];
    }
    assert IsPath(adj, p);
  }

  lemma WithoutSymmetric(adj: AdjList, u: nat, v: nat)
    requires Symmetric(adj) && u < |adj| && v < |adj|
    ensures Symmetric(Without(adj, u, v))
  {
    var w := Without(adj, u, v);
    forall x: nat, y: nat | x < |w| && y in w[x] ensures y < |w| && x in w[y] {
      assert y in adj[x] && !(x == u && y == v) && !(x == v && y == u);
      assert y < |adj| && x in adj[y];
      assert x in w[y] <==> x in adj[y] && !(y == u && x == v) && !(y == v && x == u);
    }
  }

  /** When u still reaches v without the edge u-v, removing that edge
      disconnects nothing. */
  lemma {:induction false} Reroute(adj: AdjList, u: nat, v: nat, s: nat, t: nat)
    requires Symmetric(adj) && u < |adj| && v < |adj|
    requires Reachable(Without(adj, u, v), u, v)
    requires Reachable(adj, s, t)
    ensures Reachable(Without(adj, u, v), s, t)
  {
    var w := Without(adj, u, v);
    WithoutSymmetric(adj, u, v);
    ReachSym(w, u, v);
    var p :| IsPath(adj, p) && p[0] == s && p[|p| - 1] == t;
    ReachRefl(w, s);
    var k := 0;
    while k < |p| - 1
      invariant 0 <= k <= |p| - 1
      invariant Reachable(w, s, p[k])
    {
      var a, b := p[k], p[k + 1];
      assert b in adj[a];
      if a == u && b == v {
        ReachTrans(w, s, u, v);
      } else if a == v && b == u {
        ReachTrans(w, s, v, u);
      } else {
        ReachStep(w, s, a, b);
      }
      k := k + 1;
    }
  }

  /** On a connected graph, "removing u-v leaves some vertex unreachable from
      0" and "removing u-v separates u from v" say the same thing. */
  lemma BridgeIffDisconnects(adj: AdjList, u: nat, v: nat)
    requires Symmetric(adj) && Connected(adj) && u < |adj| && v < |adj| && v in adj[u]
    ensures !Connected(Without(adj, u, v)) <==> Bridge(adj, u, v)
  {
    var w := Without(adj, u, v);
    WithoutSymmetric(adj, u, v);
    if Connected(w) {
      assert Reachable(w, 0, u) && Reachable(w, 0, v);
      ReachSym(w, 0, u);
      ReachTrans(w, u, 0, v);
    }
    if !Bridge(adj, u, v) {
      forall t | 0 <= t < |w| ensures Reachable(w, 0, t) {
        assert Reachable(adj, 0, t);
        Reroute(adj, u, v, 0, t);
      }
    }
  }

  /** Removing an edge from a disconnected graph leaves it disconnected. */
  lemma DisconnectedStays(adj: AdjList, u: nat, v: nat)
    requires u < |adj| && v < |adj| && !Connected(adj)
    ensures !Connected(Without(adj, u, v))
  {
    if Connected(Without(adj, u, v)) {
      forall t | 0 <= t < |adj| ensures Reachable(adj, 0, t) {
        ReachWithoutImplies(adj, u, v, 0, t);
      }
    }
  }

  /** A graph of more than one vertex and no edges is not connected. */
  lemma NoEdgesNotConnected(adj: AdjList)
    requires |adj| > 1 && forall u :: 0 <= u < |adj| ==> adj[u] == []
    ensures !Connected(adj)
  {
    if Connected(adj) {
      assert Reachable(adj, 0, 1);
      ReachClosed(adj, {0}, 0, 1);
    }
  }

  lemma BridgeSymmetric(adj: AdjList, u: nat, v: nat)
    requires Symmetric(adj)
    ensures Bridge(adj, u, v) <==> Bridge(adj, v, u)
  {
    if u < |adj| && v < |adj| {
      WithoutCommutes(adj, u, v);
      var w := Without(adj, u, v);
      WithoutSymmetric(adj, u, v);
      if Reachable(w, u, v) { ReachSym(w, u, v); }
      if Reachable(w, v, u) { ReachSym(w, v, u); }
    }
  }

  lemma BridgeSameNeighbours(a: AdjList, b: AdjList, u: nat, v: nat)
    requires SameNeighbours(a, b)
    ensures Bridge(a, u, v) <==> Bridge(b, u, v)
  {
    if u < |a| && v < |a| {
      SameNeighboursMembership(a, b);
      WithoutSameNeighbours(a, b, u, v);
      ReachSameNeighbours(Without(a, u, v), Without(b, u, v), u, v);
    }
  }
}
