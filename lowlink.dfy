/** What the low values say once the search is over: an edge is a bridge
    exactly when it joins a vertex to a child whose low value is above the
    parent's discovery time, and that is the test `busca_pontes` applies
    before appending to `pontes`. */
module LowLink {
  import opened Adjacency
  import opened Paths
  import opened DfsTree
  import opened Scan

  /** a-b is a tree edge from a down to b, and nothing below b reaches back
      to a or above: `low[b] > TD[a]` with `pai[b] == a`. */
  ghost predicate TreeBridge(T: seq<nat>, P: seq<int>, L: seq<nat>, a: nat, b: nat) {
    b < |P| && b < |L| && a < |T| && P[b] == a && L[b] > T[a]
  }

  /** The list B holds what B0 held, plus the tree bridges (a, b) whose lower
      end b was discovered in the time range (lo, hi]. */
  ghost predicate Recorded(T: seq<nat>, P: seq<int>, L: seq<nat>, B: seq<(nat, nat)>,
                           B0: seq<(nat, nat)>, lo: nat, hi: nat) {
    forall a: nat, b: nat ::
      (a, b) in B <==> (a, b) in B0 || (b < |T| && lo < T[b] <= hi && TreeBridge(T, P, L, a, b))
  }

  /** The search is over: every vertex is discovered and no call is running. */
  ghost predicate Done(adj: AdjList, s: Dfs) {
    Inv(adj, s) && s.stack == [] && forall z :: 0 <= z < |adj| ==> s.T[z] > 0
  }

  /** The clock and the arrays once the search is over: `tempo` has counted
      every vertex exactly once, the discovery times are 1..n without
      repeats, and no low value is above its vertex's discovery time. */
  lemma DoneTimes(adj: AdjList, s: Dfs)
    requires Done(adj, s)
    ensures s.time == |adj|
    ensures forall z :: 0 <= z < |adj| ==> 1 <= s.T[z] <= |adj| && s.L[z] <= s.T[z]
    ensures forall a, b :: 0 <= a < |adj| && 0 <= b < |adj| && a != b ==> s.T[a] != s.T[b]
  {
    ClockAtMost(adj, s);
    ClockAtLeast(adj, s);
    InvClock(adj, s);
    forall z | 0 <= z < |adj| ensures s.L[z] <= s.T[z] {
      DoneFinal(adj, s, z);
    }
  }

  /** Each tick of the clock discovered a different vertex. */
  lemma ClockAtMost(adj: AdjList, s: Dfs)
    requires Inv(adj, s)
    ensures s.time <= |adj|
  {
    var o := s.order;
    forall i, j | 0 <= i < j < |o| ensures o[i] != o[j] {
      assert s.T[o[i]] == i + 1 && s.T[o[j]] == j + 1;
    }
    NoDupBound(o, |adj|);
  }

  /** Once every vertex is discovered, the clock has ticked for each. */
  lemma ClockAtLeast(adj: AdjList, s: Dfs)
    requires Done(adj, s)
    ensures |adj| <= s.time
    ensures forall a, b :: 0 <= a < |adj| && 0 <= b < |adj| && a != b ==> s.T[a] != s.T[b]
  {
    var n := |adj|;
    InvClock(adj, s);
    forall a, b | 0 <= a < n && 0 <= b < n && a != b ensures s.T[a] != s.T[b] {
      InvInjective(adj, s, a, b);
    }
    var shifted := seq(n, z requires 0 <= z < n => s.T[z] - 1);
    forall i, j | 0 <= i < j < n ensures shifted[i] != shifted[j] {
      assert s.T[i] != s.T[j];
    }
    NoDupBound(shifted, s.time);
  }

  /** After the search every vertex has finished, and its window is final. */
  lemma DoneFinal(adj: AdjList, s: Dfs, z: nat)
    requires Done(adj, s) && z < |adj|
    ensures s.F[z] > 0 && Final(adj, s, z)
  {
    VertexOf(adj, s, |adj|, z);
  }

  /** The window of v is closed under the edges other than u-v when v is a
      child of u whose low value is above the time of u. */
  lemma WindowClosed(adj: AdjList, s: Dfs, u: nat, v: nat, S: set<nat>)
    requires WellFormed(adj) && Done(adj, s) && u < |adj| && v < |adj| && v in adj[u]
    requires s.T[u] < s.T[v] && s.P[v] == u && s.L[v] > s.T[u]
    requires S == set c | 0 <= c < |adj| && s.T[v] <= s.T[c] <= s.F[v]
    ensures forall x, y :: x in S && x < |adj| && y in Without(adj, u, v)[x] ==> y in S
  {
    DoneFinal(adj, s, v);
    InvParents(adj, s);
    var W := Without(adj, u, v);
    forall x, y | x in S && x < |adj| && y in W[x] ensures y in S {
      assert y in adj[x] && !(x == v && y == u);
      assert Within(s.T, v, s.F[v], x) && Counted(adj, v, adj[v], x, y);
      if s.T[y] < s.T[v] {
        // reaching back above v would go through an ancestor of u
        TreeReachTimes(adj, s.T, s.P, y, u);
      }
    }
  }

  /** For an edge u-v with u discovered first: it is a bridge exactly when v
      is a child of u and the low value of v is above the time of u. */
  lemma EdgeOrdered(adj: AdjList, s: Dfs, u: nat, v: nat)
    requires WellFormed(adj) && Done(adj, s) && u < |adj| && v in adj[u] && s.T[u] < s.T[v]
    ensures Bridge(adj, u, v) <==> (s.P[v] == u && s.L[v] > s.T[u])
  {
    assert v < |adj| && u in adj[v];
    DoneFinal(adj, s, v);
    InvParents(adj, s);
    var W := Without(adj, u, v);
    WithoutSymmetric(adj, u, v);
    assert Within(s.T, v, s.F[v], v) && Counted(adj, v, adj[v], v, u);
    assert s.P[v] >= 0 && TreeReach(s.T, s.P, u, s.P[v] as nat);
    if s.P[v] == u {
      if s.L[v] > s.T[u] {
        var S := set c | 0 <= c < |adj| && s.T[v] <= s.T[c] <= s.F[v];
        WindowClosed(adj, s, u, v, S);
        if Reachable(W, u, v) {
          ReachSym(W, u, v);
          ReachClosed(W, S, v, u);
        }
      } else {
        // the low value of v is attained by an edge c-y leaving the subtree
        // of v upwards, and the tree leads back from y to u
        var c: nat, y: nat :| Within(s.T, v, s.F[v], c) && Counted(adj, v, adj[v], c, y) &&
          (c != v || y != s.P[v]) && y < |s.T| && s.L[v] == s.T[y];
        assert TreeReach(s.T, s.P, v, c);
        TreeWalk(adj, s.T, s.P, v, c, u, v);
        assert y in W[c];
        ReachStep(W, v, c, y);
        TreeWalk(adj, s.T, s.P, y, u, u, v);
        ReachTrans(W, v, y, u);
        ReachSym(W, v, u);
      }
    } else {
      TreeReachExtend(s.T, s.P, u, s.P[v] as nat, v);
      TreeWalk(adj, s.T, s.P, u, v, u, v);
    }
  }

  /** The theorem behind `identificar_pontes_tarjan`: once the search is over,
      an edge u-v is a bridge exactly when one of its two ends is the tree
      child of the other with a low value above the parent's time. */
  lemma TarjanCorrect(adj: AdjList, s: Dfs)
    requires WellFormed(adj) && Done(adj, s)
    ensures forall u, v :: 0 <= u < |adj| && v in adj[u] ==>
      (Bridge(adj, u, v) <==> TreeBridge(s.T, s.P, s.L, u, v) || TreeBridge(s.T, s.P, s.L, v, u))
  {
    forall u, v | 0 <= u < |adj| && v in adj[u]
      ensures Bridge(adj, u, v) <==>
        TreeBridge(s.T, s.P, s.L, u, v) || TreeBridge(s.T, s.P, s.L, v, u)
    {
      TarjanEdge(adj, s, u, v);
    }
  }

  lemma TarjanEdge(adj: AdjList, s: Dfs, u: nat, v: nat)
    requires WellFormed(adj) && Done(adj, s) && u < |adj| && v in adj[u]
    ensures Bridge(adj, u, v) <==>
      TreeBridge(s.T, s.P, s.L, u, v) || TreeBridge(s.T, s.P, s.L, v, u)
  {
    assert v < |adj| && u in adj[v] && u != v;
    VertexOf(adj, s, |adj|, u);
    VertexOf(adj, s, |adj|, v);
    InvInjective(adj, s, u, v);
    BridgeSymmetric(adj, u, v);
    if s.T[u] < s.T[v] {
      EdgeOrdered(adj, s, u, v);
    } else {
      EdgeOrdered(adj, s, v, u);
    }
  }

  /** Changing the low value of a vertex outside the range changes nothing. */
  lemma RecordSetLow(T: seq<nat>, P: seq<int>, L: seq<nat>, B: seq<(nat, nat)>,
                     B0: seq<(nat, nat)>, lo: nat, hi: nat, v: nat, x: nat)
    requires Recorded(T, P, L, B, B0, lo, hi) && v < |T| && v < |L| && T[v] <= lo
    ensures Recorded(T, P, L[v := x], B, B0, lo, hi)
  {
    forall a: nat, b: nat | b < |T| && lo < T[b] <= hi
      ensures TreeBridge(T, P, L[v := x], a, b) <==> TreeBridge(T, P, L, a, b)
    {
      assert b != v;
    }
  }

  /** Back from the call on w, `if low[w] > TD[v]: pontes.append((v, w))`
      records the tree edge v-w exactly when it is a tree bridge, and the
      range of recorded vertices grows by the subtree of w. */
  lemma RecordChild(adj: AdjList, s0: Dfs, s: Dfs, s2: Dfs, v: nat, done: seq<nat>, w: nat,
                    B: seq<(nat, nat)>, B2: seq<(nat, nat)>, B0: seq<(nat, nat)>)
    requires Scanning(adj, s0, s, v, done) && w in adj[v] && s.T[w] == 0
    requires Inv(adj, s2) && Extends(s.(P := s.P[w := v]), s2)
    requires s2.T[w] == s.time + 1 && s2.P[w] == v
    requires Recorded(s.T, s.P, s.L, B, B0, s.T[v], s.time)
    requires Recorded(s2.T, s2.P, s2.L, B2, B, s2.T[w], s2.time)
    ensures Recorded(s2.T, s2.P, s2.L[v := Min(s2.L[v], s2.L[w])],
                     if s2.L[w] > s2.T[v] then B2 + [(v, w)] else B2, B0, s2.T[v], s2.time)
  {
    assert Extends(s, s.(P := s.P[w := v]));
    ExtendsTrans(s, s.(P := s.P[w := v]), s2);
    var L3 := s2.L[v := Min(s2.L[v], s2.L[w])];
    var B3 := if s2.L[w] > s2.T[v] then B2 + [(v, w)] else B2;
    forall a: nat, b: nat
      ensures (a, b) in B3 <==> ((a, b) in B0 ||
        (b < |s2.T| && s2.T[v] < s2.T[b] <= s2.time && TreeBridge(s2.T, s2.P, L3, a, b)))
    {
      RecordChildPair(adj, s0, s, s2, v, done, w, a, b);
    }
  }

  /** The vertex b is counted on the same side before and after the call. */
  lemma RecordChildPair(adj: AdjList, s0: Dfs, s: Dfs, s2: Dfs, v: nat, done: seq<nat>, w: nat,
                        a: nat, b: nat)
    requires Scanning(adj, s0, s, v, done) && w in adj[v] && s.T[w] == 0
    requires Inv(adj, s2) && Extends(s, s2) && s2.T[w] == s.time + 1 && s2.P[w] == v
    ensures var L3 := s2.L[v := Min(s2.L[v], s2.L[w])];
      var before := b < |s.T| && s.T[v] < s.T[b] <= s.time && TreeBridge(s.T, s.P, s.L, a, b);
      var inner := b < |s2.T| && s2.T[w] < s2.T[b] <= s2.time && TreeBridge(s2.T, s2.P, s2.L, a, b);
      var here := a == v && b == w && s2.L[w] > s2.T[v];
      var after := b < |s2.T| && s2.T[v] < s2.T[b] <= s2.time && TreeBridge(s2.T, s2.P, L3, a, b);
      after <==> before || inner || here
  {
    assert w < |adj|;
    VertexOf(adj, s2, |adj|, w);
    if b < |adj| {
      VertexOf(adj, s, |adj|, b);
      VertexOf(adj, s2, |adj|, b);
      InvInjective(adj, s2, b, w);
      if s.T[b] > 0 && s.T[v] < s.T[b] {
        assert Within(s.T, v, s.time, b) && b != v;
        if s.P[b] >= 0 {
          VertexOf(adj, s, |adj|, s.P[b] as nat);
        }
      }
    }
  }

  /** A root call, `busca_pontes(v)` from the outer loop, extends the range
      of recorded vertices from the old time to the new one. */
  lemma RecordRoot(adj: AdjList, s1: Dfs, s2: Dfs, v: nat, B1: seq<(nat, nat)>,
                   B2: seq<(nat, nat)>)
    requires Inv(adj, s1) && s1.stack == [] && v < |adj| && s1.T[v] == 0
    requires Inv(adj, s2) && Extends(s1, s2) && s2.T[v] == s1.time + 1 && s2.P[v] == -1
    requires Recorded(s1.T, s1.P, s1.L, B1, [], 0, s1.time)
    requires Recorded(s2.T, s2.P, s2.L, B2, B1, s2.T[v], s2.time)
    ensures Recorded(s2.T, s2.P, s2.L, B2, [], 0, s2.time)
  {
    forall a: nat, b: nat
      ensures (a, b) in B2 <==>
        (b < |s2.T| && 0 < s2.T[b] <= s2.time && TreeBridge(s2.T, s2.P, s2.L, a, b))
    {
      RecordRootPair(adj, s1, s2, v, a, b);
    }
  }

  lemma RecordRootPair(adj: AdjList, s1: Dfs, s2: Dfs, v: nat, a: nat, b: nat)
    requires Inv(adj, s1) && s1.stack == [] && v < |adj| && s1.T[v] == 0
    requires Inv(adj, s2) && Extends(s1, s2) && s2.T[v] == s1.time + 1 && s2.P[v] == -1
    ensures var before := b < |s1.T| && 0 < s1.T[b] <= s1.time &&
        TreeBridge(s1.T, s1.P, s1.L, a, b);
      var inner := b < |s2.T| && s2.T[v] < s2.T[b] <= s2.time &&
        TreeBridge(s2.T, s2.P, s2.L, a, b);
      var after := b < |s2.T| && 0 < s2.T[b] <= s2.time && TreeBridge(s2.T, s2.P, s2.L, a, b);
      after <==> before || inner
  {
    if b < |adj| {
      VertexOf(adj, s1, |adj|, b);
      VertexOf(adj, s2, |adj|, b);
      InvInjective(adj, s2, b, v);
      if s1.T[b] > 0 && s1.P[b] >= 0 {
        VertexOf(adj, s1, |adj|, s1.P[b] as nat);
      }
    }
  }

  /** What `identificar_pontes_tarjan` returns, once every vertex has been
      searched: the edges it lists are bridges, listed from the parent end;
      every bridge is listed at one of its two ends; and no edge is listed at
      both. */
  lemma TarjanResult(adj: AdjList, s: Dfs, B: seq<(nat, nat)>)
    requires WellFormed(adj) && Done(adj, s) && Recorded(s.T, s.P, s.L, B, [], 0, s.time)
    ensures forall a, b :: (a, b) in B ==> a < |adj| && b in adj[a] && Bridge(adj, a, b)
    ensures forall u, v :: 0 <= u < |adj| && v in adj[u] && Bridge(adj, u, v) ==>
      (u, v) in B || (v, u) in B
    ensures forall a, b :: (a, b) in B ==> (b, a) !in B
  {
    InvParents(adj, s);
    TarjanCorrect(adj, s);
    forall a: nat, b: nat | b < |adj|
      ensures (a, b) in B <==> TreeBridge(s.T, s.P, s.L, a, b)
    {
      VertexOf(adj, s, |adj|, b);
    }
  }
}
