/** The depth-first search tree that `identificar_pontes_tarjan` builds, the
    facts its low values satisfy, and why they pick out exactly the bridges.
    Each predicate takes just the parts of the search state it reads. */
module DfsTree {
  import opened Adjacency
  import opened Paths

  /** A snapshot of the search: discovery times T (`TD`, 0 while
      undiscovered), low values L (`low`), parents P (`pai`, -1 for None),
      and the bookkeeping the proof adds: finish times F (0 while
      unfinished), the clock (`tempo`), the discovery order and the stack of
      calls still running. */
  datatype Dfs = Dfs(T: seq<nat>, L: seq<nat>, P: seq<int>, F: seq<nat>,
                     time: nat, order: seq<nat>, stack: seq<nat>)

  ghost predicate Shaped(n: nat, s: Dfs) {
    |s.T| == n && |s.L| == n && |s.P| == n && |s.F| == n
  }

  /** p climbs down the tree: every vertex is discovered and each one is the
      parent of the next. */
  ghost predicate TreePath(T: seq<nat>, P: seq<int>, p: seq<nat>) {
    && |p| >= 1
    && (forall i :: 0 <= i < |p| ==> p[i] < |T| && p[i] < |P| && T[p[i]] > 0)
    && (forall i :: 0 <= i < |p| - 1 ==> P[p[i + 1]] == p[i])
  }

  /** a is b or an ancestor of b in the search tree. */
  ghost predicate TreeReach(T: seq<nat>, P: seq<int>, a: nat, b: nat) {
    exists p :: TreePath(T, P, p) && p[0] == a && p[|p| - 1] == b
  }

  /** Parents were discovered earlier, and the edge to the parent exists. */
  ghost predicate Parents(adj: AdjList, T: seq<nat>, P: seq<int>) {
    |T| == |adj| && |P| == |adj| &&
    forall c :: 0 <= c < |adj| ==>
      -1 <= P[c] < |adj| &&
      (T[c] > 0 && P[c] >= 0 ==> T[P[c]] > 0 && T[P[c]] < T[c] && c in adj[P[c]])
  }

  lemma TreeReachRefl(T: seq<nat>, P: seq<int>, a: nat)
    requires a < |T| && a < |P| && T[a] > 0
    ensures TreeReach(T, P, a, a)
  {
    assert TreePath(T, P, [a]);
  }

  lemma TreeReachExtend(T: seq<nat>, P: seq<int>, a: nat, b: nat, c: nat)
    requires TreeReach(T, P, a, b) && c < |T| && c < |P| && T[c] > 0 && P[c] == b
    ensures TreeReach(T, P, a, c)
  {
    var p :| TreePath(T, P, p) && p[0] == a && p[|p| - 1] == b;
    var q := p + [c];
    assert TreePath(T, P, q) by {
      forall i | 0 <= i < |q| - 1 ensures P[q[i + 1]] == q[i] {
        if i < |p| - 1 { assert q[i] == p[i] && q[i + 1] == p[i + 1]; }
      }
    }
  }

  lemma TreeReachPrepend(T: seq<nat>, P: seq<int>, a: nat, b: nat, c: nat)
    requires TreeReach(T, P, b, c) && a < |T| && a < |P| && T[a] > 0 && P[b] == a
    ensures TreeReach(T, P, a, c)
  {
    var p :| TreePath(T, P, p) && p[0] == b && p[|p| - 1] == c;
    var q := [a] + p;
    assert TreePath(T, P, q) by {
      forall i | 0 <= i < |q| - 1 ensures P[q[i + 1]] == q[i] {
        if i > 0 { assert q[i] == p[i - 1] && q[i + 1] == p[i]; }
      }
    }
  }

  /** A proper ancestor of b is an ancestor of the parent of b. */
  lemma TreeReachUp(T: seq<nat>, P: seq<int>, a: nat, b: nat)
    requires TreeReach(T, P, a, b) && a != b
    ensures b < |P| && P[b] >= 0 && TreeReach(T, P, a, P[b] as nat)
  {
    var p :| TreePath(T, P, p) && p[0] == a && p[|p| - 1] == b;
    var q := p[..|p| - 1];
    assert |p| >= 2;
    assert P[p[|p| - 1]] == p[|p| - 2];
    assert TreePath(T, P, q) by {
      forall i | 0 <= i < |q| - 1 ensures P[q[i + 1]] == q[i] {
        assert q[i] == p[i] && q[i + 1] == p[i + 1];
      }
    }
  }

  /** Along a tree path discovery times increase. */
  lemma TreePathTimes(adj: AdjList, T: seq<nat>, P: seq<int>, p: seq<nat>)
    requires Parents(adj, T, P) && TreePath(T, P, p)
    ensures forall i :: 0 <= i < |p| ==> T[p[0]] <= T[p[i]] <= T[p[|p| - 1]]
    ensures |p| > 1 ==> T[p[0]] < T[p[|p| - 1]]
  {
    var k := 0;
    while k < |p| - 1
      invariant 0 <= k <= |p| - 1
      invariant forall i :: 0 <= i <= k ==> T[p[0]] <= T[p[i]] <= T[p[k]]
      invariant k > 0 ==> T[p[0]] < T[p[k]]
    {
      assert P[p[k + 1]] == p[k];
      k := k + 1;
    }
  }

  lemma TreeReachTimes(adj: AdjList, T: seq<nat>, P: seq<int>, a: nat, b: nat)
    requires Parents(adj, T, P) && TreeReach(T, P, a, b)
    ensures a < |T| && b < |T| && T[a] <= T[b] && (a != b ==> T[a] < T[b])
  {
    var p :| TreePath(T, P, p) && p[0] == a && p[|p| - 1] == b;
    TreePathTimes(adj, T, P, p);
  }

  /** A tree path is a walk of the graph that avoids u-v when u or v is not
      on it, or u-v is not a tree edge. */
  lemma TreeWalk(adj: AdjList, T: seq<nat>, P: seq<int>, a: nat, b: nat, u: nat, v: nat)
    requires Parents(adj, T, P) && TreeReach(T, P, a, b) && u < |adj| && v < |adj|
    requires T[u] < T[a] || T[b] < T[u] || T[v] < T[a] || T[b] < T[v] || (P[v] != u && P[u] != v)
    ensures Reachable(Without(adj, u, v), a, b)
  {
    var p :| TreePath(T, P, p) && p[0] == a && p[|p| - 1] == b;
    TreePathTimes(adj, T, P, p);
    assert IsPath(adj, p) by {
      forall i | 0 <= i < |p| - 1 ensures p[i + 1] in adj[p[i]] {
        assert P[p[i + 1]] == p[i];
      }
    }
    forall i | 0 <= i < |p| - 1
      ensures !(p[i] == u && p[i + 1] == v) && !(p[i] == v && p[i + 1] == u)
    {
      assert P[p[i + 1]] == p[i];
      assert T[a] <= T[p[i]] <= T[b] && T[a] <= T[p[i + 1]] <= T[b];
    }
    PathAvoids(adj, u, v, p);
    assert IsPath(Without(adj, u, v), p);
  }


  /** c was discovered in the time window [T[x], hi]: once x has finished at
      hi, these are the vertices of the subtree rooted at x. */
  ghost predicate Within(T: seq<nat>, x: nat, hi: nat, c: nat) {
    x < |T| && c < |T| && T[x] <= T[c] <= hi
  }

  /** The edge c-y is taken into account: every edge out of the vertices
      below x, and the edges out of x that the scan has reached. */
  ghost predicate Counted(adj: AdjList, x: nat, done: seq<nat>, c: nat, y: nat) {
    c < |adj| && y in adj[c] && (c != x || y in done)
  }

  /** Every counted edge leads to a vertex discovered within the window. */
  ghost predicate SubReached(adj: AdjList, T: seq<nat>, x: nat, hi: nat, done: seq<nat>) {
    forall c: nat, y: nat :: Within(T, x, hi, c) && Counted(adj, x, done, c, y) ==>
      y < |T| && 1 <= T[y] <= hi
  }

  /** The low value lx of x is at most T[x] and at most the discovery time of
      the far end of every counted edge other than the one from x to its
      parent. */
  ghost predicate SubLow(adj: AdjList, T: seq<nat>, P: seq<int>, x: nat, lx: nat, hi: nat,
                         done: seq<nat>) {
    x < |T| && x < |P| && lx <= T[x] &&
    forall c: nat, y: nat ::
      (Within(T, x, hi, c) && Counted(adj, x, done, c, y) && (c != x || y != P[x]) &&
       y < |T|) ==> lx <= T[y]
  }

  /** ... and it is attained: it is T[x] or the time of such a far end. */
  ghost predicate SubWitness(adj: AdjList, T: seq<nat>, P: seq<int>, x: nat, lx: nat, hi: nat,
                             done: seq<nat>) {
    x < |T| && x < |P| &&
    (lx == T[x] ||
     exists c: nat, y: nat :: Within(T, x, hi, c) && Counted(adj, x, done, c, y) &&
       (c != x || y != P[x]) && y < |T| && lx == T[y])
  }

  /** Every vertex in the window hangs below x in the tree. */
  ghost predicate SubTree(T: seq<nat>, P: seq<int>, x: nat, hi: nat) {
    forall c :: Within(T, x, hi, c) ==> TreeReach(T, P, x, c)
  }

  /** A counted edge that leads to a vertex discovered before x leads to an
      ancestor of x (there are no cross edges). */
  ghost predicate SubBack(adj: AdjList, T: seq<nat>, P: seq<int>, x: nat, hi: nat,
                          done: seq<nat>) {
    x < |T| && x < |P| &&
    forall c: nat, y: nat ::
      (Within(T, x, hi, c) && Counted(adj, x, done, c, y) && y < |T| && T[y] < T[x]) ==>
      P[x] >= 0 && TreeReach(T, P, y, P[x] as nat)
  }

  /** Every vertex of the window other than x has finished. */
  ghost predicate SubDone(T: seq<nat>, F: seq<nat>, x: nat, hi: nat) {
    forall z :: 0 <= z < |T| && z != x && Within(T, x, hi, z) ==> z < |F| && F[z] > 0
  }

  ghost predicate SubFacts(adj: AdjList, T: seq<nat>, P: seq<int>, F: seq<nat>, x: nat,
                           lx: nat, hi: nat, done: seq<nat>) {
    && |T| == |adj| && |P| == |adj| && |F| == |adj| && x < |adj| && 0 < T[x] <= hi
    && SubReached(adj, T, x, hi, done)
    && SubLow(adj, T, P, x, lx, hi, done)
    && SubWitness(adj, T, P, x, lx, hi, done)
    && SubTree(T, P, x, hi)
    && SubBack(adj, T, P, x, hi, done)
    && SubDone(T, F, x, hi)
  }

  /** What holds of x once its call has returned: its window is its subtree
      and every edge out of x has been scanned. */
  ghost predicate Final(adj: AdjList, s: Dfs, x: nat) {
    Shaped(|adj|, s) && x < |adj| && s.F[x] > 0 &&
    SubFacts(adj, s.T, s.P, s.F, x, s.L[x], s.F[x], adj[x])
  }

  /** What the search keeps true of each vertex z: its time agrees with the
      discovery order, its parent was discovered before it and is joined to
      it, it finishes after its discovery and is then final, and it is on the
      stack of running calls exactly while discovered and unfinished. */
  ghost predicate VertexOk(adj: AdjList, s: Dfs, z: nat) {
    && Shaped(|adj|, s) && z < |adj|
    && s.T[z] <= s.time && (s.T[z] > 0 ==> s.T[z] <= |s.order| && s.order[s.T[z] - 1] == z)
    && -1 <= s.P[z] < |adj|
    && (s.T[z] > 0 && s.P[z] >= 0 ==> s.T[s.P[z]] > 0 && s.T[s.P[z]] < s.T[z] && z in adj[s.P[z]])
    && (s.T[z] == 0 ==> s.F[z] == 0)
    && (s.F[z] > 0 ==> s.T[z] <= s.F[z] <= s.time && Final(adj, s, z))
    && (s.T[z] > 0 && s.F[z] == 0 <==> z in s.stack)
  }

  /** Every vertex below k is as it should be. */
  ghost predicate VerticesOk(adj: AdjList, s: Dfs, k: nat)
    decreases k
  {
    k == 0 || (VerticesOk(adj, s, k - 1) && VertexOk(adj, s, k - 1))
  }

  lemma {:induction false} VertexOf(adj: AdjList, s: Dfs, k: nat, z: nat)
    requires VerticesOk(adj, s, k) && z < k
    ensures VertexOk(adj, s, z)
    decreases k
  {
    if z < k - 1 {
      VertexOf(adj, s, k - 1, z);
    }
  }

  lemma {:induction false} VerticesIntro(adj: AdjList, s: Dfs, k: nat)
    requires forall z :: 0 <= z < k ==> VertexOk(adj, s, z)
    ensures VerticesOk(adj, s, k)
    decreases k
  {
    if k > 0 {
      VerticesIntro(adj, s, k - 1);
    }
  }

  /** The clock: the k-th vertex discovered got time k + 1. */
  ghost predicate OrderOk(n: nat, T: seq<nat>, time: nat, order: seq<nat>) {
    |T| == n && |order| == time &&
    forall k :: 0 <= k < time ==> order[k] < n && T[order[k]] == k + 1
  }

  /** The running calls: each is the parent of the next, the first a root. */
  ghost predicate StackShape(n: nat, P: seq<int>, stack: seq<nat>) {
    && |P| == n
    && (forall i :: 0 <= i < |stack| ==> stack[i] < n)
    && (forall i :: 0 <= i < |stack| - 1 ==> P[stack[i + 1]] == stack[i])
    && (|stack| > 0 ==> P[stack[0]] == -1)
  }

  ghost predicate Inv(adj: AdjList, s: Dfs) {
    && Shaped(|adj|, s)
    && OrderOk(|adj|, s.T, s.time, s.order)
    && StackShape(|adj|, s.P, s.stack)
    && VerticesOk(adj, s, |adj|)
  }

  lemma InvParents(adj: AdjList, s: Dfs)
    requires Inv(adj, s)
    ensures Parents(adj, s.T, s.P)
  {
    forall c | 0 <= c < |adj|
      ensures -1 <= s.P[c] < |adj| &&
        (s.T[c] > 0 && s.P[c] >= 0 ==> s.T[s.P[c]] > 0 && s.T[s.P[c]] < s.T[c] && c in adj[s.P[c]])
    {
      VertexOf(adj, s, |adj|, c);
    }
  }

  lemma InvClock(adj: AdjList, s: Dfs)
    requires Inv(adj, s)
    ensures forall z :: 0 <= z < |adj| ==> s.T[z] <= s.time
  {
    forall z | 0 <= z < |adj| ensures s.T[z] <= s.time {
      VertexOf(adj, s, |adj|, z);
    }
  }

  /** The running calls are discovered and unfinished. */
  lemma InvStack(adj: AdjList, s: Dfs)
    requires Inv(adj, s)
    ensures forall i :: 0 <= i < |s.stack| ==> s.T[s.stack[i]] > 0 && s.F[s.stack[i]] == 0
  {
    forall i | 0 <= i < |s.stack| ensures s.T[s.stack[i]] > 0 && s.F[s.stack[i]] == 0 {
      VertexOf(adj, s, |adj|, s.stack[i]);
    }
  }

  /** Undiscovered vertices have no parent yet ... */
  ghost predicate NoPending(T: seq<nat>, P: seq<int>) {
    |P| == |T| && forall z :: 0 <= z < |T| && T[z] == 0 ==> P[z] == -1
  }

  /** ... except v, whose parent is set just before its call. */
  ghost predicate PendingOk(T: seq<nat>, P: seq<int>, v: nat) {
    |P| == |T| && forall z :: 0 <= z < |T| && z != v && T[z] == 0 ==> P[z] == -1
  }

  /** The call on v starts a new tree, or descends from the running call
      along an edge. */
  ghost predicate CallPre(adj: AdjList, P: seq<int>, stack: seq<nat>, v: nat) {
    && v < |P|
    && (stack == [] ==> P[v] == -1)
    && (stack != [] ==>
          stack[|stack| - 1] < |adj| && P[v] == stack[|stack| - 1] &&
          v in adj[stack[|stack| - 1]])
  }

  /** What the search may change later: discovery times and parents of
      discovered vertices, finish times and low values of finished ones stay;
      vertices discovered later get later times. */
  ghost predicate Extends(s0: Dfs, s1: Dfs) {
    && |s1.T| == |s0.T| && |s1.L| == |s0.L| && |s1.P| == |s0.P| && |s1.F| == |s0.F|
    && |s0.P| == |s0.T| && |s0.L| == |s0.T| && |s0.F| == |s0.T|
    && (forall z :: 0 <= z < |s0.T| && s0.T[z] > 0 ==>
          s1.T[z] == s0.T[z] && s1.P[z] == s0.P[z])
    && (forall z :: 0 <= z < |s0.T| && s0.F[z] > 0 ==>
          s1.F[z] == s0.F[z] && s1.L[z] == s0.L[z])
    && (forall z :: 0 <= z < |s0.T| && s0.T[z] == 0 && s1.T[z] > 0 ==> s1.T[z] > s0.time)
    && s0.time <= s1.time
  }

  lemma ExtendsTrans(s0: Dfs, s1: Dfs, s2: Dfs)
    requires Extends(s0, s1) && Extends(s1, s2)
    ensures Extends(s0, s2)
  {
  }

  lemma TreeReachStable(s0: Dfs, s1: Dfs, a: nat, b: nat)
    requires Extends(s0, s1) && TreeReach(s0.T, s0.P, a, b)
    ensures TreeReach(s1.T, s1.P, a, b)
  {
    var p :| TreePath(s0.T, s0.P, p) && p[0] == a && p[|p| - 1] == b;
    assert TreePath(s1.T, s1.P, p);
  }

  /** The facts about a window that is already closed survive anything the
      search does later. */
  lemma SubFactsStable(adj: AdjList, s0: Dfs, s1: Dfs, x: nat, lx: nat, hi: nat,
                       done: seq<nat>)
    requires Extends(s0, s1) && SubFacts(adj, s0.T, s0.P, s0.F, x, lx, hi, done)
    requires hi <= s0.time
    ensures SubFacts(adj, s1.T, s1.P, s1.F, x, lx, hi, done)
  {
    assert forall c :: Within(s1.T, x, hi, c) <==> Within(s0.T, x, hi, c);
    assert SubReached(adj, s1.T, x, hi, done);
    assert SubLow(adj, s1.T, s1.P, x, lx, hi, done);
    assert SubWitness(adj, s1.T, s1.P, x, lx, hi, done);
    assert SubTree(s1.T, s1.P, x, hi) by {
      forall c | Within(s1.T, x, hi, c) ensures TreeReach(s1.T, s1.P, x, c) {
        TreeReachStable(s0, s1, x, c);
      }
    }
    assert SubBack(adj, s1.T, s1.P, x, hi, done) by {
      forall c: nat, y: nat | Within(s1.T, x, hi, c) && Counted(adj, x, done, c, y) &&
        y < |s1.T| && s1.T[y] < s1.T[x]
        ensures s1.P[x] >= 0 && TreeReach(s1.T, s1.P, y, s1.P[x] as nat)
      {
        TreeReachStable(s0, s1, y, s0.P[x] as nat);
      }
    }
  }

  lemma FinalStable(adj: AdjList, s0: Dfs, s1: Dfs, x: nat)
    requires Extends(s0, s1) && Final(adj, s0, x) && s0.F[x] <= s0.time && Shaped(|adj|, s1)
    ensures Final(adj, s1, x)
  {
    SubFactsStable(adj, s0, s1, x, s0.L[x], s0.F[x], adj[x]);
  }

  /** The running calls from the j-th to the k-th climb down the tree. */
  lemma StackTreeReach(adj: AdjList, s: Dfs, j: nat, k: nat)
    requires Inv(adj, s) && j <= k < |s.stack|
    ensures TreeReach(s.T, s.P, s.stack[j], s.stack[k])
  {
    InvStack(adj, s);
    var p := s.stack[j..k + 1];
    forall i | 0 <= i < |p| ensures p[i] < |s.T| && p[i] < |s.P| && s.T[p[i]] > 0 {
      assert p[i] == s.stack[j + i];
    }
    forall i | 0 <= i < |p| - 1 ensures s.P[p[i + 1]] == p[i] {
      assert p[i] == s.stack[j + i] && p[i + 1] == s.stack[j + i + 1];
    }
    assert TreePath(s.T, s.P, p);
  }

  /** The state right after `busca_pontes(v)` ticks the clock and sets
      `TD[v] = low[v] = tempo`. */
  ghost function Start(s: Dfs, v: nat): (r: Dfs)
    requires v < |s.T| && v < |s.L|
    ensures |r.T| == |s.T| && |r.L| == |s.L| && r.time == s.time + 1
    ensures r.T[v] == r.time && r.L[v] == r.time && r.stack == s.stack + [v]
  {
    s.(T := s.T[v := s.time + 1], L := s.L[v := s.time + 1], time := s.time + 1,
       order := s.order + [v], stack := s.stack + [v])
  }

  lemma DiscoverExtends(s0: Dfs, v: nat)
    requires Shaped(|s0.T|, s0) && v < |s0.T| && s0.T[v] == 0 && s0.F[v] == 0
    ensures Extends(s0, Start(s0, v))
  {
  }

  lemma DiscoverVertex(adj: AdjList, s0: Dfs, v: nat, z: nat)
    requires Inv(adj, s0) && v < |adj| && s0.T[v] == 0 && z < |adj|
    requires CallPre(adj, s0.P, s0.stack, v)
    ensures VertexOk(adj, Start(s0, v), z)
  {
    var s1 := Start(s0, v);
    VertexOf(adj, s0, |adj|, z);
    VertexOf(adj, s0, |adj|, v);
    DiscoverExtends(s0, v);
    if z == v {
      if s0.stack != [] {
        var top := s0.stack[|s0.stack| - 1];
        assert top in s0.stack;
        VertexOf(adj, s0, |adj|, top);
      }
    } else {
      if s0.T[z] > 0 && s0.P[z] >= 0 {
        VertexOf(adj, s0, |adj|, s0.P[z] as nat);
      }
      if s0.F[z] > 0 {
        FinalStable(adj, s0, s1, z);
      }
      assert z in s1.stack <==> z in s0.stack;
    }
  }

  lemma DiscoverFacts(adj: AdjList, T: seq<nat>, P: seq<int>, F: seq<nat>, time: nat, v: nat)
    requires |T| == |adj| && |P| == |adj| && |F| == |adj| && v < |adj|
    requires forall z :: 0 <= z < |adj| ==> T[z] <= time
    ensures SubFacts(adj, T[v := time + 1], P, F, v, time + 1, time + 1, [])
  {
    var T1 := T[v := time + 1];
    TreeReachRefl(T1, P, v);
  }

  lemma DiscoverOrder(n: nat, T: seq<nat>, time: nat, order: seq<nat>, v: nat)
    requires OrderOk(n, T, time, order) && v < n && T[v] == 0
    ensures OrderOk(n, T[v := time + 1], time + 1, order + [v])
  {
    var T1, o1 := T[v := time + 1], order + [v];
    forall k | 0 <= k < time + 1 ensures o1[k] < n && T1[o1[k]] == k + 1 {
      if k < time { assert T[order[k]] == k + 1; }
    }
  }

  lemma DiscoverStackShape(adj: AdjList, P: seq<int>, stack: seq<nat>, v: nat)
    requires StackShape(|adj|, P, stack) && v < |adj| && CallPre(adj, P, stack, v)
    ensures StackShape(|adj|, P, stack + [v])
  {
    var s1 := stack + [v];
    forall i | 0 <= i < |s1| - 1 ensures P[s1[i + 1]] == s1[i] {
      if i < |stack| - 1 {
        assert s1[i] == stack[i] && s1[i + 1] == stack[i + 1];
      }
    }
  }

  lemma DiscoverVertices(adj: AdjList, s0: Dfs, v: nat)
    requires Inv(adj, s0) && v < |adj| && s0.T[v] == 0
    requires CallPre(adj, s0.P, s0.stack, v)
    ensures VerticesOk(adj, Start(s0, v), |adj|)
  {
    forall z | 0 <= z < |adj| ensures VertexOk(adj, Start(s0, v), z) {
      DiscoverVertex(adj, s0, v, z);
    }
    VerticesIntro(adj, Start(s0, v), |adj|);
  }

  /** Entering the call on v keeps the invariant and opens v's window. */
  lemma Discover(adj: AdjList, s0: Dfs, v: nat)
    requires Inv(adj, s0) && v < |adj| && s0.T[v] == 0
    requires CallPre(adj, s0.P, s0.stack, v) && PendingOk(s0.T, s0.P, v)
    ensures Inv(adj, Start(s0, v)) && Extends(s0, Start(s0, v))
    ensures NoPending(Start(s0, v).T, Start(s0, v).P)
    ensures SubFacts(adj, Start(s0, v).T, Start(s0, v).P, Start(s0, v).F, v,
                     Start(s0, v).L[v], Start(s0, v).time, [])
  {
    VertexOf(adj, s0, |adj|, v);
    DiscoverExtends(s0, v);
    DiscoverVertices(adj, s0, v);
    DiscoverOrder(|adj|, s0.T, s0.time, s0.order, v);
    DiscoverStackShape(adj, s0.P, s0.stack, v);
    InvClock(adj, s0);
    DiscoverFacts(adj, s0.T, s0.P, s0.F, s0.time, v);
  }

  /** The state before the first call: nothing discovered, no parents. */
  lemma InitInv(adj: AdjList, L: seq<nat>)
    requires |L| == |adj|
    ensures Inv(adj, Dfs(seq(|adj|, _ => 0), L, seq(|adj|, _ => -1), seq(|adj|, _ => 0), 0, [], []))
    ensures NoPending(seq(|adj|, _ => 0), seq(|adj|, _ => -1))
  {
    var s := Dfs(seq(|adj|, _ => 0), L, seq(|adj|, _ => -1), seq(|adj|, _ => 0), 0, [], []);
    forall z | 0 <= z < |adj| ensures VertexOk(adj, s, z) {
    }
    VerticesIntro(adj, s, |adj|);
  }

  /** The number of undiscovered vertices: it falls with every call. */
  ghost function Undiscovered(T: seq<nat>): (r: nat)
    ensures r <= |T|
  {
    if |T| == 0 then 0 else Undiscovered(T[..|T| - 1]) + (if T[|T| - 1] == 0 then 1 else 0)
  }

  lemma {:induction false} UndiscoveredLess(T0: seq<nat>, T1: seq<nat>, v: nat)
    requires |T0| == |T1| && forall z :: 0 <= z < |T0| && T0[z] > 0 ==> T1[z] > 0
    ensures Undiscovered(T1) <= Undiscovered(T0)
    ensures v < |T0| && T0[v] == 0 && T1[v] > 0 ==> Undiscovered(T1) < Undiscovered(T0)
    decreases |T0|
  {
    if |T0| > 0 {
      var k := |T0| - 1;
      assert forall z :: 0 <= z < k ==> T0[..k][z] == T0[z] && T1[..k][z] == T1[z];
      UndiscoveredLess(T0[..k], T1[..k], v);
    }
  }
}
