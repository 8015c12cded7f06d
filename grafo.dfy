/** The class `Grafo`: an undirected graph on the vertices 0..n-1, kept as one
    neighbour list per vertex, and the algorithms that run over it. */
module Grafo {
  import opened Adjacency
  import opened Paths
  import opened DfsTree
  import opened Scan
  import opened LowLink
  import opened Search

  datatype Option<T> = None | Some(value: T)

  /** `next((v for v in range(lo, hi) if p(v)), None)`: the first vertex in
      [lo, hi) that satisfies p. */
  function Next(lo: nat, hi: nat, p: nat -> bool): (r: Option<nat>)
    ensures r.Some? ==> lo <= r.value < hi && p(r.value) && forall v :: lo <= v < r.value ==> !p(v)
    ensures r.None? ==> forall v :: lo <= v < hi ==> !p(v)
    decreases hi - lo
  {
    if lo >= hi then None
    else if p(lo) then Some(lo)
    else Next(lo + 1, hi, p)
  }

  /** Where `fleury` starts: the first vertex of odd degree, or 0 when every
      degree is even. */
  function FleuryStart(adj: AdjList): (r: nat)
    ensures (exists v :: 0 <= v < |adj| && |adj[v]| % 2 == 1) ==>
      r < |adj| && |adj[r]| % 2 == 1 && forall v :: 0 <= v < r ==> |adj[v]| % 2 == 0
    ensures (forall v :: 0 <= v < |adj| ==> |adj[v]| % 2 == 0) ==> r == 0
  {
    var odd := (v: nat) => v < |adj| && |adj[v]| % 2 == 1;
    var first := Next(0, |adj|, odd);
    assert forall v {:trigger adj[v]} :: 0 <= v < |adj| ==> (odd(v) <==> |adj[v]| % 2 == 1);
    if first.Some? then first.value else 0
  }

  /** Number of unvisited vertices: the measure the depth-first searches
      consume. */
  ghost function Unvisited(s: seq<bool>): (r: nat)
    ensures r <= |s|
  {
    if s == [] then 0 else Unvisited(s[..|s| - 1]) + (if s[|s| - 1] then 0 else 1)
  }

  lemma {:induction false} UnvisitedMono(a: seq<bool>, b: seq<bool>)
    requires |a| == |b| && forall i :: 0 <= i < |a| && a[i] ==> b[i]
    ensures Unvisited(b) <= Unvisited(a)
    decreases |a|
  {
    if a != [] {
      UnvisitedMono(a[..|a| - 1], b[..|b| - 1]);
    }
  }

  lemma {:induction false} UnvisitedMark(a: seq<bool>, i: nat)
    requires i < |a| && !a[i]
    ensures Unvisited(a[i := true]) + 1 == Unvisited(a)
    decreases |a|
  {
    var last := |a| - 1;
    if i < last {
      assert a[i := true][..last] == a[..last][i := true];
      UnvisitedMark(a[..last], i);
    } else {
      assert a[i := true][..last] == a[..last];
    }
  }

  /** One edge of the ring that `gerar_grafo_simples` draws: step i joins
      i % n and (i + 1) % n. */
  ghost predicate RingEdge(n: nat, i: nat, x: nat, y: nat) {
    n > 0 && ((x == i % n && y == (i + 1) % n) || (y == i % n && x == (i + 1) % n))
  }

  /** The lists `gerar_grafo_simples(k)` leaves when started from adj. */
  ghost function Ring(adj: AdjList, n: nat, k: nat): (r: AdjList)
    requires |adj| == n && (n >= 2 || k == 0)
  {
    if k == 0 then adj
    else
      var prev := Ring(adj, n, k - 1);
      if |prev| == n then With(prev, (k - 1) % n, k % n) else prev
  }

  lemma MulBounds(d: int, n: int)
    requires n > 0
    ensures d >= 1 ==> d * n >= n
    ensures d <= 0 ==> d * n <= 0
  {
  }

  /** Each ring step joins two different vertices once n >= 2. */
  lemma RingStepDistinct(n: nat, i: nat)
    requires n >= 2
    ensures i % n != (i + 1) % n
  {
    var q1, q2 := i / n, (i + 1) / n;
    var r1, r2 := i % n, (i + 1) % n;
    assert i == q1 * n + r1;
    assert i + 1 == q2 * n + r2;
    var d := q2 - q1;
    assert d * n == q2 * n - q1 * n;
    assert d * n == 1 + r1 - r2;
    MulBounds(d, n);
  }

  /** Some step i < k of the ring joins x and y. */
  ghost predicate InRing(n: nat, k: nat, x: nat, y: nat) {
    exists i :: 0 <= i < k && RingEdge(n, i, x, y)
  }

  /** Generating k ring steps keeps the graph well formed. */
  lemma {:induction false} RingWellFormed(adj: AdjList, n: nat, k: nat)
    requires WellFormed(adj) && |adj| == n && (n >= 2 || k == 0)
    ensures |Ring(adj, n, k)| == n && WellFormed(Ring(adj, n, k))
  {
    if k > 0 {
      RingWellFormed(adj, n, k - 1);
      RingStepDistinct(n, k - 1);
      WithKeepsShape(Ring(adj, n, k - 1), (k - 1) % n, k % n);
    }
  }

  /** Generating k ring steps adds exactly the edges i % n - (i + 1) % n for
      i < k to the ones already there. */
  lemma {:induction false} RingShape(adj: AdjList, n: nat, k: nat)
    requires WellFormed(adj) && |adj| == n && (n >= 2 || k == 0)
    ensures |Ring(adj, n, k)| == n
    ensures forall x, y :: 0 <= x < n ==> (y in Ring(adj, n, k)[x] <==> y in adj[x] || InRing(n, k, x, y))
  {
    RingWellFormed(adj, n, k);
    if k > 0 {
      RingShape(adj, n, k - 1);
      RingWellFormed(adj, n, k - 1);
      var prev := Ring(adj, n, k - 1);
      var u, v := (k - 1) % n, k % n;
      var r := With(prev, u, v);
      assert Ring(adj, n, k) == r;
      assert v in prev[u] <==> u in prev[v];
      forall x, y | 0 <= x < n ensures y in r[x] <==> y in adj[x] || InRing(n, k, x, y) {
        RingStep(n, k, x, y);
        assert y in r[x] <==> y in prev[x] || (x == u && y == v) || (x == v && y == u);
      }
    }
  }

  lemma RingStep(n: nat, k: nat, x: nat, y: nat)
    requires k > 0
    ensures InRing(n, k, x, y) <==> InRing(n, k - 1, x, y) || RingEdge(n, k - 1, x, y)
  {
    if InRing(n, k, x, y) {
      var i :| 0 <= i < k && RingEdge(n, i, x, y);
      if i < k - 1 {
        assert InRing(n, k - 1, x, y);
      }
    }
  }

  /** What `identificar_pontes_naive` records: u-v is an edge and the graph
      without it is not connected. */
  ghost predicate Disconnects(adj: AdjList, u: nat, v: nat) {
    u < |adj| && v < |adj| && v in adj[u] && !Connected(Without(adj, u, v))
  }

  /** One iteration of `identificar_pontes_naive` on an edge of lists that
      differ from the original ones only in order. */
  lemma NaiveStep(adj: AdjList, a0: AdjList, u: nat, v: nat)
    requires WellFormed(adj) && SameNeighbours(adj, a0) && u < |adj| && v in a0[u]
    ensures v < |adj| && v in adj[u]
    ensures Connected(Without(adj, u, v)) <==> Connected(Without(a0, u, v))
    ensures SameNeighbours(With(Without(adj, u, v), u, v), a0)
  {
    SameNeighboursMembership(adj, a0);
    WithoutSameNeighbours(adj, a0, u, v);
    ConnectedSameNeighbours(Without(adj, u, v), Without(a0, u, v));
    RemoveThenAddRestores(adj, u, v);
  }

  /** Recording the outcome for the i-th neighbour of u extends what the
      list of findings holds by that one entry. */
  lemma NaiveRecord(bridges: seq<(nat, nat)>, a0: AdjList, u: nat, ns: seq<nat>, i: nat, hit: bool)
    requires i < |ns|
    requires forall x: nat, y: nat :: (x, y) in bridges <==>
      (x < u || (x == u && y in ns[..i])) && Disconnects(a0, x, y)
    requires hit <==> Disconnects(a0, u, ns[i])
    ensures var b := if hit then bridges + [(u, ns[i])] else bridges;
      forall x: nat, y: nat :: (x, y) in b <==>
        (x < u || (x == u && y in ns[..i + 1])) && Disconnects(a0, x, y)
  {
    assert ns[..i + 1] == ns[..i] + [ns[i]];
  }

  /** The naive test reports each edge in both orientations. */
  lemma DisconnectsSymmetric(adj: AdjList, u: nat, v: nat)
    requires WellFormed(adj)
    ensures Disconnects(adj, u, v) <==> Disconnects(adj, v, u)
  {
    if u < |adj| && v < |adj| {
      WithoutCommutes(adj, u, v);
      if v in adj[u] { assert u in adj[v]; }
      if u in adj[v] { assert v in adj[u]; }
    }
  }

  /** On a connected graph the naive test picks out exactly the bridges. */
  lemma DisconnectsIsBridge(adj: AdjList, u: nat, v: nat)
    requires WellFormed(adj) && Connected(adj)
    ensures Disconnects(adj, u, v) <==> Bridge(adj, u, v)
  {
    if u < |adj| && v < |adj| && v in adj[u] {
      BridgeIffDisconnects(adj, u, v);
    }
  }

  /** On a graph that is not connected to begin with, the naive test reports
      every edge. */
  lemma DisconnectsEveryEdge(adj: AdjList, u: nat, v: nat)
    requires WellFormed(adj) && !Connected(adj)
    ensures Disconnects(adj, u, v) <==> u < |adj| && v in adj[u]
  {
    if u < |adj| && v in adj[u] {
      DisconnectedStays(adj, u, v);
    }
  }

  /** On a connected graph the two bridge finders agree: a pair is in the
      naive list exactly when it or its reverse is in Tarjan's list.
      The requirements are the postconditions of the two methods. */
  lemma NaiveAgreesWithTarjan(adj: AdjList, naive: seq<(nat, nat)>, tarjan: seq<(nat, nat)>)
    requires WellFormed(adj) && Connected(adj)
    requires forall u: nat, v: nat :: (u, v) in naive <==> Disconnects(adj, u, v)
    requires forall a, b :: (a, b) in tarjan ==> a < |adj| && b in adj[a] && Bridge(adj, a, b)
    requires forall u, v :: 0 <= u < |adj| && v in adj[u] && Bridge(adj, u, v) ==>
      (u, v) in tarjan || (v, u) in tarjan
    ensures forall u: nat, v: nat :: (u, v) in naive <==> (u, v) in tarjan || (v, u) in tarjan
  {
    forall u: nat, v: nat ensures (u, v) in naive <==> (u, v) in tarjan || (v, u) in tarjan {
      DisconnectsIsBridge(adj, u, v);
      BridgeSymmetric(adj, u, v);
    }
  }

  /** The rule `fleury` applies to the edge a-b: it is taken when removing it
      keeps the edges connected, or when it is the last edge of a. */
  ghost predicate Allowed(adj: AdjList, a: nat, b: nat) {
    a < |adj| && b < |adj| && b in adj[a] &&
    (ConnectedIgnoringIsolated(Without(adj, a, b)) || |adj[a]| == 1)
  }

  /** The graph left after removing the edges of a walk, one after another. */
  ghost function RemovePath(adj: AdjList, path: seq<(nat, nat)>): (r: AdjList)
    ensures |r| == |adj|
    decreases |path|
  {
    if path == [] then adj
    else
      var prev := RemovePath(adj, path[..|path| - 1]);
      var (a, b) := path[|path| - 1];
      if a < |prev| && b < |prev| then Without(prev, a, b) else prev
  }

  /** Whether a-b is allowed depends only on which neighbours each vertex
      has, not on their order. */
  lemma AllowedSameNeighbours(a: AdjList, b: AdjList, x: nat, y: nat)
    requires SameNeighbours(a, b)
    ensures Allowed(a, x, y) <==> Allowed(b, x, y)
  {
    if x < |a| && y < |a| {
      SameNeighboursMembership(a, b);
      WithoutSameNeighbours(a, b, x, y);
      ConnectedSameNeighbours(Without(a, x, y), Without(b, x, y));
      assert |a[x]| == |multiset(a[x])| == |multiset(b[x])| == |b[x]|;
    }
  }

  /** The test `fleury` makes on a candidate, evaluated on lists that only
      reorder those at the start of the scan, decides Allowed there. */
  lemma FleuryCandidate(before: AdjList, after: AdjList, pass: AdjList, a: nat, b: nat)
    requires WellFormed(before) && SameNeighbours(before, pass) && SameNeighbours(after, before)
    requires a < |pass| && b in pass[a]
    ensures b < |before|
    ensures (ConnectedIgnoringIsolated(Without(before, a, b)) || |after[a]| == 1) <==> Allowed(pass, a, b)
  {
    SameNeighboursMembership(before, pass);
    assert b in before[a];
    AllowedSameNeighbours(before, pass, a, b);
    assert |after[a]| == |multiset(after[a])| == |multiset(before[a])| == |before[a]|;
  }

  /** Taking the allowed edge a-b removes two list entries and leaves the
      lists of the walk extended by a-b, up to order. */
  lemma FleuryAdvance(adj: AdjList, pass: AdjList, a0: AdjList, path: seq<(nat, nat)>, a: nat, b: nat)
    requires WellFormed(adj) && SameNeighbours(adj, pass) && SameNeighbours(pass, RemovePath(a0, path))
    requires Allowed(pass, a, b)
    ensures a < |adj| && b < |adj| && b in adj[a]
    ensures Allowed(RemovePath(a0, path), a, b)
    ensures SameNeighbours(Without(adj, a, b), RemovePath(a0, path + [(a, b)]))
    ensures DegreeSum(Without(adj, a, b)) + 2 == DegreeSum(pass)
  {
    var q := path + [(a, b)];
    var prev := RemovePath(a0, path);
    assert q[..|path|] == path;
    assert RemovePath(a0, q) == Without(prev, a, b);
    SameNeighboursMembership(adj, pass);
    WithoutSameNeighbours(adj, prev, a, b);
    AllowedSameNeighbours(pass, prev, a, b);
    WithoutDegreeSum(adj, a, b);
    DegreeSumSame(adj, pass);
  }

  /** Appending a step that satisfies the rule keeps every step satisfying
      it. */
  lemma FleuryExtend(a0: AdjList, path: seq<(nat, nat)>, a: nat, b: nat)
    requires FollowsRule(a0, path)
    requires Allowed(RemovePath(a0, path), a, b)
    ensures FollowsRule(a0, path + [(a, b)])
  {
    var q := path + [(a, b)];
    forall k | 0 <= k < |q| ensures Allowed(RemovePath(a0, q[..k]), q[k].0, q[k].1) {
      if k < |path| {
        assert q[..k] == path[..k];
      } else {
        assert q[..k] == path;
      }
    }
  }

  /** No entry of s is an allowed edge from a. */
  ghost predicate NoneAllowed(adj: AdjList, a: nat, s: seq<nat>) {
    forall j :: 0 <= j < |s| ==> !Allowed(adj, a, s[j])
  }

  lemma NoneAllowedExtend(adj: AdjList, a: nat, ns: seq<nat>, i: nat)
    requires i < |ns| && NoneAllowed(adj, a, ns[..i])
    ensures !Allowed(adj, a, ns[i]) ==> NoneAllowed(adj, a, ns[..i + 1])
  {
    assert ns[..i + 1] == ns[..i] + [ns[i]];
  }

  /** The state of `fleury` after walking path from its start: the lists are
      the original ones minus the walked edges (up to order), each step took
      away exactly one edge, the walk is chained from the start and obeys the
      rule, and current is its end. */
  ghost predicate Walked(a0: AdjList, adj: AdjList, path: seq<(nat, nat)>, current: nat) {
    && SameNeighbours(adj, RemovePath(a0, path))
    && DegreeSum(adj) + 2 * |path| == DegreeSum(a0)
    && current < |a0|
    && current == (if path == [] then FleuryStart(a0) else path[|path| - 1].1)
    && Chained(path) && (path != [] ==> path[0].0 == FleuryStart(a0))
    && FollowsRule(a0, path)
  }

  /** One iteration of the `while` loop of `fleury` that found the allowed
      edge a-b. */
  lemma FleuryStep(a0: AdjList, pass: AdjList, adj: AdjList, path: seq<(nat, nat)>, a: nat, b: nat)
    requires Walked(a0, pass, path, a) && WellFormed(adj) && SameNeighbours(adj, pass)
    requires Allowed(pass, a, b)
    ensures a < |adj| && b < |adj| && b in adj[a]
    ensures Walked(a0, Without(adj, a, b), path + [(a, b)], b)
    ensures DegreeSum(Without(adj, a, b)) + 2 == DegreeSum(pass)
  {
    FleuryAdvance(adj, pass, a0, path, a, b);
    FleuryExtend(a0, path, a, b);
    ChainedAppend(path, a, b);
  }

  /** Testing every listed neighbour decides whether any edge from a is
      allowed. */
  lemma NoneAllowedAll(adj: AdjList, a: nat)
    requires a < |adj|
    ensures NoneAllowed(adj, a, adj[a]) <==> forall y :: !Allowed(adj, a, y)
  {
    if NoneAllowed(adj, a, adj[a]) {
      forall y ensures !Allowed(adj, a, y) {
        if y in adj[a] {
          var j :| 0 <= j < |adj[a]| && adj[a][j] == y;
        }
      }
    }
  }

  /** After a scan that found nothing, nothing is allowed in the reordered
      lists either, and they hold as many entries. */
  lemma FleuryStays(adj: AdjList, pass: AdjList, a: nat)
    requires SameNeighbours(adj, pass) && a < |pass| && pass[a] != []
    requires NoneAllowed(pass, a, pass[a])
    ensures adj[a] != [] && NoneAllowed(adj, a, adj[a])
    ensures DegreeSum(adj) == DegreeSum(pass)
  {
    assert |adj[a]| == |multiset(adj[a])| == |multiset(pass[a])| == |pass[a]|;
    NoneAllowedAll(pass, a);
    forall y ensures !Allowed(adj, a, y) {
      AllowedSameNeighbours(adj, pass, a, y);
    }
    NoneAllowedAll(adj, a);
    DegreeSumSame(adj, pass);
  }

  /** Every step of the walk was allowed in the graph left by the steps
      before it. */
  ghost predicate FollowsRule(adj: AdjList, path: seq<(nat, nat)>) {
    forall k {:trigger path[k]} :: 0 <= k < |path| ==>
      Allowed(RemovePath(adj, path[..k]), path[k].0, path[k].1)
  }

  /** Each pair ends where the next one starts. */
  ghost predicate Chained(path: seq<(nat, nat)>) {
    forall i :: 0 <= i < |path| - 1 ==> path[i].1 == path[i + 1].0
  }

  lemma ChainedAppend(path: seq<(nat, nat)>, a: nat, b: nat)
    requires Chained(path) && (path != [] ==> path[|path| - 1].1 == a)
    ensures Chained(path + [(a, b)])
    ensures (path + [(a, b)])[0] == if path == [] then (a, b) else path[0]
  {
    var q := path + [(a, b)];
    forall i | 0 <= i < |q| - 1 ensures q[i].1 == q[i + 1].0 {
      if i < |path| - 1 {
        assert q[i] == path[i] && q[i + 1] == path[i + 1];
      }
    }
  }

  class Graph {
    /** `num_vertices`. */
    const n: nat
    /** `adjacencias`: the dictionary from vertex to neighbour list, indexed by
        vertex. */
    var adj: AdjList
    /** `tempo`: the discovery clock of the Tarjan search. */
    var time: nat

    ghost predicate Valid()
      reads this
    {
      |adj| == n && WellFormed(adj)
    }

    /** `__init__`: n vertices and no edges. */
    constructor (numVertices: nat)
      ensures Valid() && n == numVertices && time == 0
      ensures |adj| == numVertices && forall u :: 0 <= u < numVertices ==> adj[u] == []
    {
      n := numVertices;
      adj := seq(numVertices, _ => []);
      time := 0;
    }

    /** `adicionar_aresta`. */
    method AddEdge(u: nat, v: nat)
      requires Valid() && u < n && v < n && u != v
      modifies this`adj
      ensures Valid() && adj == With(old(adj), u, v)
      ensures v in adj[u] && u in adj[v]
      ensures v in old(adj[u]) ==> adj == old(adj)
    {
      WithKeepsShape(adj, u, v);
      if v !in adj[u] {
        adj := adj[u := adj[u] + [v]];
        adj := adj[v := adj[v] + [u]];
      }
    }

    /** `remover_aresta`. */
    method RemoveEdge(u: nat, v: nat)
      requires Valid() && u < n && v < n
      modifies this`adj
      ensures Valid() && adj == Without(old(adj), u, v)
      ensures v !in adj[u] && u !in adj[v]
      ensures v !in old(adj[u]) ==> adj == old(adj)
    {
      WithoutKeepsShape(adj, u, v);
      if v !in adj[u] { WithoutAbsent(adj, u, v); }
      adj := adj[u := Filter(adj[u], v)];
      adj := adj[v := Filter(adj[v], u)];
    }

    /** `gerar_grafo_simples`: adds the edges i % n - (i + 1) % n for
        i < numEdges, in that order. */
    method GenerateSimple(numEdges: nat)
      requires Valid() && (n >= 2 || numEdges == 0)
      modifies this`adj
      ensures Valid() && adj == Ring(old(adj), n, numEdges)
    {
      for i := 0 to numEdges
        invariant Valid() && adj == Ring(old(adj), n, i)
      {
        var u := i % n;
        var v := (i + 1) % n;
        RingStepDistinct(n, i);
        AddEdge(u, v);
        RingWellFormed(old(adj), n, i + 1);
      }
    }

    /** `verificar_conectividade`: depth-first search from v marking
        `visited`. Every vertex it newly marks is reachable from v, and every
        neighbour of a newly marked vertex is marked when it returns. */
    method VisitFrom(visited: array<bool>, v: nat)
      requires Valid() && visited.Length == n && v < n
      modifies visited
      ensures forall x :: 0 <= x < n && old(visited[x]) ==> visited[x]
      ensures visited[v]
      ensures forall x :: 0 <= x < n && visited[x] && !old(visited[x]) ==> Reachable(adj, v, x)
      ensures forall x, y :: 0 <= x < n && visited[x] && !old(visited[x]) && y in adj[x] ==>
        y < n && visited[y]
      decreases Unvisited(visited[..][v := true])
    {
      ghost var entry := visited[..][v := true];
      visited[v] := true;
      assert visited[..] == entry;
      assert Reachable(adj, v, v) by { ReachRefl(adj, v); }
      var ns := adj[v];
      for i := 0 to |ns|
        invariant forall x :: 0 <= x < n && entry[x] ==> visited[x]
        invariant forall x :: 0 <= x < n && visited[x] && !old(visited[x]) ==> Reachable(adj, v, x)
        invariant forall x, y :: 0 <= x < n && visited[x] && !old(visited[x]) && x != v && y in adj[x] ==>
          y < n && visited[y]
        invariant forall j :: 0 <= j < i ==> visited[ns[j]]
      {
        var w := ns[i];
        assert w in adj[v];
        if !visited[w] {
          assert Unvisited(visited[..][w := true]) < Unvisited(entry) by {
            UnvisitedMono(entry, visited[..]);
            UnvisitedMark(visited[..], w);
          }
          assert Reachable(adj, v, w) by { ReachEdge(adj, v, w); }
          ghost var mid := visited[..];
          VisitFrom(visited, w);
          forall x | 0 <= x < n && visited[x] && !mid[x] ensures Reachable(adj, v, x) {
            ReachTrans(adj, v, w, x);
          }
        }
      }
      forall x, y | 0 <= x < n && x == v && y in adj[x] ensures y < n && visited[y] {
        var j :| 0 <= j < |ns| && ns[j] == y;
      }
    }

    /** `grafo_conectado`: every vertex is reachable from vertex 0. */
    method IsConnected() returns (r: bool)
      requires Valid() && n >= 1
      ensures r <==> Connected(adj)
    {
      var visited := new bool[n](_ => false);
      VisitFrom(visited, 0);
      r := forall i :: 0 <= i < n ==> visited[i];
      var S := set x | 0 <= x < n && visited[x];
      if Connected(adj) {
        forall t | 0 <= t < n ensures visited[t] {
          ReachClosed(adj, S, 0, t);
        }
      }
    }

    /** The body of the inner loop of `identificar_pontes_naive`: remove u-v,
        test whether the graph is still connected, add u-v back. The lists
        may have been reordered by earlier iterations; a0 is the original. */
    method DisconnectsWithout(ghost a0: AdjList, u: nat, v: nat) returns (cut: bool)
      requires Valid() && SameNeighbours(adj, a0) && u < n && v in a0[u]
      modifies this`adj
      ensures Valid() && SameNeighbours(adj, a0)
      ensures cut <==> Disconnects(a0, u, v)
    {
      NaiveStep(adj, a0, u, v);
      RemoveEdge(u, v);
      var c := IsConnected();
      AddEdge(u, v);
      cut := !c;
    }

    /** `identificar_pontes_naive`: for every vertex u and every entry v of
        the list of u as it stood when the scan of u began, remove u-v, record
        (u, v) if the graph is no longer connected, and add u-v back. */
    method NaiveBridges() returns (bridges: seq<(nat, nat)>)
      requires Valid()
      modifies this`adj
      ensures Valid() && SameNeighbours(adj, old(adj))
      ensures forall u: nat, v: nat :: (u, v) in bridges <==> Disconnects(old(adj), u, v)
    {
      ghost var a0 := adj;
      bridges := [];
      for u := 0 to n
        invariant Valid() && SameNeighbours(adj, a0)
        invariant forall x: nat, y: nat :: (x, y) in bridges <==> x < u && Disconnects(a0, x, y)
      {
        var ns := adj[u];
        SameNeighboursMembership(adj, a0);
        for i := 0 to |ns|
          invariant Valid() && SameNeighbours(adj, a0)
          invariant forall y :: y in ns ==> y in a0[u]
          invariant forall x: nat, y: nat :: (x, y) in bridges <==>
            (x < u || (x == u && y in ns[..i])) && Disconnects(a0, x, y)
        {
          var v := ns[i];
          var cut := DisconnectsWithout(a0, u, v);
          NaiveRecord(bridges, a0, u, ns, i, cut);
          if cut {
            bridges := bridges + [(u, v)];
          }
        }
        assert ns[..|ns|] == ns;
        SameNeighboursMembership(adj, a0);
      }
    }

    /** The arrays `TD`, `low` and `pai` and the clock hold the search state s. */
    ghost predicate Mirrors(td: array<nat>, low: array<nat>, parent: array<int>, s: Dfs)
      reads this, td, low, parent
    {
      td[..] == s.T && low[..] == s.L && parent[..] == s.P && time == s.time
    }

    /** `busca_pontes(v)`: tick the clock, set `TD[v] = low[v] = tempo`, and
        scan the neighbours of v: an undiscovered w becomes a child, is
        searched, lowers `low[v]` to `low[w]`, and v-w is appended to
        `pontes` when `low[w] > TD[v]`; any other neighbour but the parent
        lowers `low[v]` to `TD[w]`. On return v has finished, the search
        invariant holds, the low values of vertices discovered earlier are
        untouched, and `pontes` has gained exactly the tree bridges below v. */
    method BridgeSearch(v: nat, td: array<nat>, low: array<nat>, parent: array<int>,
                        bridges: seq<(nat, nat)>, ghost s: Dfs)
      returns (bridges': seq<(nat, nat)>, ghost s': Dfs)
      requires Valid() && td.Length == n && low.Length == n && parent.Length == n && td != low
      requires Mirrors(td, low, parent, s) && Inv(adj, s) && v < n && s.T[v] == 0
      requires CallPre(adj, s.P, s.stack, v) && PendingOk(s.T, s.P, v)
      requires ChildrenOnce(s.T, bridges)
      modifies td, low, parent, this`time
      ensures Mirrors(td, low, parent, s') && Searched(adj, s, s', v, bridges', bridges)
      ensures ChildrenOnce(s'.T, bridges')
      decreases Undiscovered(s.T), 1
    {
      time := time + 1;
      td[v] := time;
      low[v] := time;
      ghost var t := Start(s, v);
      ScannedStart(adj, s, v, bridges);
      ChildrenOnceStays(s.T, t.T, bridges);
      bridges' := bridges;
      var ns := adj[v];
      for i := 0 to |ns|
        invariant Mirrors(td, low, parent, t) && Scanned(adj, s, t, v, ns[..i], bridges', bridges)
        invariant ChildrenOnce(t.T, bridges')
      {
        var w := ns[i];
        assert ns[..i + 1] == ns[..i] + [w];
        if td[w] == 0 {
          bridges', t := TreeEdge(v, w, td, low, parent, bridges', bridges, s, t, ns[..i]);
        } else if w != parent[v] {
          ScannedBack(adj, s, t, v, ns[..i], w, bridges', bridges);
          low[v] := Min(low[v], td[w]);
          t := t.(L := t.L[v := Min(t.L[v], t.T[w])]);
        } else {
          ScannedParent(adj, s, t, v, ns[..i], w, bridges', bridges);
        }
      }
      assert ns[..|ns|] == adj[v];
      ScannedFinish(adj, s, t, v, bridges', bridges);
      s' := t.(F := t.F[v := t.time], stack := s.stack);
    }

    /** The branch `if TD[w] == 0` of the loop of `busca_pontes(v)`, called
        from state s and having reached state t: `pai[w] = v`, the call on
        w, `low[v] = min(low[v], low[w])`, and `pontes.append((v, w))` when
        `low[w] > TD[v]`. The loop has then scanned w as well. */
    method TreeEdge(v: nat, w: nat, td: array<nat>, low: array<nat>, parent: array<int>,
                    bridges: seq<(nat, nat)>, ghost B0: seq<(nat, nat)>, ghost s: Dfs,
                    ghost t: Dfs, ghost done: seq<nat>)
      returns (bridges': seq<(nat, nat)>, ghost t': Dfs)
      requires Valid() && td.Length == n && low.Length == n && parent.Length == n && td != low
      requires Mirrors(td, low, parent, t) && Scanned(adj, s, t, v, done, bridges, B0)
      requires w in adj[v] && t.T[w] == 0 && ChildrenOnce(t.T, bridges)
      modifies td, low, parent, this`time
      ensures Mirrors(td, low, parent, t') && Scanned(adj, s, t', v, done + [w], bridges', B0)
      ensures ChildrenOnce(t'.T, bridges')
      decreases Undiscovered(s.T), 0
    {
      ScannedDescend(adj, s, t, v, done, w, bridges, B0);
      parent[w] := v;
      ghost var t2;
      bridges', t2 := BridgeSearch(w, td, low, parent, bridges, t.(P := t.P[w := v]));
      ScannedChild(adj, s, t, t2, v, done, w, bridges, bridges', B0);
      low[v] := Min(low[v], low[w]);
      if low[w] > td[v] {
        ChildrenOnceAppend(t.T, t2, bridges, bridges', v, w);
        bridges' := bridges' + [(v, w)];
      }
      t' := t2.(L := t2.L[v := Min(t2.L[v], t2.L[w])]);
    }

    /** `identificar_pontes_tarjan`: reset the clock and the arrays, run
        `busca_pontes` from every vertex still undiscovered, in order, and
        return `pontes`: every edge listed is a bridge, listed once from its
        parent end, and every bridge is listed. */
    method TarjanBridges() returns (bridges: seq<(nat, nat)>)
      requires Valid()
      modifies this`time
      ensures forall a, b :: (a, b) in bridges ==> a < n && b in adj[a] && Bridge(adj, a, b)
      ensures forall u, v :: 0 <= u < n && v in adj[u] && Bridge(adj, u, v) ==>
        (u, v) in bridges || (v, u) in bridges
      ensures forall a, b :: (a, b) in bridges ==> (b, a) !in bridges
      ensures forall i, j :: 0 <= i < j < |bridges| ==> bridges[i].1 != bridges[j].1
      ensures time == n
    {
      var td := new nat[n](_ => 0);
      var low := new nat[n](_ => n + 1);
      var parent := new int[n](_ => -1);
      time := 0;
      ghost var s := Dfs(seq(n, _ => 0), low[..], seq(n, _ => -1), seq(n, _ => 0), 0, [], []);
      assert td[..] == s.T && parent[..] == s.P;
      RootedInit(adj, low[..]);
      bridges, s := SearchRoots(td, low, parent, s);
      TarjanResult(adj, s, bridges);
    }

    /** The loop `for v in range(num_vertices): if TD[v] == 0: busca_pontes(v)`
        of `identificar_pontes_tarjan`, from the state s with nothing found:
        afterwards every vertex is discovered, no call is running, and
        `pontes` lists exactly the tree bridges. */
    method SearchRoots(td: array<nat>, low: array<nat>, parent: array<int>, ghost s: Dfs)
      returns (bridges: seq<(nat, nat)>, ghost s': Dfs)
      requires Valid() && td.Length == n && low.Length == n && parent.Length == n && td != low
      requires Mirrors(td, low, parent, s) && Rooted(adj, s, [])
      modifies td, low, parent, this`time
      ensures Mirrors(td, low, parent, s') && Done(adj, s') && Rooted(adj, s', bridges)
      ensures time == n
      ensures forall z :: 0 <= z < n ==> 1 <= td[z] <= n && low[z] <= td[z]
      ensures forall a, b :: 0 <= a < n && 0 <= b < n && a != b ==> td[a] != td[b]
      ensures forall a: nat, b: nat :: (a, b) in bridges <==>
        a < n && b < n && parent[b] == a && low[b] > td[a]
      ensures forall i, j :: 0 <= i < j < |bridges| ==> bridges[i].1 != bridges[j].1
    {
      bridges, s' := [], s;
      for v := 0 to n
        invariant Mirrors(td, low, parent, s') && Rooted(adj, s', bridges)
        invariant forall z :: 0 <= z < v ==> s'.T[z] > 0
        invariant ChildrenOnce(s'.T, bridges)
      {
        if td[v] == 0 {
          RootedCall(adj, s', bridges, v);
          ghost var s2;
          var found;
          found, s2 := BridgeSearch(v, td, low, parent, bridges, s');
          RootedReturn(adj, s', s2, bridges, found, v);
          bridges, s' := found, s2;
        }
      }
      RootedDone(adj, s', bridges);
      DoneTimes(adj, s');
    }

    /** The inner `grafo_conectado` of `fleury`: depth-first search from the
        first vertex that still has an edge, then every vertex with an edge must
        have been reached. With no edge left at all the answer is true. */
    method IsConnectedIgnoringIsolated() returns (r: bool)
      requires Valid()
      ensures r <==> ConnectedIgnoringIsolated(adj)
    {
      var visited := new bool[n](_ => false);
      var a := adj;
      var hasEdge := (v: nat) => v < |a| && a[v] != [];
      var start := Next(0, n, hasEdge);
      assert forall v {:trigger adj[v]} :: 0 <= v < n ==> (hasEdge(v) <==> adj[v] != []);
      if start.None? {
        r := true;
      } else {
        var s := start.value;
        VisitFrom(visited, s);
        r := forall v :: 0 <= v < n ==> visited[v] || adj[v] == [];
        var S := set x | 0 <= x < n && visited[x];
        if r {
          forall x, y | 0 <= x < n && 0 <= y < n && adj[x] != [] && adj[y] != []
            ensures Reachable(adj, x, y)
          {
            assert visited[x] && visited[y];
            ReachSym(adj, s, x);
            ReachTrans(adj, x, s, y);
          }
        }
        if ConnectedIgnoringIsolated(adj) {
          forall v | 0 <= v < n && adj[v] != [] ensures visited[v] {
            ReachClosed(adj, S, s, v);
          }
        }
      }
    }

    /** `eh_aresta_ponte`: remove the edge u-v, test the rest, add u-v back,
        which moves v to the end of the list of u and u to the end of the list
        of v. */
    method IsBridgeEdge(u: nat, v: nat) returns (b: bool)
      requires Valid() && u < n && v in adj[u]
      modifies this`adj
      ensures Valid() && SameNeighbours(adj, old(adj))
      ensures adj == old(adj)[u := Filter(old(adj[u]), v) + [v]][v := Filter(old(adj[v]), u) + [u]]
      ensures b <==> !ConnectedIgnoringIsolated(Without(old(adj), u, v))
    {
      ghost var before := adj;
      RemoveEdge(u, v);
      var c := IsConnectedIgnoringIsolated();
      AddEdge(u, v);
      RemoveThenAddRestores(before, u, v);
      RemoveThenAddOrder(before, u, v);
      b := !c;
    }

    /** The `for` loop inside the `while` of `fleury`: scan the neighbours of
        a as listed now, testing each with `eh_aresta_ponte`, and stop at the
        first one that is allowed. The test reorders the lists but keeps every
        neighbour multiset. */
    method ChooseEdge(a: nat) returns (found: bool, b: nat, ghost at: nat)
      requires Valid() && a < n
      modifies this`adj
      ensures Valid() && SameNeighbours(adj, old(adj))
      ensures found ==> at < |old(adj)[a]| && old(adj)[a][at] == b && Allowed(old(adj), a, b)
      ensures found ==> NoneAllowed(old(adj), a, old(adj)[a][..at])
      ensures !found ==> NoneAllowed(old(adj), a, old(adj)[a])
    {
      ghost var pass := adj;
      var ns := adj[a];
      found, b, at := false, 0, 0;
      for i := 0 to |ns|
        invariant Valid() && SameNeighbours(adj, pass)
        invariant NoneAllowed(pass, a, ns[..i])
      {
        var next: nat := ns[i];
        ghost var before := adj;
        SameNeighboursMembership(adj, pass);
        assert next in adj[a];
        var bridge := IsBridgeEdge(a, next);
        FleuryCandidate(before, adj, pass, a, next);
        if !bridge || |adj[a]| == 1 {
          found, b, at := true, next, i;
          break;
        }
        NoneAllowedExtend(pass, a, ns, i);
      }
      if !found {
        assert ns[..|ns|] == ns;
      }
    }

    /** `fleury`: starting at the first odd-degree vertex (else 0), repeatedly
        take the first remaining edge of the current vertex that is allowed,
        record it, remove it and move along it, until the current vertex has
        no edge left. When a whole scan finds no allowed edge the lists are
        the same as before the scan up to order, so the source repeats that
        scan forever; the model stops there and reports stuck. */
    method Fleury() returns (path: seq<(nat, nat)>, stuck: bool, ghost last: nat)
      requires Valid() && n >= 1
      modifies this`adj
      ensures Valid() && Walked(old(adj), adj, path, last)
      ensures !stuck ==> adj[last] == []
      ensures stuck ==> adj[last] != [] && NoneAllowed(adj, last, adj[last])
    {
      ghost var a0 := adj;
      path := [];
      stuck := false;
      var current: nat := FleuryStart(adj);
      while adj[current] != []
        invariant Valid() && Walked(a0, adj, path, current)
        decreases DegreeSum(adj)
      {
        ghost var pass := adj;
        var found, next, _ := ChooseEdge(current);
        if !found {
          FleuryStays(adj, pass, current);
          stuck := true;
          break;
        }
        FleuryStep(a0, pass, adj, path, current, next);
        path := path + [(current, next)];
        RemoveEdge(current, next);
        current := next;
      }
      last := current;
    }
  }
}
