/** One call of `busca_pontes(v)`: how each step of its scan over the
    neighbours of v keeps the search invariant and grows the facts about the
    window of v, and how the call finishes. */
module Scan {
  import opened Adjacency
  import opened Paths
  import opened DfsTree

  /** Python's `min` on two numbers. */
  function Min(a: nat, b: nat): (r: nat)
    ensures r <= a && r <= b && (r == a || r == b)
  {
    if b < a then b else a
  }

  // Scanning the edge from v back to its parent: nothing to update, the
  // edge is excluded from the low value.

  lemma ParentEdgeFacts(adj: AdjList, T: seq<nat>, P: seq<int>, F: seq<nat>, v: nat, lx: nat,
                        hi: nat, done: seq<nat>, w: nat)
    requires SubFacts(adj, T, P, F, v, lx, hi, done)
    requires w in adj[v] && w == P[v] && w < |T| && 1 <= T[w] < T[v]
    ensures SubFacts(adj, T, P, F, v, lx, hi, done + [w])
  {
    var d := done + [w];
    assert forall c: nat, y: nat :: Counted(adj, v, d, c, y) ==>
      Counted(adj, v, done, c, y) || (c == v && y == w);
    TreeReachRefl(T, P, w);
    assert SubBack(adj, T, P, v, hi, d);
    assert SubWitness(adj, T, P, v, lx, hi, d) by {
      if lx != T[v] {
        var c: nat, y: nat :| Within(T, v, hi, c) && Counted(adj, v, done, c, y) &&
          (c != v || y != P[v]) && y < |T| && lx == T[y];
        assert Counted(adj, v, d, c, y);
      }
    }
  }

  // Scanning an edge to a vertex already discovered, not the parent:
  // `low[v] = min(low[v], TD[w])`.

  lemma BackEdgeFacts(adj: AdjList, T: seq<nat>, P: seq<int>, F: seq<nat>, v: nat, lx: nat,
                      hi: nat, done: seq<nat>, w: nat)
    requires SubFacts(adj, T, P, F, v, lx, hi, done)
    requires w in adj[v] && w != P[v] && w < |T| && 1 <= T[w] <= hi
    requires T[v] < T[w] || (T[w] < T[v] && P[v] >= 0 && TreeReach(T, P, w, P[v] as nat))
    ensures SubFacts(adj, T, P, F, v, Min(lx, T[w]), hi, done + [w])
  {
    var d := done + [w];
    var m := Min(lx, T[w]);
    assert forall c: nat, y: nat :: Counted(adj, v, d, c, y) ==>
      Counted(adj, v, done, c, y) || (c == v && y == w);
    assert SubLow(adj, T, P, v, m, hi, d);
    assert SubBack(adj, T, P, v, hi, d);
    assert SubWitness(adj, T, P, v, m, hi, d) by {
      if m == T[w] {
        assert Within(T, v, hi, v) && Counted(adj, v, d, v, w);
      } else if lx != T[v] {
        var c: nat, y: nat :| Within(T, v, hi, c) && Counted(adj, v, done, c, y) &&
          (c != v || y != P[v]) && y < |T| && lx == T[y];
        assert Counted(adj, v, d, c, y);
      }
    }
  }

  // Scanning an edge to an undiscovered vertex w: after the call on w has
  // returned at time hi, the window of v also holds the subtree of w, and
  // `low[v] = min(low[v], low[w])`.

  ghost predicate ChildPre(adj: AdjList, T: seq<nat>, P: seq<int>, F: seq<nat>, v: nat, lv: nat,
                           h: nat, done: seq<nat>, w: nat, lw: nat, hi: nat) {
    && SubFacts(adj, T, P, F, v, lv, h, done)
    && w in adj[v] && w < |adj|
    && SubFacts(adj, T, P, F, w, lw, hi, adj[w])
    && P[w] == v && T[w] == h + 1 && F[w] > 0
    && (P[v] >= 0 ==> P[v] < |T| && T[P[v]] < T[v])
  }

  /** The window of v up to hi is the old window up to h and the window of w. */
  lemma ChildWindow(adj: AdjList, T: seq<nat>, P: seq<int>, F: seq<nat>, v: nat, lv: nat,
                    h: nat, done: seq<nat>, w: nat, lw: nat, hi: nat, c: nat)
    requires ChildPre(adj, T, P, F, v, lv, h, done, w, lw, hi) && Within(T, v, hi, c)
    ensures Within(T, v, h, c) || (Within(T, w, hi, c) && c != v)
  {
  }

  lemma ChildReached(adj: AdjList, T: seq<nat>, P: seq<int>, F: seq<nat>, v: nat, lv: nat,
                     h: nat, done: seq<nat>, w: nat, lw: nat, hi: nat)
    requires ChildPre(adj, T, P, F, v, lv, h, done, w, lw, hi)
    ensures SubReached(adj, T, v, hi, done + [w])
  {
    forall c: nat, y: nat | Within(T, v, hi, c) && Counted(adj, v, done + [w], c, y)
      ensures y < |T| && 1 <= T[y] <= hi
    {
      ChildWindow(adj, T, P, F, v, lv, h, done, w, lw, hi, c);
      if Within(T, v, h, c) {
        if !(c == v && y == w) {
          assert Counted(adj, v, done, c, y);
        }
      } else {
        assert Counted(adj, w, adj[w], c, y);
      }
    }
  }

  lemma ChildLow(adj: AdjList, T: seq<nat>, P: seq<int>, F: seq<nat>, v: nat, lv: nat,
                 h: nat, done: seq<nat>, w: nat, lw: nat, hi: nat)
    requires ChildPre(adj, T, P, F, v, lv, h, done, w, lw, hi)
    ensures SubLow(adj, T, P, v, Min(lv, lw), hi, done + [w])
  {
    var m := Min(lv, lw);
    forall c: nat, y: nat | Within(T, v, hi, c) && Counted(adj, v, done + [w], c, y) &&
      (c != v || y != P[v]) && y < |T|
      ensures m <= T[y]
    {
      ChildWindow(adj, T, P, F, v, lv, h, done, w, lw, hi, c);
      if Within(T, v, h, c) {
        if !(c == v && y == w) {
          assert Counted(adj, v, done, c, y);
        }
      } else if !(c == w && y == v) {
        assert Counted(adj, w, adj[w], c, y);
      }
    }
  }

  lemma ChildWitness(adj: AdjList, T: seq<nat>, P: seq<int>, F: seq<nat>, v: nat, lv: nat,
                     h: nat, done: seq<nat>, w: nat, lw: nat, hi: nat)
    requires ChildPre(adj, T, P, F, v, lv, h, done, w, lw, hi)
    ensures SubWitness(adj, T, P, v, Min(lv, lw), hi, done + [w])
  {
    var d := done + [w];
    if Min(lv, lw) == lv {
      if lv != T[v] {
        var c: nat, y: nat :| Within(T, v, h, c) && Counted(adj, v, done, c, y) &&
          (c != v || y != P[v]) && y < |T| && lv == T[y];
        assert Within(T, v, hi, c) && Counted(adj, v, d, c, y);
      }
    } else {
      // lw < lv <= T[v] < T[w], so the low value of w comes from an edge
      var c: nat, y: nat :| Within(T, w, hi, c) && Counted(adj, w, adj[w], c, y) &&
        (c != w || y != P[w]) && y < |T| && lw == T[y];
      assert Within(T, v, hi, c) && Counted(adj, v, d, c, y);
    }
  }

  lemma ChildTree(adj: AdjList, T: seq<nat>, P: seq<int>, F: seq<nat>, v: nat, lv: nat,
                  h: nat, done: seq<nat>, w: nat, lw: nat, hi: nat)
    requires ChildPre(adj, T, P, F, v, lv, h, done, w, lw, hi)
    ensures SubTree(T, P, v, hi)
  {
    forall c | Within(T, v, hi, c) ensures TreeReach(T, P, v, c) {
      ChildWindow(adj, T, P, F, v, lv, h, done, w, lw, hi, c);
      if !Within(T, v, h, c) {
        TreeReachPrepend(T, P, v, w, c);
      }
    }
  }

  lemma ChildBack(adj: AdjList, T: seq<nat>, P: seq<int>, F: seq<nat>, v: nat, lv: nat,
                  h: nat, done: seq<nat>, w: nat, lw: nat, hi: nat)
    requires ChildPre(adj, T, P, F, v, lv, h, done, w, lw, hi)
    ensures SubBack(adj, T, P, v, hi, done + [w])
  {
    forall c: nat, y: nat | Within(T, v, hi, c) && Counted(adj, v, done + [w], c, y) &&
      y < |T| && T[y] < T[v]
      ensures P[v] >= 0 && TreeReach(T, P, y, P[v] as nat)
    {
      ChildWindow(adj, T, P, F, v, lv, h, done, w, lw, hi, c);
      if Within(T, v, h, c) {
        assert Counted(adj, v, done, c, y);
      } else {
        assert Counted(adj, w, adj[w], c, y);
        TreeReachUp(T, P, y, v);
      }
    }
  }

  lemma ChildDone(adj: AdjList, T: seq<nat>, P: seq<int>, F: seq<nat>, v: nat, lv: nat,
                  h: nat, done: seq<nat>, w: nat, lw: nat, hi: nat)
    requires ChildPre(adj, T, P, F, v, lv, h, done, w, lw, hi)
    ensures SubDone(T, F, v, hi)
  {
    forall z | 0 <= z < |T| && z != v && Within(T, v, hi, z) ensures z < |F| && F[z] > 0 {
      ChildWindow(adj, T, P, F, v, lv, h, done, w, lw, hi, z);
    }
  }

  lemma ChildFacts(adj: AdjList, T: seq<nat>, P: seq<int>, F: seq<nat>, v: nat, lv: nat,
                   h: nat, done: seq<nat>, w: nat, lw: nat, hi: nat)
    requires ChildPre(adj, T, P, F, v, lv, h, done, w, lw, hi)
    ensures SubFacts(adj, T, P, F, v, Min(lv, lw), hi, done + [w])
  {
    ChildReached(adj, T, P, F, v, lv, h, done, w, lw, hi);
    ChildLow(adj, T, P, F, v, lv, h, done, w, lw, hi);
    ChildWitness(adj, T, P, F, v, lv, h, done, w, lw, hi);
    ChildTree(adj, T, P, F, v, lv, h, done, w, lw, hi);
    ChildBack(adj, T, P, F, v, lv, h, done, w, lw, hi);
    ChildDone(adj, T, P, F, v, lv, h, done, w, lw, hi);
  }

  /** Equal discovery times mean the same vertex. */
  lemma InvInjective(adj: AdjList, s: Dfs, a: nat, b: nat)
    requires Inv(adj, s) && a < |adj| && b < |adj|
    ensures s.T[a] == s.T[b] && s.T[a] > 0 ==> a == b
  {
    VertexOf(adj, s, |adj|, a);
    VertexOf(adj, s, |adj|, b);
  }

  /** Discovery times increase up the stack of running calls. */
  lemma {:induction false} StackIncreasing(adj: AdjList, s: Dfs, i: nat, j: nat)
    requires Inv(adj, s) && i < j < |s.stack|
    ensures s.T[s.stack[i]] < s.T[s.stack[j]]
    decreases j
  {
    assert s.stack[j] in s.stack;
    VertexOf(adj, s, |adj|, s.stack[j]);
    if i < j - 1 {
      StackIncreasing(adj, s, i, j - 1);
    }
  }

  /** Changing the low value of a running call keeps the invariant. */
  lemma SetLowKeeps(adj: AdjList, s: Dfs, v: nat, x: nat)
    requires Inv(adj, s) && v < |adj| && s.F[v] == 0
    ensures Inv(adj, s.(L := s.L[v := x])) && Extends(s, s.(L := s.L[v := x]))
  {
    var s1 := s.(L := s.L[v := x]);
    assert Extends(s, s1);
    forall z | 0 <= z < |adj| ensures VertexOk(adj, s1, z) {
      VertexOf(adj, s, |adj|, z);
      if s.F[z] > 0 {
        FinalStable(adj, s, s1, z);
      }
    }
    VerticesIntro(adj, s1, |adj|);
  }

  /** Where the scan of the neighbours of v stands after it has scanned the
      neighbours `done`: s0 is the state on entry to the call on v. */
  ghost predicate Scanning(adj: AdjList, s0: Dfs, s: Dfs, v: nat, done: seq<nat>) {
    && WellFormed(adj) && Inv(adj, s) && NoPending(s.T, s.P) && Extends(s0, s)
    && v < |adj| && s.stack == s0.stack + [v] && s.T[v] == s0.time + 1
    && SubFacts(adj, s.T, s.P, s.F, v, s.L[v], s.time, done)
  }

  /** Entering the call opens the scan. */
  lemma ScanStart(adj: AdjList, s0: Dfs, v: nat)
    requires WellFormed(adj) && Inv(adj, s0) && v < |adj| && s0.T[v] == 0
    requires CallPre(adj, s0.P, s0.stack, v) && PendingOk(s0.T, s0.P, v)
    ensures Scanning(adj, s0, Start(s0, v), v, [])
  {
    Discover(adj, s0, v);
  }

  /** `w == pai[v]`: the edge back to the parent changes nothing. */
  lemma ScanParentEdge(adj: AdjList, s0: Dfs, s: Dfs, v: nat, done: seq<nat>, w: nat)
    requires Scanning(adj, s0, s, v, done) && w in adj[v] && s.T[w] != 0 && w == s.P[v]
    ensures Scanning(adj, s0, s, v, done + [w])
  {
    VertexOf(adj, s, |adj|, v);
    VertexOf(adj, s, |adj|, w);
    ParentEdgeFacts(adj, s.T, s.P, s.F, v, s.L[v], s.time, done, w);
  }

  /** A neighbour v of a vertex w whose window is closed was discovered
      before w or has finished. */
  lemma FinishedNeighbour(adj: AdjList, T: seq<nat>, P: seq<int>, F: seq<nat>, w: nat, lw: nat,
                          hi: nat, v: nat)
    requires w < |adj| && SubFacts(adj, T, P, F, w, lw, hi, adj[w]) && v in adj[w]
    ensures v < |T| && (T[w] < T[v] ==> F[v] > 0)
  {
    assert Within(T, w, hi, w) && Counted(adj, w, adj[w], w, v);
    if T[w] < T[v] {
      assert Within(T, w, hi, v);
    }
  }

  /** A discovered neighbour of the running call v is a descendant of v, or an
      ancestor of the parent of v. */
  lemma BackEdgeCases(adj: AdjList, s: Dfs, v: nat, w: nat)
    requires WellFormed(adj) && Inv(adj, s) && s.stack != [] && s.stack[|s.stack| - 1] == v
    requires v < |adj| && w in adj[v] && s.T[w] != 0
    ensures s.T[v] < s.T[w] ||
      (s.T[w] < s.T[v] && s.P[v] >= 0 && TreeReach(s.T, s.P, w, s.P[v] as nat))
  {
    assert v in s.stack;
    VertexOf(adj, s, |adj|, v);
    VertexOf(adj, s, |adj|, w);
    InvInjective(adj, s, v, w);
    if s.F[w] > 0 {
      assert v in adj[w];
      FinishedNeighbour(adj, s.T, s.P, s.F, w, s.L[w], s.F[w], v);
    } else {
      var j :| 0 <= j < |s.stack| && s.stack[j] == w;
      StackTreeReach(adj, s, j, |s.stack| - 1);
      InvParents(adj, s);
      TreeReachTimes(adj, s.T, s.P, w, v);
      TreeReachUp(s.T, s.P, w, v);
    }
  }

  /** `elif w != pai[v]: low[v] = min(low[v], TD[w])`. */
  lemma ScanBackEdge(adj: AdjList, s0: Dfs, s: Dfs, v: nat, done: seq<nat>, w: nat)
    requires Scanning(adj, s0, s, v, done) && w in adj[v] && s.T[w] != 0 && w != s.P[v]
    ensures Scanning(adj, s0, s.(L := s.L[v := Min(s.L[v], s.T[w])]), v, done + [w])
  {
    var s1 := s.(L := s.L[v := Min(s.L[v], s.T[w])]);
    assert v in s.stack;
    VertexOf(adj, s, |adj|, v);
    VertexOf(adj, s, |adj|, w);
    BackEdgeCases(adj, s, v, w);
    BackEdgeFacts(adj, s.T, s.P, s.F, v, s.L[v], s.time, done, w);
    SetLowKeeps(adj, s, v, Min(s.L[v], s.T[w]));
    ExtendsTrans(s0, s, s1);
  }

  /** `pai[w] = v` for an undiscovered neighbour w, just before the call on w. */
  lemma ScanSetParent(adj: AdjList, s0: Dfs, s: Dfs, v: nat, done: seq<nat>, w: nat)
    requires Scanning(adj, s0, s, v, done) && w in adj[v] && s.T[w] == 0
    ensures Inv(adj, s.(P := s.P[w := v])) && Extends(s, s.(P := s.P[w := v]))
    ensures CallPre(adj, s.P[w := v], s.stack, w) && PendingOk(s.T, s.P[w := v], w)
    ensures SubFacts(adj, s.T, s.P[w := v], s.F, v, s.L[v], s.time, done)
  {
    SetParentKeeps(adj, s, v, w);
    SubFactsStable(adj, s, s.(P := s.P[w := v]), v, s.L[v], s.time, done);
  }

  lemma SetParentKeeps(adj: AdjList, s: Dfs, v: nat, w: nat)
    requires Inv(adj, s) && v < |adj| && w < |adj| && s.T[w] == 0
    ensures Inv(adj, s.(P := s.P[w := v])) && Extends(s, s.(P := s.P[w := v]))
  {
    var s1 := s.(P := s.P[w := v]);
    InvStack(adj, s);
    forall z | 0 <= z < |adj| ensures VertexOk(adj, s1, z) {
      SetParentVertex(adj, s, v, w, z);
    }
    VerticesIntro(adj, s1, |adj|);
  }

  lemma SetParentVertex(adj: AdjList, s: Dfs, v: nat, w: nat, z: nat)
    requires Inv(adj, s) && v < |adj| && w < |adj| && s.T[w] == 0 && z < |adj|
    ensures VertexOk(adj, s.(P := s.P[w := v]), z)
  {
    var s1 := s.(P := s.P[w := v]);
    assert Extends(s, s1);
    VertexOf(adj, s, |adj|, z);
    if s.F[z] > 0 {
      FinalStable(adj, s, s1, z);
    }
  }

  /** Back from the call on w: `low[v] = min(low[v], low[w])`. */
  lemma ScanChild(adj: AdjList, s0: Dfs, s: Dfs, s2: Dfs, v: nat, done: seq<nat>, w: nat)
    requires Scanning(adj, s0, s, v, done) && w in adj[v] && s.T[w] == 0
    requires Inv(adj, s2) && Extends(s.(P := s.P[w := v]), s2) && NoPending(s2.T, s2.P)
    requires s2.stack == s.stack && s2.T[w] == s.time + 1 && s2.F[w] == s2.time
    requires s2.P[w] == v && s2.L[v] == s.L[v]
    ensures Scanning(adj, s0, s2.(L := s2.L[v := Min(s2.L[v], s2.L[w])]), v, done + [w])
  {
    var s1 := s.(P := s.P[w := v]);
    var s3 := s2.(L := s2.L[v := Min(s2.L[v], s2.L[w])]);
    assert Extends(s, s1);
    ExtendsTrans(s, s1, s2);
    SubFactsStable(adj, s, s2, v, s.L[v], s.time, done);
    assert v in s2.stack;
    VertexOf(adj, s2, |adj|, v);
    VertexOf(adj, s2, |adj|, w);
    ChildFacts(adj, s2.T, s2.P, s2.F, v, s.L[v], s.time, done, w, s2.L[w], s2.time);
    SetLowKeeps(adj, s2, v, Min(s2.L[v], s2.L[w]));
    ExtendsTrans(s0, s, s2);
    ExtendsTrans(s0, s2, s3);
  }

  lemma StackPrefix(n: nat, P: seq<int>, stack: seq<nat>, k: nat)
    requires StackShape(n, P, stack) && k <= |stack|
    ensures StackShape(n, P, stack[..k])
  {
  }

  /** Finishing the running call v once its window is complete keeps the
      invariant. */
  lemma FinishKeeps(adj: AdjList, s: Dfs, v: nat)
    requires WellFormed(adj) && Inv(adj, s) && v < |adj|
    requires s.stack != [] && s.stack[|s.stack| - 1] == v
    requires SubFacts(adj, s.T, s.P, s.F, v, s.L[v], s.time, adj[v])
    ensures Inv(adj, s.(F := s.F[v := s.time], stack := s.stack[..|s.stack| - 1]))
    ensures Extends(s, s.(F := s.F[v := s.time], stack := s.stack[..|s.stack| - 1]))
  {
    var below := s.stack[..|s.stack| - 1];
    var f := s.(F := s.F[v := s.time], stack := below);
    forall i | 0 <= i < |below| ensures below[i] != v {
      StackIncreasing(adj, s, i, |s.stack| - 1);
    }
    forall z | 0 <= z < |adj| ensures VertexOk(adj, f, z) {
      FinishVertex(adj, s, v, z);
    }
    VerticesIntro(adj, f, |adj|);
    StackPrefix(|adj|, s.P, s.stack, |s.stack| - 1);
    assert s.F[v] == 0 by {
      assert v in s.stack;
      VertexOf(adj, s, |adj|, v);
    }
  }

  lemma FinishVertex(adj: AdjList, s: Dfs, v: nat, z: nat)
    requires WellFormed(adj) && Inv(adj, s) && v < |adj| && z < |adj|
    requires s.stack != [] && s.stack[|s.stack| - 1] == v
    requires SubFacts(adj, s.T, s.P, s.F, v, s.L[v], s.time, adj[v])
    requires forall i :: 0 <= i < |s.stack| - 1 ==> s.stack[i] != v
    ensures VertexOk(adj, s.(F := s.F[v := s.time], stack := s.stack[..|s.stack| - 1]), z)
  {
    var below := s.stack[..|s.stack| - 1];
    var f := s.(F := s.F[v := s.time], stack := below);
    assert v in s.stack;
    VertexOf(adj, s, |adj|, v);
    assert Extends(s, f);
    VertexOf(adj, s, |adj|, z);
    if z == v {
      SubFactsStable(adj, s, f, v, s.L[v], s.time, adj[v]);
    } else if s.F[z] > 0 {
      FinalStable(adj, s, f, z);
    }
    assert s.stack == below + [v];
    assert z in s.stack <==> z in below || z == v;
  }

  /** When the scan is over the call on v returns: v finishes at the current
      time and leaves the stack. */
  lemma ScanFinish(adj: AdjList, s0: Dfs, s: Dfs, v: nat)
    requires v < |adj| && Scanning(adj, s0, s, v, adj[v])
    ensures Inv(adj, s.(F := s.F[v := s.time], stack := s0.stack))
    ensures Extends(s0, s.(F := s.F[v := s.time], stack := s0.stack))
    ensures NoPending(s.T, s.P)
  {
    assert s.stack[..|s.stack| - 1] == s0.stack;
    FinishKeeps(adj, s, v);
    ExtendsTrans(s0, s, s.(F := s.F[v := s.time], stack := s0.stack));
  }
}
