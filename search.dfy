/** One call of `busca_pontes(v)` as a relation between the search state at
    the call and the state at its return, and one step of its loop over the
    neighbours of v for each of the three branches of the loop body. */
module Search {
  import opened Adjacency
  import opened DfsTree
  import opened Scan
  import opened LowLink

  /** The call `busca_pontes(v)` from state s returned in state s2, having
      appended to B the list B2: s2 extends s and keeps the invariant, v has
      finished with the discovery time it got on entry and the same parent,
      the low values of vertices discovered before the call are untouched,
      and B2 holds what B held plus exactly the tree bridges below v. */
  ghost predicate Searched(adj: AdjList, s: Dfs, s2: Dfs, v: nat, B2: seq<(nat, nat)>,
                           B: seq<(nat, nat)>) {
    && Inv(adj, s2) && Extends(s, s2) && NoPending(s2.T, s2.P) && s2.stack == s.stack
    && v < |s2.T| && s2.T[v] == s.time + 1 && s2.F[v] == s2.time && s2.P[v] == s.P[v]
    && (forall z :: 0 <= z < |s.T| && s.T[z] > 0 ==> s2.L[z] == s.L[z])
    && Recorded(s2.T, s2.P, s2.L, B2, B, s2.T[v], s2.time)
  }

  /** The loop of `busca_pontes(v)`, called from state s, has scanned the
      neighbours in done and reached state t, with B holding what the list
      held at the call (B0) plus the tree bridges found so far. */
  ghost predicate Scanned(adj: AdjList, s: Dfs, t: Dfs, v: nat, done: seq<nat>,
                          B: seq<(nat, nat)>, B0: seq<(nat, nat)>) {
    && Scanning(adj, s, t, v, done) && v < |s.T| && s.T[v] == 0
    && Recorded(t.T, t.P, t.L, B, B0, t.T[v], t.time)
    && (forall z :: 0 <= z < |s.T| && s.T[z] > 0 ==> t.L[z] == s.L[z])
    && t.P[v] == s.P[v]
  }

  /** `tempo += 1; TD[v] = low[v] = tempo` opens the loop with nothing scanned
      and nothing appended. */
  lemma ScannedStart(adj: AdjList, s: Dfs, v: nat, B: seq<(nat, nat)>)
    requires WellFormed(adj) && Inv(adj, s) && v < |adj| && s.T[v] == 0
    requires CallPre(adj, s.P, s.stack, v) && PendingOk(s.T, s.P, v)
    ensures Scanned(adj, s, Start(s, v), v, [], B, B)
  {
    ScanStart(adj, s, v);
  }

  /** `w == pai[v]`: nothing changes. */
  lemma ScannedParent(adj: AdjList, s: Dfs, t: Dfs, v: nat, done: seq<nat>, w: nat,
                      B: seq<(nat, nat)>, B0: seq<(nat, nat)>)
    requires Scanned(adj, s, t, v, done, B, B0) && w in adj[v] && t.T[w] != 0 && w == t.P[v]
    ensures Scanned(adj, s, t, v, done + [w], B, B0)
  {
    ScanParentEdge(adj, s, t, v, done, w);
  }

  /** `elif w != pai[v]: low[v] = min(low[v], TD[w])`. */
  lemma ScannedBack(adj: AdjList, s: Dfs, t: Dfs, v: nat, done: seq<nat>, w: nat,
                    B: seq<(nat, nat)>, B0: seq<(nat, nat)>)
    requires Scanned(adj, s, t, v, done, B, B0) && w in adj[v] && t.T[w] != 0 && w != t.P[v]
    ensures Scanned(adj, s, t.(L := t.L[v := Min(t.L[v], t.T[w])]), v, done + [w], B, B0)
  {
    ScanBackEdge(adj, s, t, v, done, w);
    RecordSetLow(t.T, t.P, t.L, B, B0, t.T[v], t.time, v, Min(t.L[v], t.T[w]));
  }

  /** `pai[w] = v` for an undiscovered w meets what the call on w needs, and
      leaves fewer undiscovered vertices than at the call on v. */
  lemma ScannedDescend(adj: AdjList, s: Dfs, t: Dfs, v: nat, done: seq<nat>, w: nat,
                       B: seq<(nat, nat)>, B0: seq<(nat, nat)>)
    requires Scanned(adj, s, t, v, done, B, B0) && w in adj[v] && t.T[w] == 0
    ensures w < |adj| && Inv(adj, t.(P := t.P[w := v]))
    ensures CallPre(adj, t.P[w := v], t.stack, w) && PendingOk(t.T, t.P[w := v], w)
    ensures Undiscovered(t.T) < Undiscovered(s.T)
  {
    ScanSetParent(adj, s, t, v, done, w);
    UndiscoveredLess(s.T, t.T, v);
  }

  /** Back from `busca_pontes(w)`: `low[v] = min(low[v], low[w])`, and v-w
      is appended exactly when `low[w] > TD[v]`. */
  lemma ScannedChild(adj: AdjList, s: Dfs, t: Dfs, t2: Dfs, v: nat, done: seq<nat>, w: nat,
                     B: seq<(nat, nat)>, B2: seq<(nat, nat)>, B0: seq<(nat, nat)>)
    requires Scanned(adj, s, t, v, done, B, B0) && w in adj[v] && t.T[w] == 0
    requires Searched(adj, t.(P := t.P[w := v]), t2, w, B2, B)
    ensures Scanned(adj, s, t2.(L := t2.L[v := Min(t2.L[v], t2.L[w])]), v, done + [w],
                    if t2.L[w] > t2.T[v] then B2 + [(v, w)] else B2, B0)
  {
    ScanChild(adj, s, t, t2, v, done, w);
    RecordChild(adj, s, t, t2, v, done, w, B, B2, B0);
    var t1 := t.(P := t.P[w := v]);
    var t3 := t2.(L := t2.L[v := Min(t2.L[v], t2.L[w])]);
    assert Extends(s, t3);
    forall z | 0 <= z < |s.T| && s.T[z] > 0 ensures t3.L[z] == s.L[z] {
      assert z != v && t1.T[z] > 0;
    }
  }

  /** The loop is over: v finishes, and the call returns. */
  lemma ScannedFinish(adj: AdjList, s: Dfs, t: Dfs, v: nat, B: seq<(nat, nat)>,
                      B0: seq<(nat, nat)>)
    requires v < |adj| && Scanned(adj, s, t, v, adj[v], B, B0)
    ensures Searched(adj, s, t.(F := t.F[v := t.time], stack := s.stack), v, B, B0)
  {
    ScanFinish(adj, s, t, v);
  }

  /** Between two root calls of `identificar_pontes_tarjan`: no call is
      running, and B lists exactly the tree bridges found so far. */
  ghost predicate Rooted(adj: AdjList, s: Dfs, B: seq<(nat, nat)>) {
    && Inv(adj, s) && s.stack == [] && NoPending(s.T, s.P)
    && Recorded(s.T, s.P, s.L, B, [], 0, s.time)
  }

  /** The fresh arrays and the empty list: nothing discovered, nothing found. */
  lemma RootedInit(adj: AdjList, L: seq<nat>)
    requires |L| == |adj|
    ensures Rooted(adj, Dfs(seq(|adj|, _ => 0), L, seq(|adj|, _ => -1), seq(|adj|, _ => 0),
                            0, [], []), [])
  {
    InitInv(adj, L);
  }

  /** An undiscovered vertex may start a new tree. */
  lemma RootedCall(adj: AdjList, s: Dfs, B: seq<(nat, nat)>, v: nat)
    requires Rooted(adj, s, B) && v < |adj| && s.T[v] == 0
    ensures CallPre(adj, s.P, s.stack, v) && PendingOk(s.T, s.P, v)
  {
  }

  /** A root call `busca_pontes(v)` keeps the outer loop's invariant, and
      every vertex discovered before it stays discovered. */
  lemma RootedReturn(adj: AdjList, s: Dfs, s2: Dfs, B: seq<(nat, nat)>, B2: seq<(nat, nat)>,
                     v: nat)
    requires Rooted(adj, s, B) && v < |adj| && s.T[v] == 0 && Searched(adj, s, s2, v, B2, B)
    ensures Rooted(adj, s2, B2) && s2.T[v] > 0
    ensures forall z :: 0 <= z < |s.T| && s.T[z] > 0 ==> s2.T[z] > 0
  {
    RecordRoot(adj, s, s2, v, B, B2);
  }

  /** The outer loop is over: every vertex is discovered and the list holds
      exactly the tree edges a-b with `low[b] > TD[a]`. */
  lemma RootedDone(adj: AdjList, s: Dfs, B: seq<(nat, nat)>)
    requires Rooted(adj, s, B) && forall z :: 0 <= z < |adj| ==> s.T[z] > 0
    ensures Done(adj, s) && s.time == |adj|
    ensures forall a: nat, b: nat :: (a, b) in B <==>
      a < |adj| && b < |adj| && s.P[b] == a && s.L[b] > s.T[a]
  {
    DoneTimes(adj, s);
  }

  /** No vertex is the lower end of two entries of B, and the lower end of
      every entry has been discovered. */
  ghost predicate ChildrenOnce(T: seq<nat>, B: seq<(nat, nat)>) {
    && (forall i, j :: 0 <= i < j < |B| ==> B[i].1 != B[j].1)
    && (forall k :: 0 <= k < |B| ==> B[k].1 < |T| && T[B[k].1] > 0)
  }

  /** Discovering further vertices keeps what ChildrenOnce says. */
  lemma ChildrenOnceStays(T: seq<nat>, T2: seq<nat>, B: seq<(nat, nat)>)
    requires ChildrenOnce(T, B) && |T2| == |T|
    requires forall z :: 0 <= z < |T| && T[z] > 0 ==> T2[z] > 0
    ensures ChildrenOnce(T2, B)
  {
  }

  /** `pontes.append((v, w))` after the call on w: w was undiscovered when
      the call began, and everything the call appended has a lower end
      discovered after w, so no entry yet has w as its lower end. */
  lemma ChildrenOnceAppend(T: seq<nat>, s2: Dfs, B: seq<(nat, nat)>, B2: seq<(nat, nat)>,
                           v: nat, w: nat)
    requires ChildrenOnce(T, B) && w < |T| && T[w] == 0
    requires ChildrenOnce(s2.T, B2) && w < |s2.T| && s2.T[w] > 0
    requires Recorded(s2.T, s2.P, s2.L, B2, B, s2.T[w], s2.time)
    ensures ChildrenOnce(s2.T, B2 + [(v, w)])
  {
    forall k | 0 <= k < |B2| ensures B2[k].1 != w {
      var a: nat, b: nat := B2[k].0, B2[k].1;
      assert (a, b) in B2;
      if (a, b) in B {
        var j :| 0 <= j < |B| && B[j] == (a, b);
        assert T[b] > 0;
      } else {
        assert s2.T[w] < s2.T[b];
      }
    }
  }
}
