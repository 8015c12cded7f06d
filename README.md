# Grafo: bridges and Fleury's walk, verified

This project models the class `Grafo` of `main.py` in Dafny and proves what
its operations compute:

- an undirected graph on vertices `0 .. num_vertices - 1`, kept as one
  neighbour list per vertex (`adjacencias`), plus a clock `tempo`;
- adding and removing an edge (`adicionar_aresta`, `remover_aresta`) and
  the ring generator `gerar_grafo_simples`;
- the depth-first connectivity test (`verificar_conectividade`,
  `grafo_conectado`);
- two bridge finders:
  - the naive one removes each listed edge, tests connectivity and puts
    the edge back;
  - Tarjan's algorithm runs one depth-first search with discovery times
    `TD`, low values `low` and parents `pai`, through the recursive inner
    function `busca_pontes`;
- Fleury's walk (`fleury`), with its inner connectivity test and its
  inner bridge test `eh_aresta_ponte`.

`Grafo.Graph` is a class with the vertex count `n`, the lists `adj` and
the clock `time`. Its methods change these in place, as the Python methods
do. `TD`, `low` and `pai` are Dafny arrays local to `TarjanBridges`.
`SearchRoots`, `BridgeSearch` and `TreeEdge` name the outer loop, the
recursive function and the tree-edge branch of `busca_pontes`, and they
update those arrays in place. A ghost value of type `DfsTree.Dfs` follows
the arrays and the clock through the search (`Grafo.Graph.Mirrors`). The
correctness proof is stated about that value.

Modules:

- `Adjacency`: the lists and the edits `remover_aresta` and
  `adicionar_aresta` make to them (`Without`, `With`), with their
  algebra.
- `Paths`: walks, reachability, the two connectivity notions the source
  tests, and bridges.
- `DfsTree`: the state of the Tarjan search and the invariant it keeps.
  Every vertex has a window of discovery times, and the low values are
  explained by tree paths and back edges.
- `Scan`: one call of `busca_pontes`, step by step over one vertex's
  neighbour list.
- `LowLink`: the low-link theorem (a tree edge is a bridge exactly when the
  child's low value exceeds the parent's time) and what the list of
  bridges holds.
- `Search`: the bundled loop invariants of `busca_pontes` and of the outer
  loop.
- `Grafo`: the class, the naive finder's test, the ring, and Fleury's rule.

On graphs the model fixes what the two bridge finders compute:

- Tarjan's list holds every bridge in exactly one orientation, from tree
  parent to child, and no vertex is the lower end of two entries, so no
  pair appears twice.
- On a connected graph the naive list holds exactly the bridges, each in
  both orientations (`Grafo.DisconnectsIsBridge`,
  `Grafo.DisconnectsSymmetric`). On a graph that is not connected to begin
  with, removing any edge leaves it disconnected, so the naive list holds
  every edge in both orientations (`Grafo.DisconnectsEveryEdge`).
- The two finders agree on every connected graph
  (`Grafo.NaiveAgreesWithTarjan`). On a disconnected graph they differ
  exactly when some edge is not a bridge.

## Model

| member | source | states |
|---|---|---|
| Grafo.Graph.constructor | main.py:2-8 | The graph has `num_vertices` vertices, every neighbour list is empty, the clock is 0, and the well-formedness invariant holds. |
| Grafo.Graph.AddEdge | main.py:10-16 | The new lists are `With(old lists, u, v)`: afterwards v is a neighbour of u and u of v, the invariant (symmetric, duplicate-free, loop-free lists) is kept, and adding an edge already present leaves the graph unchanged. |
| Adjacency.With | main.py:14-16 | When the two lists agree on the edge, a vertex's neighbours afterwards are its old ones plus the other end of u-v. Lists other than u's and v's are untouched. An edge already listed at u changes nothing (the duplicate check). |
| Adjacency.WithKeepsShape | main.py:14-16 | Adding an edge between two different vertices keeps the lists well formed. |
| Adjacency.WithIdempotent | main.py:14-16 | Adding the same edge twice gives the same lists as adding it once. |
| Grafo.Graph.RemoveEdge | main.py:18-23 | The new lists are `Without(old lists, u, v)`: u-v is no longer listed at either end, the invariant is kept, and removing an absent edge leaves the graph unchanged. |
| Adjacency.Filter | main.py:22-23 | The comprehension keeps exactly the entries that do not name x, each as often as before, and is the identity when x is absent. |
| Adjacency.Without | main.py:18-23 | After the removal a vertex's neighbours are its old ones minus the other end of u-v. Every list other than u's and v's is unchanged. |
| Adjacency.WithoutKeepsShape | main.py:18-23 | Removing an edge keeps the lists well formed. |
| Adjacency.WithoutAbsent | main.py:22-23 | Removing an edge that is not there changes nothing. |
| Adjacency.WithoutCommutes | main.py:22-23 | Removing u-v and removing v-u leave the same lists. |
| Adjacency.WithoutDegreeSum | main.py:127 | Removing an edge of a well-formed graph removes exactly two list entries, so each step of the walk uses up one edge. |
| Adjacency.RemoveThenAddRestores | main.py:59-62 | Removing an edge and adding it back gives every vertex the same neighbours, with the same multiplicities, as before. |
| Adjacency.RemoveThenAddOrder | main.py:115-117 | Removing an edge and adding it back moves v to the back of u's list and u to the back of v's list. Nothing else moves. |
| Adjacency.DegreeSumSame | main.py:123-129 | Lists that differ only in order hold the same number of entries. |
| Grafo.Graph.GenerateSimple | main.py:25-32 | The lists become `Ring(old lists, n, numEdges)`, and the invariant is kept. |
| Grafo.RingShape | main.py:29-32 | After k ring steps, y is a neighbour of x exactly when it was one before or some step i < k joined `i % n` and `(i + 1) % n` as x and y. |
| Grafo.RingWellFormed | main.py:29-32 | The ring steps keep the lists well formed. |
| Grafo.RingStepDistinct | main.py:30-31 | With at least two vertices, a ring step never joins a vertex to itself. |
| Grafo.Graph.VisitFrom | main.py:34-41 | The search marks v and never unmarks anything. Every vertex it newly marks is reachable from v. Every neighbour of a newly marked vertex is marked when the call returns. |
| Paths.ReachClosed | main.py:38-41 | A set that holds s and every neighbour of its members holds every vertex reachable from s. This is why a finished search has reached everything it can. |
| Grafo.Graph.IsConnected | main.py:43-49 | The result is true exactly when every vertex is reachable from vertex 0. |
| Paths.NoEdgesNotConnected | main.py:43-49 | A graph with two or more vertices and no edges is not connected. |
| Paths.ConnectedSameNeighbours | main.py:59-62 | Both connectivity tests depend only on which neighbours each vertex has, not on their order. |
| Paths.ReachSameNeighbours | main.py:59-62 | Reachability is unaffected by reordering neighbour lists. |
| Grafo.Graph.DisconnectsWithout | main.py:59-62 | On lists that differ from the original only in order: cut is true exactly when u-v is an edge of the original graph whose removal leaves it disconnected. The lists keep the original neighbours. |
| Grafo.NaiveStep | main.py:58-62 | On lists that earlier iterations have reordered, the connectivity test gives the answer it would give on the original lists, and putting the edge back returns to the original neighbours. |
| Grafo.NaiveRecord | main.py:60-61 | Appending the outcome for the next neighbour keeps the list of findings equal to the edges examined so far that disconnect the graph. |
| Grafo.Graph.NaiveBridges | main.py:52-63 | The result holds (u, v) exactly when v is a neighbour of u and removing u-v disconnects the graph. The lists end with their original neighbours. |
| Grafo.DisconnectsSymmetric | main.py:57-63 | The naive test reports an edge in both orientations or in neither. |
| Grafo.DisconnectsIsBridge | main.py:57-63 | On a connected graph the naive test reports exactly the bridges. |
| Grafo.DisconnectsEveryEdge | main.py:57-63 | On a graph that is not connected, the naive test reports every edge. |
| Paths.BridgeIffDisconnects | main.py:60 | On a connected graph, "removing u-v leaves some vertex unreachable from 0" is the same as "removing u-v separates u from v". |
| Paths.DisconnectedStays | main.py:60 | Removing an edge from a disconnected graph leaves it disconnected. |
| Paths.BridgeSymmetric | main.py:83-84 | u-v is a bridge exactly when v-u is. |
| Paths.BridgeSameNeighbours | main.py:59-62 | Whether an edge is a bridge does not depend on the order of the lists. |
| Grafo.NaiveAgreesWithTarjan | main.py:52-92 | On a connected graph a pair is in the naive list exactly when it, or its reverse, is in Tarjan's list. |
| Grafo.Graph.TarjanBridges | main.py:65-92 | Every pair returned is an edge and a bridge. Every bridge is returned in one orientation, never both. No vertex is the lower end of two returned pairs, so no pair is returned twice. Afterwards the clock equals the number of vertices. |
| Grafo.Graph.SearchRoots | main.py:88-90 | At the end of the outer loop every vertex is discovered. The clock is n. `TD` holds n distinct times in 1..n, with `low[z] <= TD[z]`. (a, b) is in the list exactly when `pai[b] == a` and `low[b] > TD[a]`, and no vertex is the lower end of two entries. |
| Grafo.Graph.BridgeSearch | main.py:75-86 | A call on an undiscovered v discovers v at the next tick. It returns with the search invariant kept, no vertex left half-done, and the stack as on entry. Low values of vertices discovered before the call are unchanged. The list has gained exactly the tree bridges whose child was discovered after v during the call (the tree bridges below v; the edge from v's parent to v is left to the caller), and it still has no vertex as the lower end of two entries. |
| Grafo.Graph.TreeEdge | main.py:79-84 | For a neighbour w not yet discovered: sets `pai[w] = v`, recurses, lowers `low[v]` to `low[w]` and records (v, w) when `low[w] > TD[v]`. Afterwards the scan invariant of v holds with w scanned, and no vertex is the lower end of two entries of the list. |
| DfsTree.InitInv | main.py:69-73 | The initial arrays (all times 0, no parents, clock 0) satisfy the search invariant, whatever the initial low values are. |
| DfsTree.Discover | main.py:76-77 | Ticking the clock and setting `TD[v] = low[v] = tempo` keeps the invariant and opens v's window of discovery times. |
| DfsTree.UndiscoveredLess | main.py:79-81 | Discovering a vertex lowers the number of undiscovered vertices, so the recursion ends. |
| Scan.Min | main.py:82 | `min` of two numbers is at most each of them and equal to one of them. |
| Scan.ScanStart | main.py:76-78 | Entering the call satisfies the scan invariant with no neighbour scanned yet. |
| Scan.ScanParentEdge | main.py:85 | Skipping the neighbour that is v's parent keeps the scan invariant. |
| Scan.ScanBackEdge | main.py:85-86 | For any other discovered neighbour w, `low[v] = min(low[v], TD[w])` keeps the scan invariant. |
| Scan.ScanChild | main.py:81-82 | Back from the recursive call on w, `low[v] = min(low[v], low[w])` keeps the scan invariant. |
| Scan.ScanFinish | main.py:78-86 | After the last neighbour, v finishes at the current time and the call returns with the invariant kept. |
| Search.ScannedStart | main.py:76-77 | A call starts with nothing scanned and nothing yet recorded. |
| Search.ScannedParent | main.py:85 | The parent edge adds nothing to the low value or the list. |
| Search.ScannedBack | main.py:85-86 | A back edge lowers `low[v]` and records nothing. |
| Search.ScannedDescend | main.py:79-81 | An undiscovered neighbour may be called on with v as its parent, and the call has fewer undiscovered vertices, so the recursion ends. |
| Search.ScannedChild | main.py:81-84 | Back from the call on w, the list holds what it held plus the bridges found below w, plus (v, w) exactly when `low[w] > TD[v]`. |
| Search.ScannedFinish | main.py:78-86 | When the scan is over, the call's postcondition holds. |
| Search.ChildrenOnceAppend | main.py:83-84 | When (v, w) is appended, no entry yet has w as its lower end: w was undiscovered when its call began, and every pair that call appended has a lower end discovered after w. |
| Search.RootedInit | main.py:69-73 | Before the outer loop the invariant holds and the empty list records every bridge found so far. |
| Search.RootedReturn | main.py:88-90 | A root call keeps the outer-loop invariant and discovers its vertex. Earlier discoveries stay. |
| Search.RootedDone | main.py:88-92 | When every vertex is discovered, the search is over, the clock equals n, and the list is exactly the tree edges (a, b) with `low[b] > TD[a]`. |
| LowLink.RecordChild | main.py:83-84 | The test `low[w] > TD[v]` adds exactly the tree bridge (v, w) to those found below w. |
| LowLink.RecordRoot | main.py:88-90 | A root call extends the record of tree bridges to the vertices it discovered. |
| LowLink.EdgeOrdered | main.py:79-86 | For an edge u-v where u was discovered first: u-v is a bridge exactly when u is v's parent and `low[v] > TD[u]`. |
| LowLink.WindowClosed | main.py:79-86 | Below a tree edge with `low[v] > TD[u]`, the vertices in v's window have no edge leaving the window except u-v. |
| LowLink.TarjanCorrect | main.py:79-86 | Once the search is over, an edge is a bridge exactly when one end is the tree parent of the other and the child's low value exceeds the parent's time. |
| LowLink.TarjanResult | main.py:92 | The final list holds only bridges, every bridge in one orientation, and never a pair together with its reverse. |
| LowLink.DoneTimes | main.py:73-90 | After the search the clock equals n, every `TD` is in 1..n, the times are pairwise distinct, and `low[z] <= TD[z]`. |
| LowLink.ClockAtMost | main.py:76 | The clock never exceeds the number of vertices: each tick discovers a different vertex. |
| LowLink.ClockAtLeast | main.py:88-90 | Once every vertex is discovered, the clock has ticked once for each, and no two have the same time. |
| Grafo.Graph.IsConnectedIgnoringIsolated | main.py:98-112 | The result is true exactly when any two vertices that still have an edge are joined by a walk. It is true when no edge is left. |
| Grafo.Next | main.py:107 | Returns the first vertex in the range satisfying the test, or nothing when none does. |
| Grafo.FleuryStart | main.py:121 | The walk starts at the first vertex of odd degree, or at 0 when every degree is even. |
| Grafo.Graph.IsBridgeEdge | main.py:114-118 | The result is true exactly when the graph without u-v fails the inner connectivity test. Afterwards v is at the back of u's list and u at the back of v's. Neighbour multisets are unchanged. |
| Grafo.AllowedSameNeighbours | main.py:125 | Whether an edge passes Fleury's rule does not depend on list order. |
| Grafo.FleuryCandidate | main.py:124-125 | The test made on a candidate, on lists that earlier tests reordered, decides the rule on the lists at the start of the scan. |
| Grafo.Graph.ChooseEdge | main.py:124-129 | If an edge is found, it is the first entry of a's list at the start of the scan that passes the rule. If none is found, no entry passes. The lists keep their neighbours. |
| Grafo.NoneAllowedAll | main.py:124-125 | Testing every listed neighbour decides whether any edge from a passes the rule. |
| Grafo.FleuryAdvance | main.py:126-128 | Taking an allowed edge removes it, leaves the lists equal (up to order) to the original minus the walk so far, and uses up two entries. |
| Grafo.FleuryExtend | main.py:126 | Appending an allowed step keeps every step of the walk allowed in the graph left before it. |
| Grafo.ChainedAppend | main.py:126-128 | Appending a step from the current vertex keeps the walk chained and its first step unchanged. |
| Grafo.FleuryStep | main.py:123-129 | One iteration that finds an allowed edge a-b keeps the walk invariant with b as the current vertex. |
| Grafo.FleuryStays | main.py:123-129 | When a scan finds nothing, the current vertex still has edges and none of them passes the rule. |
| Grafo.Graph.Fleury | main.py:94-131 | The walk starts at the first odd-degree vertex (or 0) and is chained. Each step passed the rule in the graph left by the steps before it. The lists are the original minus the walked edges, up to order, so each edge is used at most once. The walk ends either with no edge left at the last vertex, or stuck at a vertex none of whose edges passes the rule. |

## Left out

- `teste_desempenho` (main.py:135-161) is left out: it builds ring graphs with `gerar_grafo_simples`, counts list entries, runs Tarjan's finder and prints the counts.
- `setup.py` is not part of this model: it only packages the program.
- The weight 1 stored with every neighbour is never read. The lists hold bare vertex numbers.
- Grafo.Graph.AddEdge: requires `u != v`. A self-loop is accepted by the source but breaks the list shape that the later operations rely on.
- Grafo.Graph.AddEdge, Grafo.Graph.RemoveEdge: require `u, v < n`. The source raises `KeyError` otherwise, and the model does not reproduce the exception. Nor does it reproduce the partial update when only `v` is out of range: `adicionar_aresta` has then already appended `v` to the list of `u` (main.py:15) before main.py:16 raises, and `remover_aresta` has already rebuilt the list of `u` (main.py:22) before main.py:23 raises.
- Grafo.Graph.GenerateSimple: requires `n >= 2 || numEdges == 0`. With one vertex the source adds a self-loop, and with none it divides by zero.
- Grafo.Graph.IsConnected, Grafo.Graph.Fleury: require `n >= 1`. With no vertex, the source indexes vertex 0 and raises `IndexError` or `KeyError`.
- Grafo.Graph.IsBridgeEdge: requires `v` to be a current neighbour of `u`. Its only caller passes one. On a missing edge the source would add it.
- Grafo.Graph.Fleury: when no edge of the current vertex passes the rule, the source's `while` loop repeats the same scan forever. The model stops and reports `stuck`.
- Grafo.Graph.Fleury: the contract does not claim the walk is an Euler trail, or that it gets stuck only on graphs that have none. Those are properties of Fleury's method, not of this code, which starts at an odd vertex without checking the number of odd vertices.
- Grafo.Graph.TarjanBridges: `low` starts at `float("inf")` in the source. The model starts it at `n + 1`, a value no vertex reads before `busca_pontes` overwrites it.
- Grafo.Graph.TarjanBridges: `TD`, `low` and `pai` are local lists in the source and are not returned. Their final contents are stated by Grafo.Graph.SearchRoots, which the source does not expose.
- `pai` holds `None` for no parent. The model uses `-1`.
- Python's recursion limit, which a deep search could hit, is not modelled.
- Both Python `for` loops iterate over the list they read on entry, even when the body rebinds that vertex's list. The model scans a copy taken on entry, the same way.
