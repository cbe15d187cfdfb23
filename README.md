# Dijkstra: heap-based shortest distances, modelled in Dafny

The repository's core is one Java class, `Dijkstra`, together with the entry
type its heap holds, `DijkstraNode`. `Dijkstra` keeps a graph on `N` vertices
in fixed-size arrays. Row `v` of `edges` and `weights` holds `v`'s
neighbours and edge weights. `inds[v]` counts the cells in use. Every
unused cell of `edges` holds the sentinel `-1`, and unused cells of `weights`
stay 0.

The queries rely on a hand-written indexed binary min-heap. `pq[1..len]`
holds (vertex, distance) entries, and `locs[v]` gives the slot of vertex `v`,
or `-1` once `v` has been extracted. The operations are named the other way
round from the usual convention:
- `downHeap` lowers a key and sifts the entry up;
- `upHeap` sifts an entry down;
- `dqMin` removes the minimum.

On top of the heap:
- `shortestDist(a, b)` runs Dijkstra's algorithm from `a` until `b` leaves the heap;
- `allDistancesFromOneHeap(a)` runs all `N` extractions;
- `allDistances()` builds the all-pairs matrix a row at a time and mirrors the lower triangle.

The model has these modules:
- `Distances` (dist.dfy): distances as exact integers, with an absorbing `Inf` standing for `Double.MAX_VALUE`.
- `Nodes` (node.dfy): `DijkstraNode` as a class with mutable `index` and `distance` fields, and its `compareTo` with Java's `int` wrap-around and `(int)` cast written out.
- `Walks` (walks.dfy): the graph as a value, walks, the meaning of "shortest distance", and the effect of `addEdge`.
- `Heaps` (heap.dfy):
  - the heap and its location table as values: heap order, location table, contents;
  - the lemmas behind each sift step.
- `Search` (search.dfy): the invariant of the search, and why a vertex's key is its shortest distance when it leaves the heap.
- `ShortestPaths` (dijkstra.dfy): class `Dijkstra`. Its arrays are in-place arrays and its methods have loops. Each method is proved against the value-level definitions above.
- `Sample` (sample.dfy):
  - the seven-vertex graph of the repository's test, built with the same thirteen `addEdge` calls;
  - a proof that the test's expected distance table is the table of shortest distances of that graph.

A heap entry is an immutable `Entry(index, distance)` value, and a swap
exchanges two array cells. The Java code instead swaps the fields of two
`DijkstraNode` objects, which has the same observable effect.

In `dqMin`, the Java code makes slots `1` and `len + 1` share one node
object, and it does not update the moved vertex's location. That location
stays at the old slot unless a swap in `upHeap` rewrites it. The model
records slot `1` for that vertex instead; see the comment in
`ShortestPaths.Dijkstra.DqMin`.

## Model

| member | source | states |
|---|---|---|
| Distances.Plus | src/Dijkstra.java:123 | the estimate through an edge is never below the estimate it starts from |
| Distances.PlusAbsorbs | src/Dijkstra.java:248 | `Double.MAX_VALUE` plus a weight is `Double.MAX_VALUE` again, and only then is the sum `Inf`; a finite estimate grows by exactly the weight |
| Distances.Min | src/Dijkstra.java:240 | `Math.min` of two estimates: the result is one of them and at most both |
| Nodes.Wrap32 | src/DijkstraNode.java:51 | `int` subtraction yields the `int` congruent to the exact difference modulo 2^32, so the exact difference when that fits |
| Nodes.Clamp32 | src/DijkstraNode.java:52 | the `(int)` cast yields an `int` with the sign of its argument: exact when the argument fits, `INT_MIN` below the range and `INT_MAX` above it |
| Nodes.Compare | src/DijkstraNode.java:48-54 | `compareTo` on two node values always yields a Java `int`; its order properties are the lemmas below |
| Nodes.CompareReflexive | src/DijkstraNode.java:48-54 | `x.compareTo(x) == 0` |
| Nodes.CompareTiesByIndex | src/DijkstraNode.java:50-51 | with equal distances and non-negative indices the result is exactly `index - other.index` |
| Nodes.CompareFollowsDistance | src/DijkstraNode.java:52 | with different distances, the result is negative iff this distance is smaller, and positive iff the other is smaller |
| Nodes.CompareAntisymmetric | src/DijkstraNode.java:48-54 | for vertex indices, `x.compareTo(y)` and `y.compareTo(x)` have opposite signs |
| Nodes.CompareZeroIffEqual | src/DijkstraNode.java:39-54 | the result is 0 exactly when the two nodes have the same index and distance, as the doc comment promises |
| Nodes.DijkstraNode.constructor | src/DijkstraNode.java:25-28 | the new node holds exactly the given index and distance |
| Nodes.DijkstraNode.Copy | src/DijkstraNode.java:30-37 | the copy gets `orig`'s index and a distance equal to that index, so it equals `orig` only when `orig`'s distance happened to be its index |
| Nodes.DijkstraNode.GetIndex | src/DijkstraNode.java:69-71 | returns the index of the node's current value |
| Nodes.DijkstraNode.SetIndex | src/DijkstraNode.java:69-79 | after `setIndex`, `getIndex` returns the new index and the distance is unchanged |
| Nodes.DijkstraNode.GetDistance | src/DijkstraNode.java:85-87 | returns the distance of the node's current value |
| Nodes.DijkstraNode.SetDistance | src/DijkstraNode.java:85-95 | after `setDistance`, `getDistance` returns the new distance and the index is unchanged |
| Nodes.DijkstraNode.CompareTo | src/DijkstraNode.java:48-54 | on two node objects: a node compares 0 with itself, and 0 means equal index and distance |
| Walks.WalkSnoc | src/Dijkstra.java:248-250 | a walk to `u` followed by an edge out of `u` is a walk to the neighbour, weighing that much more |
| Walks.ShortestToSelf | src/Dijkstra.java:98-99 | the shortest distance from a vertex to itself is 0 |
| Walks.ShortestUnique | src/Dijkstra.java:84-130 | there is one shortest distance per pair; so `shortestDist(a, b)` and `allDistancesFromOneHeap(a)[b]` agree |
| Walks.FeasibleBoundsWalk | src/DijkstraTest.java:17-23 | a potential that no edge decreases by more than its weight bounds the weight of every walk |
| Walks.CertifiedShortest | src/DijkstraTest.java:17-23 | a walk whose weight meets such a potential has the shortest distance |
| Walks.TableGrows | src/Dijkstra.java:142-147 | a new row made of shortest distances, with the cells left of the diagonal copied from column `i` of the rows above, extends the all-pairs table |
| Walks.TableComplete | src/Dijkstra.java:139-149 | the finished matrix is symmetric with a zero diagonal, holds shortest distances on and right of the diagonal, and everywhere if the graph is undirected |
| Walks.AddArc | src/Dijkstra.java:66-67 | the graph with `(b, d)` appended to row `a`, every other row unchanged |
| Walks.AddEdge | src/Dijkstra.java:64-73 | `addEdge` on the graph as a value: `(b, d)` appended to row `a` and, if undirected, `(a, d)` to row `b` (both to row `a` when `a == b`); no other row changes |
| Walks.AddArcKeepsEdges | src/Dijkstra.java:66-67 | appending to a row keeps every edge already in the graph |
| Walks.AddUndirectedKeepsUndirected | src/Dijkstra.java:68-71 | an undirected `addEdge` keeps a graph undirected: every edge has its reverse with the same weight |
| Walks.ReverseWalk | src/Dijkstra.java:144-146 | in an undirected graph every walk has a reverse walk of the same weight |
| Walks.UndirectedShortestSymmetric | src/Dijkstra.java:144-146 | in an undirected graph the shortest distance from `s` to `t` is that from `t` to `s`, which is what mirroring the lower triangle relies on |
| Heaps.Swap | src/Dijkstra.java:275-283 | the exchange of two slots: each gets the other's entry, and no other slot changes |
| Heaps.RootIsMin | src/Dijkstra.java:330 | in heap order, slot 1 is at most every live slot |
| Heaps.RootIsMinOfContents | src/Dijkstra.java:328-336 | the root's vertex is in the heap with the root's key, and that key is at most every key in the heap |
| Heaps.LiveIffLocated | src/Dijkstra.java:245-246 | a vertex is in the heap exactly when its location is at least 1, and its key is the entry at that location |
| Heaps.SwapKeepsLocated | src/Dijkstra.java:307-315 | swapping two live slots and updating both locations keeps the location table and the contents |
| Heaps.SetKeyKeepsLocated | src/Dijkstra.java:269-270 | overwriting a live vertex's key changes the contents at that vertex only |
| Heaps.SetKeyOrderedAbove | src/Dijkstra.java:269-272 | lowering a key breaks heap order at most between that slot and its parent |
| Heaps.MoveLastKeepsLocated | src/Dijkstra.java:330-333 | moving the last entry to the root and shrinking the heap removes exactly the root's vertex from the contents, and breaks the order at most below the root |
| Heaps.SmallerChildOf | src/Dijkstra.java:302-304 | the child chosen is one of the two children of `i`, inside the heap, and at most both of them |
| Heaps.SiftDownStep | src/Dijkstra.java:301-317 | swapping a hole with a smaller child that is at most the hole moves the hole down one level |
| Heaps.SinkStep | src/Dijkstra.java:305-317 | the same step together with the locations: table and contents are kept |
| Heaps.SinkStop | src/Dijkstra.java:305-306 | the sift-down may stop once the hole is strictly below its smaller child: the order is restored |
| Heaps.SiftDownDone | src/Dijkstra.java:301 | a hole without children leaves the order restored |
| Heaps.SiftUpStep | src/Dijkstra.java:272-285 | swapping an entry with a strictly larger parent moves the break in the order up one level |
| Heaps.RiseStep | src/Dijkstra.java:272-285 | the same step together with the locations: table and contents are kept |
| Heaps.SiftUpDone | src/Dijkstra.java:272 | the sift-up may stop at the root or once the parent is at most the entry: the order is restored |
| Heaps.OnPathSelf | src/Dijkstra.java:269 | the starting slot of `downHeap` is on its path to the root |
| Heaps.OnPathUp | src/Dijkstra.java:285 | `ind = ind / 2` stays on the path to the root |
| Heaps.InitialSlot | src/Dijkstra.java:100-107 | the setup loop's slot for vertex `v`: slot 1 for the source, a slot in `2..v+2` for every other vertex, and the setup's placement is undone by `InitialVertex`, so no two vertices share a slot |
| Heaps.InitialIsHeap | src/Dijkstra.java:96-108 | the setup loop's placement is a heap of all `N` vertices, with the source at 0 and every other vertex at `Double.MAX_VALUE` |
| Search.InitialInvariant | src/Dijkstra.java:214-235 | the search invariant holds before the first extraction |
| Search.LowerBound | src/Dijkstra.java:238-253 | once every edge out of an extracted vertex is relaxed, every walk from an extracted vertex into the heap costs at least the minimum key |
| Search.ExtractStep | src/Dijkstra.java:239-240 | extracting a vertex of minimum key and recording that key as its distance keeps the invariant |
| Search.RelaxStep | src/Dijkstra.java:243-251 | relaxing one edge of the vertex just extracted keeps the invariant, with the witness walk extended |
| Search.RelaxKey | src/Dijkstra.java:243-251 | relaxing edge `i` of `u` on the heap contents: the neighbour's key, if it is still in the heap, becomes the smaller of its key and the distance through `u`; nothing else changes |
| Search.RelaxFromRelaxes | src/Dijkstra.java:242-252 | `Search.RelaxFrom`, the heap contents after relaxing edges `i` to `n - 1` of `u` in order, keeps the same vertices in the heap, raises no key, and leaves every one of those edges into the heap relaxed |
| Search.RelaxFromInvariant | src/Dijkstra.java:242-252 | relaxing all the remaining edges of the vertex just extracted keeps the invariant |
| Search.FinishRelax | src/Dijkstra.java:238-253 | after the inner loop, every edge out of every extracted vertex is relaxed |
| Search.ExtractIsShortest | src/Dijkstra.java:112-114 | the key of a vertex of minimum key is its shortest distance from the source |
| Search.DoneIsShortest | src/Dijkstra.java:238-255 | the recorded distance of every extracted vertex is its shortest distance from the source |
| ShortestPaths.Dijkstra.Row | src/Dijkstra.java:21-25 | the first `k` cells of row `v`, as edges |
| ShortestPaths.Dijkstra.Rows | src/Dijkstra.java:21-25 | the used cells of the first `n` rows, each row `inds[v]` long |
| ShortestPaths.Dijkstra.Adjacency | src/Dijkstra.java:15-25 | the graph the arrays hold: row `v` has `inds[v]` edges, each a neighbour inside the graph |
| ShortestPaths.Dijkstra.constructor | src/Dijkstra.java:40-53 | an empty graph on `n` vertices: every cell is `-1` and every row is empty |
| ShortestPaths.Dijkstra.AppendArc | src/Dijkstra.java:66-67 | the first free cell of row `v` gets `(w, d)`, `inds[v]` goes up by one, and no other cell or count changes |
| ShortestPaths.Dijkstra.AddEdge | src/Dijkstra.java:64-73 | `(b, d)` goes to row `a` at the old `inds[a]` and, if undirected, `(a, d)` to row `b` at its first free cell; those counts go up, nothing else changes, and the graph is that of `Walks.AddEdge` |
| ShortestPaths.Dijkstra.SwapSlots | src/Dijkstra.java:275-283 | two slots exchange entries, and each moved vertex is located at its new slot |
| ShortestPaths.Dijkstra.RiseOnce | src/Dijkstra.java:273-285 | one round of `downHeap` moves the carried entry to the parent slot, keeping table and contents, and changes only those two slots |
| ShortestPaths.Dijkstra.DownHeap | src/Dijkstra.java:267-288 | `downHeap(i, d)` with `d` at most the current key: a heap again, whose contents hold `d` for `i` and otherwise are unchanged, and only slots on the path from `i`'s slot to the root change |
| ShortestPaths.Dijkstra.SinkOnce | src/Dijkstra.java:302-317 | one round of `upHeap`: it stops exactly when the entry is strictly below its smaller child (left on a tie), and leaves `pq` and `locs` unchanged with the order restored; otherwise it exchanges the entry with that child, relocates both vertices and moves to the child's slot, so it still swaps on a tie; table and contents are kept |
| ShortestPaths.Dijkstra.UpHeap | src/Dijkstra.java:297-320 | from an order broken at most below slot `i`: a heap again with the same contents |
| ShortestPaths.Dijkstra.DqMin | src/Dijkstra.java:328-336 | returns the old root, an entry of the heap whose key is at most every key; `len` drops by one, the vertex's location becomes `-1`, and the rest is a heap holding the old contents without that vertex |
| ShortestPaths.Dijkstra.NewDists | src/Dijkstra.java:87-90 | a fresh array of `N` estimates, all `Double.MAX_VALUE` |
| ShortestPaths.Dijkstra.NewHeap | src/Dijkstra.java:94-108 | a fresh heap of all `N` vertices with a location table: the source at 0, everyone else at `Double.MAX_VALUE` |
| ShortestPaths.Dijkstra.RelaxEdge | src/Dijkstra.java:243-251 | one edge of `u`: an extracted neighbour is skipped, otherwise its key is lowered to the distance through `u` when that is strictly smaller; the heap stays a heap |
| ShortestPaths.Dijkstra.RelaxEdges | src/Dijkstra.java:242-252 | the scan stops at the first `-1` cell and leaves a heap whose contents are those with all of `u`'s edges relaxed in order |
| ShortestPaths.Dijkstra.Settle | src/Dijkstra.java:240-252 | after an extraction, recording the distance and relaxing the edges keeps the search invariant and removes exactly the extracted vertex |
| ShortestPaths.Dijkstra.VisitUnlessTarget | src/Dijkstra.java:112-126 | one round of `shortestDist`: the root is removed and, unless it is `b`, settled, keeping the invariant with `b` still in the heap |
| ShortestPaths.Dijkstra.ShortestDist | src/Dijkstra.java:84-130 | the result is the shortest distance from `a` to `b` (`Double.MAX_VALUE` when there is no walk), and 0 when `a == b` |
| ShortestPaths.Dijkstra.Visit | src/Dijkstra.java:239-252 | one round of `allDistancesFromOneHeap` removes one vertex and keeps the search invariant |
| ShortestPaths.Dijkstra.AllDistancesFromOneHeap | src/Dijkstra.java:211-257 | a fresh array whose every entry `v` is the shortest distance from `a` to `v` |
| ShortestPaths.Dijkstra.CopyColumn | src/Dijkstra.java:144-146 | the cells of the row left of the diagonal take column `i` of the rows above; the rest is unchanged |
| ShortestPaths.Dijkstra.NextRow | src/Dijkstra.java:143-146 | row `i` is added to the all-pairs table, and the rows above are untouched |
| ShortestPaths.Dijkstra.AllDistances | src/Dijkstra.java:139-149 | `ans[i][j] == ans[j][i]`, `ans[i][i] == 0`, shortest distances on and right of the diagonal, and everywhere for an undirected graph |
| Sample.BuildSample | src/DijkstraTest.java:27-44 | the test's thirteen `addEdge` calls on a seven-vertex graph produce exactly the listed rows |
| Sample.FeasibleFrom0 | src/DijkstraTest.java:17 | row 0 of the expected table is a lower-bound certificate for source 0 |
| Sample.ShortestFrom0 | src/DijkstraTest.java:17 | row 0 of the expected table holds the shortest distances from vertex 0 |
| Sample.FeasibleFrom1 | src/DijkstraTest.java:18 | the same certificate for row 1 |
| Sample.ShortestFrom1 | src/DijkstraTest.java:18 | row 1 holds the shortest distances from vertex 1 |
| Sample.FeasibleFrom2 | src/DijkstraTest.java:19 | the same certificate for row 2 |
| Sample.ShortestFrom2 | src/DijkstraTest.java:19 | row 2 holds the shortest distances from vertex 2 |
| Sample.FeasibleFrom3 | src/DijkstraTest.java:20 | the same certificate for row 3 |
| Sample.ShortestFrom3 | src/DijkstraTest.java:20 | row 3 holds the shortest distances from vertex 3 |
| Sample.FeasibleFrom4 | src/DijkstraTest.java:21 | the same certificate for row 4 |
| Sample.ShortestFrom4 | src/DijkstraTest.java:21 | row 4 holds the shortest distances from vertex 4 |
| Sample.FeasibleFrom5 | src/DijkstraTest.java:22 | the same certificate for row 5 |
| Sample.ShortestFrom5 | src/DijkstraTest.java:22 | row 5 holds the shortest distances from vertex 5 |
| Sample.FeasibleFrom6 | src/DijkstraTest.java:23 | the same certificate for row 6 |
| Sample.ShortestFrom6 | src/DijkstraTest.java:23 | row 6 holds the shortest distances from vertex 6 |
| Sample.SampleDistances | src/DijkstraTest.java:17-23 | every entry of the expected table is the shortest distance between its row and column vertices |
| Sample.SampleUndirected | src/DijkstraTest.java:30-44 | every `addEdge` call of the test is undirected, so the graph it builds is undirected |
| Sample.SampleTable | src/DijkstraTest.java:17-58 | on the test's graph, any shortest distance is the table entry; so `shortestDist(s, t)` and `allDistancesFromOneHeap(s)[t]`, whose contracts give shortest distances, yield the table printed by the test, and so does `allDistances()` by its contract for undirected graphs with `Sample.SampleUndirected` |

## Left out

- `allDistancesFromOne` (src/Dijkstra.java:158-202). It is a separate query built on `java.util.PriorityQueue`, which is library code outside this model. Its order comes from the truncating `compareTo`, and it has an ad-hoc `count` cutoff.
- Floating point. Weights are natural numbers and distances are exact integers or `Inf`. `Double.MAX_VALUE + w == Double.MAX_VALUE` is modelled by `Inf` absorbing every weight, and no finite sum's rounding is modelled.
- `toString` (src/DijkstraNode.java:61-63). It is string formatting only.
- The printing and the `System.nanoTime` timing loops of src/DijkstraTest.java. They are console and clock I/O. Only the test's graph and its expected table are used.
- Java object identity. The heap holds entry values, not shared `DijkstraNode` references. So the field-by-field swaps of lines 275-283 and 307-315 are whole-cell exchanges. The aliasing of `pq[1] = pq[len--]` in `dqMin` is replaced by a copy with the moved vertex relocated to slot 1.
- Out-of-range arguments. The methods require vertex indices inside `0..N-1`, and `ShortestPaths.Dijkstra.AddEdge` requires a free cell in each row it writes. A full row, or an `a` outside the range, makes the Java code throw an `ArrayIndexOutOfBoundsException`. A directed `addEdge(a, b, d, false)` with `b` outside the range is stored without any exception. A negative `b` such as `-1` then acts as the sentinel, and both query scans silently skip every later edge of row `a`. With `b >= N` an exception comes only later, from `locs[neighbor]`, when a query scans that cell. The model excludes these calls, because its graph holds only edges between vertices. The constructor takes a natural `n`; the Java constructor throws `NegativeArraySizeException` for `n < 0`.
- The class's `int` counters (`N`, `len`, `inds`, loop indices) are unbounded naturals. Java's 32-bit wrap-around is modelled only where it changes a result, in `compareTo`.
- ShortestPaths.Dijkstra.ShortestDist: the model's outer loop runs until `b` is extracted instead of counting to `N`. It omits the final `return dists[b]`, which no run can reach because `b` is among the `N` vertices extracted in `N` rounds.
- ShortestPaths.Dijkstra.DqMin: the remaining entries are stated as the map from live vertex to key, not as a multiset of entries. The location table puts each vertex in the heap at most once, so the two say the same.
- ShortestPaths.Dijkstra.AllDistancesFromOneHeap: does not export as a contract that each vertex is extracted exactly once. Each call of `DqMin` removes one vertex from the contents, and `N` rounds on `N` vertices empty the heap. The proof relies on this through the loop invariant `len == N - v`, but the method does not state it.
- The sample graph is checked on values: `Sample.BuildSample` applies the value-level `addEdge` that `ShortestPaths.Dijkstra.AddEdge`'s contract yields. There is no method that runs the thirteen calls on a `Dijkstra` object.
