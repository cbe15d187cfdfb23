/**
 * Class `Dijkstra`: an adjacency store over fixed-size arrays, an indexed
 * binary min-heap kept in a `pq` array and a location table `locs`, and the
 * heap-driven shortest-distance queries.
 */
module ShortestPaths {
  import opened Distances
  import opened Nodes
  import opened Walks
  import opened Heaps
  import Search

  class Dijkstra {
    /** The number of vertices. */
    const N: nat
    /** `edges[v, j]` is the `j`-th neighbour of `v`; unused cells hold -1. */
    const edges: array2<int>
    /** `weights[v, j]` is the weight of the edge to `edges[v, j]`. */
    const weights: array2<nat>
    /** `inds[v]` is the number of cells of row `v` in use. */
    const inds: array<nat>
    /** The number of entries left in the heap of the running query. */
    var len: nat

    /**
     * Row `v` uses its first `inds[v]` cells, each naming a vertex; every
     * later cell holds the sentinel -1 that stops an adjacency scan.
     */
    ghost predicate Valid()
      reads edges, weights, inds
    {
      && edges.Length0 == N && edges.Length1 == N
      && weights.Length0 == N && weights.Length1 == N
      && inds.Length == N
      && (forall v :: 0 <= v < N ==> inds[v] <= N)
      && (forall v, j :: 0 <= v < N && 0 <= j < N ==>
            if j < inds[v] then 0 <= edges[v, j] < N else edges[v, j] == -1)
    }

    /** The first `k` edges of row `v`. */
    function Row(v: int, k: int): (r: seq<Edge>)
      requires Valid() && 0 <= v < N && 0 <= k <= inds[v]
      reads edges, weights, inds
      ensures |r| == k
      ensures forall j :: 0 <= j < k ==> r[j] == Edge(edges[v, j], weights[v, j])
      decreases k
    {
      if k == 0 then [] else Row(v, k - 1) + [Edge(edges[v, k - 1], weights[v, k - 1])]
    }

    /** The rows of the first `n` vertices. */
    function Rows(n: int): (g: Graph)
      requires Valid() && 0 <= n <= N
      reads edges, weights, inds
      ensures |g| == n
      ensures forall v :: 0 <= v < n ==> |g[v]| == inds[v]
      ensures forall v, j :: 0 <= v < n && 0 <= j < inds[v] ==> g[v][j] == Edge(edges[v, j], weights[v, j])
      decreases n
    {
      if n == 0 then [] else Rows(n - 1) + [Row(n - 1, inds[n - 1])]
    }

    /** The graph the arrays hold: row `v` lists the used cells of row `v`. */
    function Adjacency(): (g: Graph)
      requires Valid()
      reads edges, weights, inds
      ensures |g| == N && WellFormed(g)
      ensures forall v :: 0 <= v < N ==> |g[v]| == inds[v]
      ensures forall v, j :: 0 <= v < N && 0 <= j < inds[v] ==> g[v][j] == Edge(edges[v, j], weights[v, j])
    {
      Rows(N)
    }

    /** The graph is a function of the three arrays alone. */
    twostate lemma GraphUnchanged()
      requires old(Valid()) && unchanged(edges, weights, inds)
      ensures Valid() && Adjacency() == old(Adjacency())
    {
    }

    /** An empty graph on `n` vertices: every cell is -1, every count 0. */
    constructor (n: nat)
      ensures N == n && len == n && Valid()
      ensures fresh(edges) && fresh(weights) && fresh(inds)
      ensures |Adjacency()| == n && forall v :: 0 <= v < n ==> Adjacency()[v] == []
    {
      var e := new int[n, n];
      for i := 0 to n
        invariant forall r, c :: 0 <= r < i && 0 <= c < n ==> e[r, c] == -1
      {
        for j := 0 to n
          invariant forall r, c :: 0 <= r < i && 0 <= c < n ==> e[r, c] == -1
          invariant forall c :: 0 <= c < j ==> e[i, c] == -1
        {
          e[i, j] := -1;
        }
      }
      N := n;
      len := n;
      edges := e;
      weights := new nat[n, n];
      inds := new nat[n](_ => 0);
    }

    /**
     * One half of `addEdge`: `(w, d)` goes into the first free cell of row
     * `v`, and the row's count goes up by one.
     */
    method AppendArc(v: int, w: int, d: nat)
      requires Valid() && 0 <= v < N && 0 <= w < N && inds[v] < N
      modifies edges, weights, inds
      ensures Valid()
      ensures Adjacency() == AddArc(old(Adjacency()), v, w, d)
      ensures edges[v, old(inds[v])] == w && weights[v, old(inds[v])] == d
      ensures inds[..] == old(inds[..])[v := old(inds[v]) + 1]
      ensures forall r, c :: 0 <= r < N && 0 <= c < N && (r, c) != (v, old(inds[v])) ==>
                edges[r, c] == old(edges[r, c]) && weights[r, c] == old(weights[r, c])
    {
      ghost var g := Adjacency();
      edges[v, inds[v]] := w;
      weights[v, inds[v]] := d;
      inds[v] := inds[v] + 1;
      assert Valid();
      ghost var g1 := Adjacency();
      forall r | 0 <= r < N
        ensures g1[r] == AddArc(g, v, w, d)[r]
      {
        if r == v {
          assert g1[v] == g[v] + [Edge(w, d)];
        } else {
          assert g1[r] == g[r];
        }
      }
    }

    /**
     * `addEdge`: `(b, d)` goes into the first free cell of row `a` and, for
     * an undirected edge, `(a, d)` into the first free cell of row `b`.
     * The arrays have `N` cells per row, so a full row cannot take another edge.
     */
    method AddEdge(a: int, b: int, d: nat, undirected: bool)
      requires Valid() && 0 <= a < N && 0 <= b < N
      requires inds[a] < N
      requires undirected ==> if a == b then inds[a] + 1 < N else inds[b] < N
      modifies edges, weights, inds
      ensures Valid()
      ensures Adjacency() == Walks.AddEdge(old(Adjacency()), a, b, d, undirected)
      ensures edges[a, old(inds[a])] == b && weights[a, old(inds[a])] == d
      ensures undirected ==>
        var k := if a == b then old(inds[a]) + 1 else old(inds[b]);
        edges[b, k] == a && weights[b, k] == d
      ensures inds[..] ==
        if !undirected then old(inds[..])[a := old(inds[a]) + 1]
        else if a == b then old(inds[..])[a := old(inds[a]) + 2]
        else old(inds[..])[a := old(inds[a]) + 1][b := old(inds[b]) + 1]
      ensures var k := if a == b then old(inds[a]) + 1 else old(inds[b]);
        forall v, j ::
          (0 <= v < N && 0 <= j < N && (v, j) != (a, old(inds[a])) && (undirected ==> (v, j) != (b, k))) ==>
          edges[v, j] == old(edges[v, j]) && weights[v, j] == old(weights[v, j])
    {
      AppendArc(a, b, d);
      if undirected {
        AppendArc(b, a, d);
      }
    }

    // -------------------------------------------------------------------
    // The heap primitives

    /**
     * The exchange both sift loops perform: the entries at slots `i` and `j`
     * trade places, and each one's vertex is located at its new slot.
     */
    method SwapSlots(pq: array<Entry>, locs: array<int>, i: int, j: int)
      requires 0 <= i < pq.Length && 0 <= j < pq.Length
      requires 0 <= pq[i].index < locs.Length && 0 <= pq[j].index < locs.Length
      modifies pq, locs
      ensures pq[..] == Swap(old(pq[..]), i, j)
      ensures locs[..] == old(locs[..])[old(pq[i].index) := j][old(pq[j].index) := i]
    {
      var x, y := pq[i], pq[j];
      pq[i], pq[j] := y, x;
      locs[x.index] := j;
      locs[y.index] := i;
    }

    /**
     * One round of `downHeap`: the carried entry `e` at slot `i` is below its
     * parent's key, so the two swap. Both slots lie on the path from the
     * starting slot `p0` to the root.
     */
    method RiseOnce(pq: array<Entry>, locs: array<int>, i: int, ghost e: Entry, ghost c0: map<int, Dist>, ghost p0: int)
      requires Rising(pq[..], locs[..], len, i, e, c0) && i > 1 && OnPath(i, p0)
      requires Below(e.distance, pq[i / 2].distance)
      modifies pq, locs
      ensures Rising(pq[..], locs[..], len, i / 2, e, c0) && OnPath(i / 2, p0)
      ensures forall k :: 0 <= k < pq.Length && k != i && k != i / 2 ==> pq[k] == old(pq[k])
    {
      ghost var q, l := pq[..], locs[..];
      RiseStep(q, l, len, i, e, c0);
      OnPathUp(i, p0);
      SwapSlots(pq, locs, i, i / 2);
    }

    /**
     * `downHeap`: give vertex `i` the key `d`, no larger than its current
     * key, and move its entry up towards the root while its parent's key is
     * larger. Only slots on the path from `i`'s slot to the root change.
     */
    method DownHeap(pq: array<Entry>, i: int, d: Dist, locs: array<int>)
      requires IsHeap(pq[..], locs[..], len)
      requires 0 <= i < locs.Length && locs[i] >= 1
      requires AtMost(d, pq[locs[i]].distance)
      modifies pq, locs
      ensures IsHeap(pq[..], locs[..], len)
      ensures Contents(pq[..], locs[..], len) == old(Contents(pq[..], locs[..], len))[i := d]
      ensures forall k :: 0 <= k < pq.Length && !OnPath(k, old(locs[i])) ==> pq[k] == old(pq[k])
    {
      ghost var p0 := locs[i];
      ghost var c0 := Contents(pq[..], locs[..], len)[i := d];
      var ind := locs[i];
      SetKeyKeepsLocated(pq[..], locs[..], len, i, d);
      SetKeyOrderedAbove(pq[..], len, ind, Entry(i, d));
      pq[ind] := Entry(pq[ind].index, d);
      OnPathSelf(ind);
      while ind / 2 > 0 && Below(d, pq[ind / 2].distance)
        invariant Rising(pq[..], locs[..], len, ind, Entry(i, d), c0)
        invariant OnPath(ind, p0)
        invariant forall k :: 0 <= k < pq.Length && !OnPath(k, p0) ==> pq[k] == old(pq[k])
        decreases ind
      {
        RiseOnce(pq, locs, ind, Entry(i, d), c0, p0);
        ind := ind / 2;
      }
      SiftUpDone(pq[..], len, ind);
    }

    /**
     * One round of `upHeap` with the entry at slot `i`: pick the smaller
     * child, the left one on a tie, and stop if the entry is strictly below
     * it; otherwise swap the two and continue at the child's slot.
     */
    method SinkOnce(pq: array<Entry>, locs: array<int>, i: int, ghost c0: map<int, Dist>)
      returns (next: int, stop: bool)
      requires Sinking(pq[..], locs[..], len, i, c0) && 2 * i <= len
      modifies pq, locs
      ensures stop <==> old(Below(pq[i].distance, pq[SmallerChildOf(pq[..], len, i)].distance))
      ensures stop ==> next == i && pq[..] == old(pq[..]) && locs[..] == old(locs[..])
      ensures stop ==> Ordered(pq[..], len)
      ensures !stop ==> next == SmallerChildOf(old(pq[..]), len, i)
      ensures !stop ==> pq[..] == Swap(old(pq[..]), i, next)
      ensures !stop ==> locs[..] == old(locs[..])[old(pq[i].index) := next][old(pq[next].index) := i]
      ensures Sinking(pq[..], locs[..], len, next, c0)
    {
      ghost var q, l := pq[..], locs[..];
      next := i * 2;
      if next + 1 <= len && Below(pq[next + 1].distance, pq[next].distance) {
        next := next + 1;
      }
      assert next == SmallerChildOf(q, len, i);
      stop := Below(pq[i].distance, pq[next].distance);
      if stop {
        SinkStop(q, l, len, i, next, c0);
        next := i;
      } else {
        SinkStep(q, l, len, i, next, c0);
        SwapSlots(pq, locs, i, next);
      }
    }

    /**
     * `upHeap`: move the entry at slot `i` down, swapping it with its
     * smaller child until no child's key is smaller than its own. On a tie
     * with the smaller child it still swaps.
     */
    method UpHeap(pq: array<Entry>, i: int, locs: array<int>)
      requires len < pq.Length && Located(pq[..], locs[..], len)
      requires 1 <= i && OrderedBelow(pq[..], len, i)
      modifies pq, locs
      ensures IsHeap(pq[..], locs[..], len)
      ensures Contents(pq[..], locs[..], len) == old(Contents(pq[..], locs[..], len))
    {
      var ind := i;
      ghost var c0 := Contents(pq[..], locs[..], len);
      while ind * 2 <= len
        invariant Sinking(pq[..], locs[..], len, ind, c0)
        decreases len - ind
      {
        var next, stop := SinkOnce(pq, locs, ind, c0);
        if stop {
          return;
        }
        ind := next;
      }
      SiftDownDone(pq[..], len, ind);
    }

    /**
     * `dqMin`: remove and return the root, a live entry of least key; the
     * last live entry takes its place and sinks.
     */
    method DqMin(pq: array<Entry>, locs: array<int>) returns (min: Entry)
      requires IsHeap(pq[..], locs[..], len) && 1 <= len
      modifies this, pq, locs
      ensures len == old(len) - 1
      ensures min == old(pq[1])
      ensures min.index in old(Contents(pq[..], locs[..], len))
      ensures old(Contents(pq[..], locs[..], len))[min.index] == min.distance
      ensures forall v :: v in old(Contents(pq[..], locs[..], len)) ==>
                AtMost(min.distance, old(Contents(pq[..], locs[..], len))[v])
      ensures 0 <= min.index < locs.Length && locs[min.index] == -1
      ensures IsHeap(pq[..], locs[..], len)
      ensures Contents(pq[..], locs[..], len) == old(Contents(pq[..], locs[..], len)) - {min.index}
    {
      RootIsMinOfContents(pq[..], locs[..], len);
      MoveLastKeepsLocated(pq[..], locs[..], len);
      min := pq[1];
      pq[1] := pq[len];
      len := len - 1;
      // The Java code aliases slots 1 and `len + 1` here and does not update
      // the moved entry's location, which stays at its former slot unless a
      // swap of the sift-down rewrites it; it clears the location of `min`
      // after the sift-down. The model records slot 1 for the moved
      // entry and clears `min`'s location first: the sift-down writes only
      // locations of live vertices, and `min` is no longer live, so the two
      // writes commute.
      locs[pq[1].index] := 1;
      locs[min.index] := -1;
      UpHeap(pq, 1, locs);
      LiveIffLocated(pq[..], locs[..], len, min.index);
    }

    // -------------------------------------------------------------------
    // The queries

    /** Every estimate starts at `Double.MAX_VALUE`. */
    method NewDists() returns (dists: array<Dist>)
      ensures fresh(dists) && dists.Length == N
      ensures forall v :: 0 <= v < N ==> dists[v] == Inf
    {
      dists := new Dist[N];
      for i := 0 to N
        invariant forall v :: 0 <= v < i ==> dists[v] == Inf
      {
        dists[i] := Inf;
      }
    }

    /**
     * The starting heap: the source `a` at slot 1 with distance 0, every
     * other vertex `v` at slot `v + 2` (below `a`) or `v + 1` (above `a`)
     * with `Double.MAX_VALUE`.
     */
    method NewHeap(a: int) returns (pq: array<Entry>, locs: array<int>)
      requires 0 <= a < N
      ensures fresh(pq) && fresh(locs) && pq.Length == N + 1 && locs.Length == N
      ensures IsHeap(pq[..], locs[..], N) && Contents(pq[..], locs[..], N) == InitialContents(a, N)
    {
      pq := new Entry[N + 1](_ => Entry(-1, Inf));
      locs := new int[N];
      locs[a] := 1;
      pq[1] := Entry(a, Fin(0));
      for i := 0 to N
        invariant locs[a] == 1 && pq[1] == Entry(a, Fin(0))
        invariant forall v :: 0 <= v < i && v != a ==>
                    locs[v] == InitialSlot(a, v) && pq[InitialSlot(a, v)] == Entry(v, Inf)
      {
        if i != a {
          var ind := i + 1;
          if i < a {
            ind := ind + 1;
          }
          pq[ind] := Entry(i, Inf);
          locs[i] := ind;
        }
      }
      forall k | 1 <= k <= N
        ensures pq[k] == Entry(InitialVertex(a, k), if k == 1 then Fin(0) else Inf)
      {
        assert k == 1 || InitialSlot(a, InitialVertex(a, k)) == k;
      }
      InitialIsHeap(pq[..], locs[..], a, N);
    }

    /**
     * One step of the inner loop of a query: the `i`-th edge out of the just
     * extracted vertex `u`. An extracted neighbour is skipped; otherwise its
     * key is lowered when the path through `u` is shorter. The ghost
     * parameters are the graph, the estimates and the heap contents as
     * values; the new contents are those of `Search.RelaxKey`.
     */
    method RelaxEdge(pq: array<Entry>, locs: array<int>, dists: array<Dist>, u: int, i: int,
                     ghost g: Graph, ghost ds: seq<Dist>, ghost key: map<int, Dist>)
      requires 0 <= u < |g| && 0 <= i < |g[u]| && WellFormed(g)
      requires u < edges.Length0 && i < edges.Length1 && u < weights.Length0 && i < weights.Length1
      requires g[u][i] == Edge(edges[u, i], weights[u, i])
      requires dists.Length == |g| && ds == dists[..] && locs.Length == |g|
      requires IsHeap(pq[..], locs[..], len) && key == Contents(pq[..], locs[..], len)
      modifies pq, locs
      ensures IsHeap(pq[..], locs[..], len)
      ensures Contents(pq[..], locs[..], len) == Search.RelaxKey(g, ds, key, u, i)
    {
      var neighbor := edges[u, i];
      LiveIffLocated(pq[..], locs[..], len, neighbor);
      if locs[neighbor] >= 1 {
        var c := Plus(dists[u], weights[u, i]);
        if Below(c, pq[locs[neighbor]].distance) {
          DownHeap(pq, neighbor, c, locs);
        }
      }
    }

    /**
     * The inner loop of a query: relax every edge out of the just extracted
     * vertex `u`, stopping at the first unused cell of its row. The heap
     * ends up holding the contents with all of `u`'s edges relaxed in order.
     */
    method RelaxEdges(pq: array<Entry>, locs: array<int>, dists: array<Dist>, u: int,
                      ghost g: Graph, ghost ds: seq<Dist>, ghost key: map<int, Dist>)
      requires 0 <= u < N && edges.Length0 == N && edges.Length1 == N
      requires weights.Length0 == N && weights.Length1 == N
      requires |g| == N && |g[u]| <= N && WellFormed(g)
      requires forall j :: 0 <= j < N ==> (edges[u, j] >= 0 <==> j < |g[u]|)
      requires forall j :: 0 <= j < |g[u]| ==> g[u][j] == Edge(edges[u, j], weights[u, j])
      requires dists.Length == N && ds == dists[..] && locs.Length == N
      requires IsHeap(pq[..], locs[..], len) && key == Contents(pq[..], locs[..], len)
      modifies pq, locs
      ensures IsHeap(pq[..], locs[..], len)
      ensures Contents(pq[..], locs[..], len) == Search.RelaxFrom(g, ds, key, u, 0, |g[u]|)
    {
      var i := 0;
      while i < N && edges[u, i] >= 0
        invariant 0 <= i <= |g[u]|
        invariant IsHeap(pq[..], locs[..], len)
        invariant Search.RelaxFrom(g, ds, Contents(pq[..], locs[..], len), u, i, |g[u]|) == Search.RelaxFrom(g, ds, key, u, 0, |g[u]|)
        decreases N - i
      {
        RelaxEdge(pq, locs, dists, u, i, g, ds, Contents(pq[..], locs[..], len));
        i := i + 1;
      }
    }

    /**
     * The body of the outer loop of a query, after `dqMin` has removed
     * `node`: fix its estimate and relax its edges.
     */
    method Settle(pq: array<Entry>, locs: array<int>, dists: array<Dist>, node: Entry,
                  ghost a: int, ghost g: Graph, ghost ds: seq<Dist>,
                  ghost key: map<int, Dist>, ghost paths: seq<seq<Hop>>)
      returns (ghost ds': seq<Dist>, ghost key': map<int, Dist>, ghost paths': seq<seq<Hop>>)
      requires Valid() && g == Adjacency()
      requires dists.Length == N && ds == dists[..] && locs.Length == N
      requires Search.Invariant(g, a, ds, key, paths, -1, 0)
      requires node.index in key && key[node.index] == node.distance
      requires forall v :: v in key ==> AtMost(node.distance, key[v])
      requires IsHeap(pq[..], locs[..], len) && Contents(pq[..], locs[..], len) == key - {node.index}
      modifies pq, locs, dists
      ensures ds' == dists[..]
      ensures IsHeap(pq[..], locs[..], len) && key' == Contents(pq[..], locs[..], len)
      ensures key'.Keys == key.Keys - {node.index}
      ensures Search.Invariant(g, a, ds', key', paths', -1, 0)
    {
      var u := node.index;
      dists[u] := Min(dists[u], node.distance);
      ds' := dists[..];
      Search.ExtractStep(g, a, ds, key, paths, u, ds', key - {u});
      assert forall j :: 0 <= j < N ==> (edges[u, j] >= 0 <==> j < |g[u]|) by {
        assert forall j :: 0 <= j < N ==> (j < inds[u] <==> edges[u, j] >= 0);
      }
      RelaxEdges(pq, locs, dists, u, g, ds', key - {u});
      key' := Search.RelaxFrom(g, ds', key - {u}, u, 0, |g[u]|);
      paths' := Search.RelaxPathsFrom(g, ds', key - {u}, paths, u, 0, |g[u]|);
      Search.RelaxFromRelaxes(g, ds', key - {u}, u, 0, |g[u]|);
      Search.RelaxFromInvariant(g, a, ds', key - {u}, paths, u, 0, |g[u]|);
      Search.FinishRelax(g, a, ds', key', paths', u);
    }

    /**
     * One round of the outer loop of `shortestDist`: `dqMin` removes a vertex
     * of least key, and unless it is the target `b` it is settled.
     */
    method VisitUnlessTarget(pq: array<Entry>, locs: array<int>, dists: array<Dist>, b: int,
                             ghost a: int, ghost g: Graph, ghost ds: seq<Dist>,
                             ghost key: map<int, Dist>, ghost paths: seq<seq<Hop>>)
      returns (node: Entry, ghost ds': seq<Dist>, ghost key': map<int, Dist>, ghost paths': seq<seq<Hop>>)
      requires Valid() && g == Adjacency() && pq.Length == N + 1
      requires dists.Length == N && ds == dists[..] && locs.Length == N
      requires IsHeap(pq[..], locs[..], len) && key == Contents(pq[..], locs[..], len)
      requires Search.Invariant(g, a, ds, key, paths, -1, 0) && b in key
      modifies this, pq, locs, dists
      ensures len == old(len) - 1
      ensures node == old(pq[1])
      ensures node.index != b ==>
        && ds' == dists[..]
        && IsHeap(pq[..], locs[..], len) && key' == Contents(pq[..], locs[..], len)
        && Search.Invariant(g, a, ds', key', paths', -1, 0) && b in key'
    {
      ds', key', paths' := ds, key, paths;
      node := DqMin(pq, locs);
      if node.index == b {
        return;
      }
      ds', key', paths' := Settle(pq, locs, dists, node, a, g, ds, key, paths);
    }

    /**
     * `shortestDist(a, b)`: run the search from `a` until `b` leaves the
     * heap, and return its key then. The loop bound `N` of the Java code is
     * never what ends the loop, since `b` is extracted within `N` rounds, and
     * its fallback `return dists[b]` is unreachable; the model's loop runs
     * until `b` is extracted, and `len` bounds it.
     */
    method ShortestDist(a: int, b: int) returns (r: Dist)
      requires Valid() && 0 <= a < N && 0 <= b < N
      modifies this
      ensures IsShortestDist(Adjacency(), a, b, r)
      ensures a == b ==> r == Fin(0)
    {
      var dists := NewDists();
      len := N;
      var pq, locs := NewHeap(a);
      GraphUnchanged();
      ghost var g := Adjacency();
      ghost var ds := dists[..];
      ghost var key := Contents(pq[..], locs[..], len);
      ghost var paths: seq<seq<Hop>> := seq(N, _ => []);
      Search.InitialInvariant(g, a, ds, key, paths);
      while true
        invariant pq.Length == N + 1 && locs.Length == N && dists.Length == N
        invariant ds == dists[..]
        invariant IsHeap(pq[..], locs[..], len) && key == Contents(pq[..], locs[..], len)
        invariant Search.Invariant(g, a, ds, key, paths, -1, 0)
        invariant b in key
        decreases len
      {
        GraphUnchanged();
        var node;
        ghost var ds0, key0, paths0 := ds, key, paths;
        RootIsMinOfContents(pq[..], locs[..], len);
        node, ds, key, paths := VisitUnlessTarget(pq, locs, dists, b, a, g, ds, key, paths);
        if node.index == b {
          Search.ExtractIsShortest(g, a, ds0, key0, paths0, b);
          if a == b {
            ShortestToSelf(g, a, node.distance);
          }
          GraphUnchanged();
          return node.distance;
        }
      }
    }

    /** One full round of the outer loop of `allDistancesFromOneHeap`. */
    method Visit(pq: array<Entry>, locs: array<int>, dists: array<Dist>,
                 ghost a: int, ghost g: Graph, ghost ds: seq<Dist>,
                 ghost key: map<int, Dist>, ghost paths: seq<seq<Hop>>)
      returns (ghost ds': seq<Dist>, ghost key': map<int, Dist>, ghost paths': seq<seq<Hop>>)
      requires Valid() && g == Adjacency() && pq.Length == N + 1 && 1 <= len
      requires dists.Length == N && ds == dists[..] && locs.Length == N
      requires IsHeap(pq[..], locs[..], len) && key == Contents(pq[..], locs[..], len)
      requires Search.Invariant(g, a, ds, key, paths, -1, 0)
      modifies this, pq, locs, dists
      ensures len == old(len) - 1 && ds' == dists[..]
      ensures IsHeap(pq[..], locs[..], len) && key' == Contents(pq[..], locs[..], len)
      ensures Search.Invariant(g, a, ds', key', paths', -1, 0)
    {
      var node := DqMin(pq, locs);
      ds', key', paths' := Settle(pq, locs, dists, node, a, g, ds, key, paths);
    }

    /**
     * `allDistancesFromOneHeap(a)`: run the search from `a` through all `N`
     * extractions; each vertex's estimate is set when it leaves the heap.
     */
    method AllDistancesFromOneHeap(a: int) returns (dists: array<Dist>)
      requires Valid() && 0 <= a < N
      modifies this
      ensures fresh(dists) && dists.Length == N
      ensures forall v :: 0 <= v < N ==> IsShortestDist(Adjacency(), a, v, dists[v])
    {
      dists := NewDists();
      len := N;
      var pq, locs := NewHeap(a);
      GraphUnchanged();
      ghost var g := Adjacency();
      ghost var ds := dists[..];
      ghost var key := Contents(pq[..], locs[..], len);
      ghost var paths: seq<seq<Hop>> := seq(N, _ => []);
      Search.InitialInvariant(g, a, ds, key, paths);
      for v := 0 to N
        invariant len == N - v
        invariant pq.Length == N + 1 && locs.Length == N && dists.Length == N
        invariant ds == dists[..]
        invariant IsHeap(pq[..], locs[..], len) && key == Contents(pq[..], locs[..], len)
        invariant Search.Invariant(g, a, ds, key, paths, -1, 0)
      {
        GraphUnchanged();
        ds, key, paths := Visit(pq, locs, dists, a, g, ds, key, paths);
      }
      assert key == map[];
      GraphUnchanged();
      forall v | 0 <= v < N
        ensures IsShortestDist(g, a, v, dists[v])
      {
        Search.DoneIsShortest(g, a, ds, key, paths, -1, 0, v);
      }
    }

    /**
     * The inner loop of `allDistances`: the cells of `row` left of the
     * diagonal take the column `i` of the rows above.
     */
    method CopyColumn(ans: array<array<Dist>>, i: int, row: array<Dist>)
      requires 0 <= i < ans.Length && i <= row.Length
      requires forall r :: 0 <= r < i ==> ans[r] != row && i < ans[r].Length
      modifies row
      ensures forall c :: 0 <= c < row.Length ==> row[c] == if c < i then ans[c][i] else old(row[c])
    {
      for j := 0 to i
        invariant forall c :: 0 <= c < row.Length ==> row[c] == if c < j then ans[c][i] else old(row[c])
      {
        row[j] := ans[j][i];
      }
    }

    /**
     * One round of `allDistances`: row `i` is the search from `i`, with the
     * cells left of the diagonal copied from column `i` of the rows above.
     * `m` holds the rows above, as values.
     */
    method NextRow(ans: array<array<Dist>>, i: int, ghost g: Graph, ghost m: seq<seq<Dist>>)
      returns (ghost m': seq<seq<Dist>>)
      requires Valid() && g == Adjacency() && 0 <= i < N && ans.Length == N
      requires |m| == i && Table(g, m)
      requires forall r :: 0 <= r < i ==> ans[r].Length == N && ans[r][..] == m[r]
      modifies this, ans
      ensures fresh(ans[i]) && ans[i].Length == N
      ensures forall r :: 0 <= r < N && r != i ==> ans[r] == old(ans[r])
      ensures forall r :: 0 <= r < i ==> ans[r][..] == m[r]
      ensures m' == m + [ans[i][..]] && Table(g, m')
    {
      var row := AllDistancesFromOneHeap(i);
      GraphUnchanged();
      ghost var r0 := row[..];
      ans[i] := row;
      CopyColumn(ans, i, row);
      TableGrows(g, m, r0, row[..]);
      m' := m + [row[..]];
    }

    /**
     * `allDistances()`: row `i` is the search from `i`, then its entries
     * left of the diagonal are copied from column `i` of the rows above.
     * The result is symmetric with a zero diagonal; on and right of the
     * diagonal it holds shortest distances, and everywhere when the graph
     * is undirected.
     */
    method AllDistances() returns (ans: array<array<Dist>>)
      requires Valid()
      modifies this
      ensures fresh(ans) && ans.Length == N
      ensures forall i :: 0 <= i < N ==> fresh(ans[i]) && ans[i].Length == N
      ensures forall i, j :: 0 <= i < j < N ==> ans[i] != ans[j]
      ensures forall i, j :: 0 <= i < N && 0 <= j < N ==> ans[i][j] == ans[j][i]
      ensures forall i :: 0 <= i < N ==> ans[i][i] == Fin(0)
      ensures forall i, j :: 0 <= i <= j < N ==> IsShortestDist(Adjacency(), i, j, ans[i][j])
      ensures Undirected(Adjacency()) ==>
                forall i, j :: 0 <= i < N && 0 <= j < N ==> IsShortestDist(Adjacency(), i, j, ans[i][j])
    {
      ghost var g := Adjacency();
      var blank := new Dist[N];
      ans := new array<Dist>[N](_ => blank);
      // The rows filled so far, as values.
      ghost var m: seq<seq<Dist>> := [];
      for i := 0 to N
        invariant g == old(Adjacency())
        invariant |m| == i
        invariant forall r :: 0 <= r < i ==> fresh(ans[r]) && ans[r].Length == N && ans[r][..] == m[r]
        invariant forall r, s :: 0 <= r < s < i ==> ans[r] != ans[s]
        invariant Table(g, m)
      {
        GraphUnchanged();
        m := NextRow(ans, i, g, m);
      }
      GraphUnchanged();
      TableComplete(g, m);
      assert forall i, j :: 0 <= i < N && 0 <= j < N ==> ans[i][j] == m[i][j];
    }
  }
}
