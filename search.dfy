/**
 * Why the heap-driven search computes shortest distances. The state of a
 * search, as values: `dist` (the `dists` array), `key` (the heap contents:
 * each live vertex with its key) and `paths` (a ghost witness walk for every
 * finite estimate). A vertex is done once it has left the heap.
 */
module Search {
  import opened Distances
  import opened Walks

  /** Vertex `x` has been extracted from the heap. */
  ghost predicate Done(g: Graph, key: map<int, Dist>, x: int)
  {
    0 <= x < |g| && x !in key
  }

  /** The current estimate for `v`: its key while live, its distance once done. */
  ghost function Estimate(dist: seq<Dist>, key: map<int, Dist>, v: int): Dist
    requires 0 <= v < |dist|
  {
    if v in key then key[v] else dist[v]
  }

  /**
   * Every edge out of a done vertex into the heap has been relaxed, except
   * the edges of the vertex `p` being processed from slot `i` on.
   */
  ghost predicate Relaxed(g: Graph, dist: seq<Dist>, key: map<int, Dist>, p: int, i: int)
    requires |dist| == |g|
  {
    forall x, k :: Done(g, key, x) && 0 <= k < |g[x]| && (x == p ==> k < i) && g[x][k].to in key ==>
      AtMost(key[g[x][k].to], Plus(dist[x], g[x][k].weight))
  }

  /** Edges between done vertices obey the triangle inequality. */
  ghost predicate Settled(g: Graph, dist: seq<Dist>, key: map<int, Dist>)
    requires |dist| == |g|
  {
    forall x, k :: Done(g, key, x) && 0 <= k < |g[x]| && Done(g, key, g[x][k].to) ==>
      AtMost(dist[g[x][k].to], Plus(dist[x], g[x][k].weight))
  }

  /** No done vertex is farther than a key still in the heap. */
  ghost predicate Monotone(g: Graph, dist: seq<Dist>, key: map<int, Dist>)
    requires |dist| == |g|
  {
    forall x, v :: Done(g, key, x) && v in key ==> AtMost(dist[x], key[v])
  }

  /** Every finite estimate is the weight of the recorded walk from the source. */
  ghost predicate Witnessed(g: Graph, a: int, dist: seq<Dist>, key: map<int, Dist>, paths: seq<seq<Hop>>)
    requires |dist| == |g|
  {
    && |paths| == |g|
    && forall v :: 0 <= v < |g| && Estimate(dist, key, v).Fin? ==>
         IsWalk(g, a, paths[v], v) && Weight(g, paths[v]) == Estimate(dist, key, v).value
  }

  /** No walk from the source undercuts the distance of a done vertex. */
  ghost predicate Optimal(g: Graph, a: int, dist: seq<Dist>, key: map<int, Dist>)
    requires |dist| == |g|
  {
    forall x, w :: Done(g, key, x) && IsWalk(g, a, w, x) ==> AtMost(dist[x], Fin(Weight(g, w)))
  }

  /** Before the first extraction the heap holds every vertex, the source at 0. */
  ghost predicate Fresh(g: Graph, a: int, key: map<int, Dist>)
  {
    forall v :: 0 <= v < |g| ==> v in key && key[v] == (if v == a then Fin(0) else Inf)
  }

  /**
   * The invariant of the search, while vertex `p` (or none, `p == -1`) is
   * having its edges from slot `i` on relaxed.
   */
  ghost predicate Invariant(g: Graph, a: int, dist: seq<Dist>, key: map<int, Dist>, paths: seq<seq<Hop>>, p: int, i: int)
  {
    && WellFormed(g) && 0 <= a < |g| && |dist| == |g|
    && (forall v :: v in key ==> 0 <= v < |g| && dist[v] == Inf)
    && (a in key ==> Fresh(g, a, key))
    && (a !in key ==> dist[a] == Fin(0))
    && Relaxed(g, dist, key, p, i)
    && Settled(g, dist, key)
    && Monotone(g, dist, key)
    && (p != -1 ==> Done(g, key, p) && forall x :: Done(g, key, x) ==> AtMost(dist[x], dist[p]))
    && Witnessed(g, a, dist, key, paths)
    && Optimal(g, a, dist, key)
  }

  /** The search starts in the invariant. */
  lemma InitialInvariant(g: Graph, a: int, dist: seq<Dist>, key: map<int, Dist>, paths: seq<seq<Hop>>)
    requires WellFormed(g) && 0 <= a < |g|
    requires |dist| == |g| && forall v :: 0 <= v < |g| ==> dist[v] == Inf
    requires (forall v :: v in key ==> 0 <= v < |g|) && Fresh(g, a, key)
    requires |paths| == |g| && paths[a] == []
    ensures Invariant(g, a, dist, key, paths, -1, 0)
  {
    assert IsWalk(g, a, [], a);
  }

  /**
   * Every walk from a done vertex `x` into the heap costs at least the
   * minimum key `m`, once every edge out of a done vertex is relaxed.
   */
  lemma {:induction false} LowerBound(g: Graph, dist: seq<Dist>, key: map<int, Dist>, x: int, w: seq<Hop>, t: int, m: Dist)
    requires WellFormed(g) && |dist| == |g|
    requires Relaxed(g, dist, key, -1, 0) && Settled(g, dist, key)
    requires forall v :: v in key ==> AtMost(m, key[v])
    requires Done(g, key, x) && t in key && IsWalk(g, x, w, t)
    ensures AtMost(m, Plus(dist[x], Weight(g, w)))
    decreases |w|
  {
    var h := w[0];
    var y := Target(g, h);
    var c := g[x][h.slot].weight;
    assert Weight(g, w) == c + Weight(g, w[1..]);
    if y in key {
      assert AtMost(key[y], Plus(dist[x], c));
    } else {
      assert AtMost(dist[y], Plus(dist[x], c));
      LowerBound(g, dist, key, y, w[1..], t, m);
    }
  }

  /** Extracting a vertex `u` of minimum key finalises it at that key. */
  lemma ExtractStep(g: Graph, a: int, dist: seq<Dist>, key: map<int, Dist>, paths: seq<seq<Hop>>, u: int,
                    dist': seq<Dist>, key': map<int, Dist>)
    requires Invariant(g, a, dist, key, paths, -1, 0)
    requires u in key && forall v :: v in key ==> AtMost(key[u], key[v])
    requires dist' == dist[u := key[u]] && key' == key - {u}
    ensures Invariant(g, a, dist', key', paths, u, 0)
  {
    var m := key[u];
    if a in key {
      assert key[a] == Fin(0);
      assert u == a;
    }
    assert Done(g, key', u);
    forall w | IsWalk(g, a, w, u)
      ensures AtMost(m, Fin(Weight(g, w)))
    {
      if u != a {
        LowerBound(g, dist, key, a, w, u, m);
      }
    }
    assert Settled(g, dist', key') by {
      forall x, k | Done(g, key', x) && 0 <= k < |g[x]| && Done(g, key', g[x][k].to)
        ensures AtMost(dist'[g[x][k].to], Plus(dist'[x], g[x][k].weight))
      {
        var y := g[x][k].to;
        if x == u && y != u {
          assert AtMost(dist[y], m);
        }
      }
    }
    assert Witnessed(g, a, dist', key', paths) by {
      forall v | 0 <= v < |g|
        ensures Estimate(dist', key', v) == Estimate(dist, key, v)
      {
      }
    }
  }

  /** Relaxing edge `i` of the vertex `u` being processed. */
  lemma RelaxStep(g: Graph, a: int, dist: seq<Dist>, key: map<int, Dist>, paths: seq<seq<Hop>>, u: int, i: int)
    requires Invariant(g, a, dist, key, paths, u, i) && u != -1 && 0 <= i < |g[u]|
    ensures Invariant(g, a, dist, RelaxKey(g, dist, key, u, i), RelaxPaths(g, dist, key, paths, u, i), u, i + 1)
  {
    var e := g[u][i];
    var y := e.to;
    var c := Plus(dist[u], e.weight);
    if y in key && Below(c, key[y]) {
      var key' := key[y := c];
      var paths' := paths[y := paths[u] + [Hop(u, i)]];
      assert a !in key;
      assert Estimate(dist, key, u) == dist[u];
      WalkSnoc(g, a, paths[u], u, Hop(u, i));
      assert Witnessed(g, a, dist, key', paths') by {
        forall v | 0 <= v < |g| && Estimate(dist, key', v).Fin?
          ensures IsWalk(g, a, paths'[v], v) && Weight(g, paths'[v]) == Estimate(dist, key', v).value
        {
          if v != y {
            assert Estimate(dist, key', v) == Estimate(dist, key, v);
          }
        }
      }
      assert Relaxed(g, dist, key', u, i + 1) by {
        forall x, k | Done(g, key', x) && 0 <= k < |g[x]| && (x == u ==> k < i + 1) && g[x][k].to in key'
          ensures AtMost(key'[g[x][k].to], Plus(dist[x], g[x][k].weight))
        {
          if g[x][k].to == y && !(x == u && k == i) {
            assert AtMost(key[y], Plus(dist[x], g[x][k].weight));
          }
        }
      }
      assert Monotone(g, dist, key') by {
        forall x, v | Done(g, key', x) && v in key'
          ensures AtMost(dist[x], key'[v])
        {
          if v == y {
            assert AtMost(dist[x], dist[u]);
          }
        }
      }
    }
  }

  /**
   * Relaxing edge `i` of `u` on the heap contents: a neighbour still in the
   * heap takes the distance through `u` when that is strictly smaller.
   */
  function RelaxKey(g: Graph, dist: seq<Dist>, key: map<int, Dist>, u: int, i: int): (r: map<int, Dist>)
    requires 0 <= u < |g| && 0 <= i < |g[u]| && |dist| == |g|
    ensures r.Keys == key.Keys
    ensures forall v :: v in key && v != g[u][i].to ==> r[v] == key[v]
    ensures g[u][i].to in key ==> r[g[u][i].to] == Min(key[g[u][i].to], Plus(dist[u], g[u][i].weight))
  {
    var e := g[u][i];
    var c := Plus(dist[u], e.weight);
    if e.to in key && Below(c, key[e.to]) then key[e.to := c] else key
  }

  /** The witness walks follow: a lowered neighbour's walk is `u`'s walk and the edge. */
  function RelaxPaths(g: Graph, dist: seq<Dist>, key: map<int, Dist>, paths: seq<seq<Hop>>, u: int, i: int): seq<seq<Hop>>
    requires 0 <= u < |g| && 0 <= i < |g[u]| && |dist| == |g| && |paths| == |g|
    requires WellFormed(g)
  {
    var e := g[u][i];
    var c := Plus(dist[u], e.weight);
    if e.to in key && Below(c, key[e.to]) then paths[e.to := paths[u] + [Hop(u, i)]] else paths
  }

  /** The heap contents once edges `i` to `n - 1` of `u` are relaxed, in order. */
  function RelaxFrom(g: Graph, dist: seq<Dist>, key: map<int, Dist>, u: int, i: int, n: int): map<int, Dist>
    requires 0 <= u < |g| && 0 <= i <= n <= |g[u]| && |dist| == |g|
    decreases n - i
  {
    if i == n then key else RelaxFrom(g, dist, RelaxKey(g, dist, key, u, i), u, i + 1, n)
  }

  /** The witness walks once edges `i` to `n - 1` of `u` are relaxed. */
  ghost function RelaxPathsFrom(g: Graph, dist: seq<Dist>, key: map<int, Dist>, paths: seq<seq<Hop>>, u: int, i: int, n: int): seq<seq<Hop>>
    requires 0 <= u < |g| && 0 <= i <= n <= |g[u]| && |dist| == |g| && |paths| == |g| && WellFormed(g)
    decreases n - i
  {
    if i == n then paths
    else RelaxPathsFrom(g, dist, RelaxKey(g, dist, key, u, i), RelaxPaths(g, dist, key, paths, u, i), u, i + 1, n)
  }

  /**
   * Relaxing edges `i` to `n - 1` of `u` keeps the same vertices in the
   * heap, raises no key, and leaves each of those edges into the heap relaxed.
   */
  lemma {:induction false} RelaxFromRelaxes(g: Graph, dist: seq<Dist>, key: map<int, Dist>, u: int, i: int, n: int)
    requires 0 <= u < |g| && 0 <= i <= n <= |g[u]| && |dist| == |g|
    ensures RelaxFrom(g, dist, key, u, i, n).Keys == key.Keys
    ensures forall v :: v in key ==> AtMost(RelaxFrom(g, dist, key, u, i, n)[v], key[v])
    ensures forall k :: i <= k < n && g[u][k].to in key ==>
              AtMost(RelaxFrom(g, dist, key, u, i, n)[g[u][k].to], Plus(dist[u], g[u][k].weight))
    decreases n - i
  {
    if i < n {
      var key' := RelaxKey(g, dist, key, u, i);
      RelaxFromRelaxes(g, dist, key', u, i + 1, n);
    }
  }

  /** Relaxing the rest of the edges of the vertex `u` just extracted keeps the invariant. */
  lemma {:induction false} RelaxFromInvariant(g: Graph, a: int, dist: seq<Dist>, key: map<int, Dist>, paths: seq<seq<Hop>>, u: int, i: int, n: int)
    requires Invariant(g, a, dist, key, paths, u, i) && u != -1 && 0 <= i <= n <= |g[u]|
    ensures Invariant(g, a, dist, RelaxFrom(g, dist, key, u, i, n), RelaxPathsFrom(g, dist, key, paths, u, i, n), u, n)
    decreases n - i
  {
    if i < n {
      RelaxStep(g, a, dist, key, paths, u, i);
      RelaxFromInvariant(g, a, dist, RelaxKey(g, dist, key, u, i), RelaxPaths(g, dist, key, paths, u, i), u, i + 1, n);
    }
  }

  /** Once all of `u`'s edges are relaxed, every done vertex's edges are. */
  lemma FinishRelax(g: Graph, a: int, dist: seq<Dist>, key: map<int, Dist>, paths: seq<seq<Hop>>, u: int)
    requires Invariant(g, a, dist, key, paths, u, if 0 <= u < |g| then |g[u]| else 0)
    ensures Invariant(g, a, dist, key, paths, -1, 0)
  {
  }

  /** So the key of a vertex of minimum key is its shortest distance from the source. */
  lemma ExtractIsShortest(g: Graph, a: int, dist: seq<Dist>, key: map<int, Dist>, paths: seq<seq<Hop>>, u: int)
    requires Invariant(g, a, dist, key, paths, -1, 0)
    requires u in key && forall v :: v in key ==> AtMost(key[u], key[v])
    ensures IsShortestDist(g, a, u, key[u])
  {
    ExtractStep(g, a, dist, key, paths, u, dist[u := key[u]], key - {u});
    DoneIsShortest(g, a, dist[u := key[u]], key - {u}, paths, u, 0, u);
  }

  /** A done vertex's distance is its shortest distance from the source. */
  lemma DoneIsShortest(g: Graph, a: int, dist: seq<Dist>, key: map<int, Dist>, paths: seq<seq<Hop>>, p: int, i: int, x: int)
    requires Invariant(g, a, dist, key, paths, p, i) && Done(g, key, x)
    ensures IsShortestDist(g, a, x, dist[x])
  {
    assert Estimate(dist, key, x) == dist[x];
    if dist[x].Fin? {
      assert IsWalk(g, a, paths[x], x) && Weight(g, paths[x]) == dist[x].value;
    }
  }
}
