/**
 * The graph as a value, walks through it, and what a shortest distance is.
 * This is the specification the search is proved against.
 */
module Walks {
  import opened Distances

  /** One adjacency entry: the neighbour and the weight of the edge to it. */
  datatype Edge = Edge(to: int, weight: nat)

  /** Row `v` lists the edges out of vertex `v`, in insertion order. */
  type Graph = seq<seq<Edge>>

  ghost predicate WellFormed(g: Graph)
  {
    forall u, k :: 0 <= u < |g| && 0 <= k < |g[u]| ==> 0 <= g[u][k].to < |g|
  }

  /** One step of a walk: the `slot`-th edge out of vertex `from`. */
  datatype Hop = Hop(from: int, slot: int)

  predicate IsHop(g: Graph, h: Hop)
  {
    0 <= h.from < |g| && 0 <= h.slot < |g[h.from]|
  }

  function Target(g: Graph, h: Hop): int
    requires IsHop(g, h)
  {
    g[h.from][h.slot].to
  }

  function Cost(g: Graph, h: Hop): nat
  {
    if IsHop(g, h) then g[h.from][h.slot].weight else 0
  }

  /** `w` is a walk from `s` to `t` in `g`. */
  ghost predicate IsWalk(g: Graph, s: int, w: seq<Hop>, t: int)
    decreases |w|
  {
    if w == [] then s == t
    else IsHop(g, w[0]) && w[0].from == s && IsWalk(g, Target(g, w[0]), w[1..], t)
  }

  /** The total weight of a walk. */
  function Weight(g: Graph, w: seq<Hop>): nat
    decreases |w|
  {
    if w == [] then 0 else Cost(g, w[0]) + Weight(g, w[1..])
  }

  /**
   * `d` is the shortest distance from `s` to `t`: `Inf` when there is no
   * walk, otherwise the weight of some walk that no walk undercuts.
   */
  ghost predicate IsShortestDist(g: Graph, s: int, t: int, d: Dist)
  {
    match d
    case Inf => forall w :: !IsWalk(g, s, w, t)
    case Fin(x) =>
      && (exists w :: IsWalk(g, s, w, t) && Weight(g, w) == x)
      && (forall w :: IsWalk(g, s, w, t) ==> x <= Weight(g, w))
  }

  /** Extending a walk to `t` by an edge out of `t`. */
  lemma {:induction false} WalkSnoc(g: Graph, s: int, w: seq<Hop>, t: int, h: Hop)
    requires IsWalk(g, s, w, t) && IsHop(g, h) && h.from == t
    ensures IsWalk(g, s, w + [h], Target(g, h))
    ensures Weight(g, w + [h]) == Weight(g, w) + Cost(g, h)
    decreases |w|
  {
    if w == [] {
      assert [h][1..] == [];
    } else {
      assert (w + [h])[1..] == w[1..] + [h];
      WalkSnoc(g, Target(g, w[0]), w[1..], t, h);
    }
  }

  /** A vertex is at distance 0 from itself. */
  lemma ShortestToSelf(g: Graph, s: int, d: Dist)
    requires IsShortestDist(g, s, s, d)
    ensures d == Fin(0)
  {
    assert IsWalk(g, s, [], s);
    assert Weight(g, []) == 0;
  }

  /** There is only one shortest distance. */
  lemma ShortestUnique(g: Graph, s: int, t: int, d: Dist, e: Dist)
    requires IsShortestDist(g, s, t, d) && IsShortestDist(g, s, t, e)
    ensures d == e
  {
    if d.Fin? && e.Fin? {
      var w :| IsWalk(g, s, w, t) && Weight(g, w) == d.value;
      var v :| IsWalk(g, s, v, t) && Weight(g, v) == e.value;
    }
  }

  /**
   * A lower-bound certificate: a potential `p` with `p[s] <= 0` that no edge
   * decreases by more than its weight bounds every walk from `s`.
   */
  ghost predicate Feasible(g: Graph, s: int, p: seq<int>)
  {
    && |p| == |g| && 0 <= s < |g| && p[s] <= 0
    && forall u, k :: 0 <= u < |g| && 0 <= k < |g[u]| && 0 <= g[u][k].to < |g| ==>
         p[g[u][k].to] <= p[u] + g[u][k].weight
  }

  lemma {:induction false} FeasibleBoundsWalk(g: Graph, s: int, p: seq<int>, x: int, w: seq<Hop>, t: int)
    requires WellFormed(g) && Feasible(g, s, p)
    requires 0 <= x < |g| && IsWalk(g, x, w, t)
    ensures 0 <= t < |g| && p[t] <= p[x] + Weight(g, w)
    decreases |w|
  {
    if w != [] {
      var y := Target(g, w[0]);
      FeasibleBoundsWalk(g, s, p, y, w[1..], t);
    }
  }

  /** A walk whose weight meets a feasible potential is a shortest one. */
  lemma CertifiedShortest(g: Graph, s: int, p: seq<int>, w: seq<Hop>, t: int)
    requires WellFormed(g) && Feasible(g, s, p)
    requires 0 <= t < |g| && IsWalk(g, s, w, t) && Weight(g, w) == p[t]
    ensures IsShortestDist(g, s, t, Fin(p[t]))
  {
    forall v | IsWalk(g, s, v, t)
      ensures p[t] <= Weight(g, v)
    {
      FeasibleBoundsWalk(g, s, p, s, v, t);
    }
  }

  /**
   * The first `|m|` rows of the all-pairs table: on and right of the
   * diagonal each entry is a shortest distance, and left of it each entry
   * is copied from the row above it, across the diagonal.
   */
  ghost predicate Table(g: Graph, m: seq<seq<Dist>>)
  {
    && |m| <= |g|
    && (forall r :: 0 <= r < |m| ==> |m[r]| == |g|)
    && (forall r, c :: 0 <= r < |m| && r <= c < |g| ==> IsShortestDist(g, r, c, m[r][c]))
    && (forall r, c :: 0 <= c < r < |m| ==> m[r][c] == m[c][r])
  }

  /**
   * The next row: the shortest distances from vertex `|m|`, with the part
   * left of the diagonal overwritten by the column `|m|` of the rows above.
   */
  lemma TableGrows(g: Graph, m: seq<seq<Dist>>, dists: seq<Dist>, row: seq<Dist>)
    requires Table(g, m) && |m| < |g|
    requires |dists| == |g| && forall c :: 0 <= c < |g| ==> IsShortestDist(g, |m|, c, dists[c])
    requires |row| == |g| && forall c :: 0 <= c < |g| ==> row[c] == if c < |m| then m[c][|m|] else dists[c]
    ensures Table(g, m + [row])
  {
  }

  /**
   * The full table is symmetric with a zero diagonal, and holds shortest
   * distances on and right of the diagonal; in an undirected graph it holds
   * them everywhere.
   */
  lemma TableComplete(g: Graph, m: seq<seq<Dist>>)
    requires Table(g, m) && |m| == |g|
    ensures forall i, j :: 0 <= i < |g| && 0 <= j < |g| ==> m[i][j] == m[j][i]
    ensures forall i :: 0 <= i < |g| ==> m[i][i] == Fin(0)
    ensures Undirected(g) ==> forall i, j :: 0 <= i < |g| && 0 <= j < |g| ==> IsShortestDist(g, i, j, m[i][j])
  {
    forall i | 0 <= i < |g|
      ensures m[i][i] == Fin(0)
    {
      ShortestToSelf(g, i, m[i][i]);
    }
    if Undirected(g) {
      forall i, j | 0 <= j < i < |g|
        ensures IsShortestDist(g, i, j, m[i][j])
      {
        UndirectedShortestSymmetric(g, j, i, m[j][i]);
      }
    }
  }

  // ---------------------------------------------------------------------
  // Building the graph, and undirected graphs

  /** `addEdge(a, b, d, false)`: append `(b, d)` to row `a`. */
  function AddArc(g: Graph, a: int, b: int, d: nat): (r: Graph)
    requires 0 <= a < |g|
    ensures |r| == |g| && r[a] == g[a] + [Edge(b, d)]
    ensures forall v :: 0 <= v < |g| && v != a ==> r[v] == g[v]
  {
    g[a := g[a] + [Edge(b, d)]]
  }

  /** `addEdge(a, b, d, undirected)` on the graph as a value. */
  function AddEdge(g: Graph, a: int, b: int, d: nat, undirected: bool): (r: Graph)
    requires 0 <= a < |g| && 0 <= b < |g|
    ensures |r| == |g|
    ensures !undirected || a != b ==> r[a] == g[a] + [Edge(b, d)]
    ensures undirected && a != b ==> r[b] == g[b] + [Edge(a, d)]
    ensures undirected && a == b ==> r[a] == g[a] + [Edge(a, d), Edge(a, d)]
    ensures forall v :: 0 <= v < |g| && v != a && (undirected ==> v != b) ==> r[v] == g[v]
  {
    if undirected then AddArc(AddArc(g, a, b, d), b, a, d) else AddArc(g, a, b, d)
  }

  /** Row `v` holds the edge `e`. */
  ghost predicate HasEdge(g: Graph, v: int, e: Edge)
  {
    0 <= v < |g| && exists j :: 0 <= j < |g[v]| && g[v][j] == e
  }

  /** Every edge has its reverse, with the same weight. */
  ghost predicate Undirected(g: Graph)
  {
    forall u, k :: 0 <= u < |g| && 0 <= k < |g[u]| ==> HasEdge(g, g[u][k].to, Edge(u, g[u][k].weight))
  }

  /** Appending to a row keeps every edge that was there. */
  lemma AddArcKeepsEdges(g: Graph, a: int, b: int, d: nat, v: int, e: Edge)
    requires 0 <= a < |g| && HasEdge(g, v, e)
    ensures HasEdge(AddArc(g, a, b, d), v, e)
  {
    var j :| 0 <= j < |g[v]| && g[v][j] == e;
    assert AddArc(g, a, b, d)[v][j] == e;
  }

  /** Undirected insertions keep a graph undirected. */
  lemma AddUndirectedKeepsUndirected(g: Graph, a: int, b: int, d: nat)
    requires Undirected(g) && 0 <= a < |g| && 0 <= b < |g|
    ensures Undirected(AddEdge(g, a, b, d, true))
  {
    var g1 := AddArc(g, a, b, d);
    var g2 := AddArc(g1, b, a, d);
    assert g2 == AddEdge(g, a, b, d, true);
    assert HasEdge(g2, b, Edge(a, d)) by {
      assert g2[b][|g1[b]|] == Edge(a, d);
    }
    assert HasEdge(g2, a, Edge(b, d)) by {
      assert g1[a][|g[a]|] == Edge(b, d);
      AddArcKeepsEdges(g1, b, a, d, a, Edge(b, d));
    }
    forall u, k | 0 <= u < |g2| && 0 <= k < |g2[u]|
      ensures HasEdge(g2, g2[u][k].to, Edge(u, g2[u][k].weight))
    {
      if k < |g[u]| {
        assert g2[u][k] == g[u][k];
        AddArcKeepsEdges(g, a, b, d, g[u][k].to, Edge(u, g[u][k].weight));
        AddArcKeepsEdges(g1, b, a, d, g[u][k].to, Edge(u, g[u][k].weight));
      } else if u == a && k == |g[a]| {
        assert g2[u][k] == Edge(b, d);
      } else {
        assert u == b && g2[u][k] == Edge(a, d);
      }
    }
  }

  /** In an undirected graph every walk can be walked backwards. */
  lemma {:induction false} ReverseWalk(g: Graph, s: int, w: seq<Hop>, t: int) returns (r: seq<Hop>)
    requires Undirected(g) && IsWalk(g, s, w, t)
    ensures IsWalk(g, t, r, s) && Weight(g, r) == Weight(g, w)
    decreases |w|
  {
    if w == [] {
      r := [];
    } else {
      var h := w[0];
      var y := Target(g, h);
      var c := g[s][h.slot].weight;
      assert Weight(g, w) == c + Weight(g, w[1..]);
      var back := ReverseWalk(g, y, w[1..], t);
      assert HasEdge(g, y, Edge(s, c));
      var j :| 0 <= j < |g[y]| && g[y][j] == Edge(s, c);
      WalkSnoc(g, t, back, y, Hop(y, j));
      r := back + [Hop(y, j)];
    }
  }

  /** So shortest distances in an undirected graph are symmetric. */
  lemma UndirectedShortestSymmetric(g: Graph, s: int, t: int, d: Dist)
    requires Undirected(g) && IsShortestDist(g, s, t, d)
    ensures IsShortestDist(g, t, s, d)
  {
    forall w | IsWalk(g, t, w, s)
      ensures d.Fin? && d.value <= Weight(g, w)
    {
      var r := ReverseWalk(g, t, w, s);
    }
    if d.Fin? {
      var w :| IsWalk(g, s, w, t) && Weight(g, w) == d.value;
      var r := ReverseWalk(g, s, w, t);
    }
  }
}
