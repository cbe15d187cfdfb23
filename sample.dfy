/**
 * The sample graph of the repository's test: seven vertices and thirteen
 * undirected edges, with the distance table the test states.
 */
module Sample {
  import opened Distances
  import opened Walks

  const Size: nat := 7

  /** The rows `addEdge` leaves: each edge in both end rows, in insertion order. */
  const SampleRows: Graph := [
    [Edge(1, 4), Edge(2, 3), Edge(3, 3)],
    [Edge(0, 4), Edge(3, 2), Edge(4, 13), Edge(5, 7)],
    [Edge(0, 3), Edge(3, 3), Edge(5, 7), Edge(6, 12)],
    [Edge(0, 3), Edge(1, 2), Edge(2, 3), Edge(5, 8)],
    [Edge(1, 13), Edge(5, 7), Edge(6, 5)],
    [Edge(1, 7), Edge(2, 7), Edge(3, 8), Edge(4, 7), Edge(6, 6)],
    [Edge(2, 12), Edge(4, 5), Edge(5, 6)]
  ]
  /** The distance table the test expects. */
  const Expected: seq<seq<nat>> := [
    [ 0,  4,  3,  3, 17, 10, 15],
    [ 4,  0,  5,  2, 13,  7, 13],
    [ 3,  5,  0,  3, 14,  7, 12],
    [ 3,  2,  3,  0, 15,  8, 14],
    [17, 13, 14, 15,  0,  7,  5],
    [10,  7,  7,  8,  7,  0,  6],
    [15, 13, 12, 14,  5,  6,  0]
  ]
  /** For each pair, a walk from the row's vertex to the column's vertex, of the expected weight. */
  const Witnesses: seq<seq<seq<Hop>>> := [
    [[], [Hop(0, 0)], [Hop(0, 1)], [Hop(0, 2)], [Hop(0, 0), Hop(1, 2)], [Hop(0, 1), Hop(2, 2)], [Hop(0, 1), Hop(2, 3)]],
    [[Hop(1, 0)], [], [Hop(1, 1), Hop(3, 2)], [Hop(1, 1)], [Hop(1, 2)], [Hop(1, 3)], [Hop(1, 3), Hop(5, 4)]],
    [[Hop(2, 0)], [Hop(2, 1), Hop(3, 1)], [], [Hop(2, 1)], [Hop(2, 2), Hop(5, 3)], [Hop(2, 2)], [Hop(2, 3)]],
    [[Hop(3, 0)], [Hop(3, 1)], [Hop(3, 2)], [], [Hop(3, 1), Hop(1, 2)], [Hop(3, 3)], [Hop(3, 3), Hop(5, 4)]],
    [[Hop(4, 0), Hop(1, 0)], [Hop(4, 0)], [Hop(4, 1), Hop(5, 1)], [Hop(4, 1), Hop(5, 2)], [], [Hop(4, 1)], [Hop(4, 2)]],
    [[Hop(5, 1), Hop(2, 0)], [Hop(5, 0)], [Hop(5, 1)], [Hop(5, 2)], [Hop(5, 3)], [], [Hop(5, 4)]],
    [[Hop(6, 0), Hop(2, 0)], [Hop(6, 2), Hop(5, 0)], [Hop(6, 0)], [Hop(6, 2), Hop(5, 2)], [Hop(6, 1)], [Hop(6, 2)], []]
  ]

  /** The test's `addEdge` calls, written out in order. */
  function SampleBuilt(): Graph
  {
    var g0: Graph := seq(Size, _ => []);
    var g1 := AddEdge(g0, 0, 1, 4, true);
    var g2 := AddEdge(g1, 0, 2, 3, true);
    var g3 := AddEdge(g2, 0, 3, 3, true);
    var g4 := AddEdge(g3, 1, 3, 2, true);
    var g5 := AddEdge(g4, 1, 4, 13, true);
    var g6 := AddEdge(g5, 1, 5, 7, true);
    var g7 := AddEdge(g6, 2, 3, 3, true);
    var g8 := AddEdge(g7, 2, 5, 7, true);
    var g9 := AddEdge(g8, 2, 6, 12, true);
    var g10 := AddEdge(g9, 3, 5, 8, true);
    var g11 := AddEdge(g10, 4, 5, 7, true);
    var g12 := AddEdge(g11, 4, 6, 5, true);
    var g13 := AddEdge(g12, 5, 6, 6, true);
    g13
  }

  /** They build exactly `SampleRows`. */
  lemma BuildSample()
    ensures SampleBuilt() == SampleRows
  {
    var g := SampleBuilt();
    assert g[0] == SampleRows[0];
    assert g[1] == SampleRows[1];
    assert g[2] == SampleRows[2];
    assert g[3] == SampleRows[3];
    assert g[4] == SampleRows[4];
    assert g[5] == SampleRows[5];
    assert g[6] == SampleRows[6];
  }

  // Each row of the table is checked on its own: row `s` is a feasible
  // potential for the source `s`, and the witness walks meet it.

  lemma FeasibleFrom0()
    ensures Feasible(SampleRows, 0, Expected[0])
  {
  }

  lemma ShortestFrom0()
    ensures forall t :: 0 <= t < Size ==> IsShortestDist(SampleRows, 0, t, Fin(Expected[0][t]))
  {
    FeasibleFrom0();
    forall t | 0 <= t < Size
      ensures IsShortestDist(SampleRows, 0, t, Fin(Expected[0][t]))
    {
      CertifiedShortest(SampleRows, 0, Expected[0], Witnesses[0][t], t);
    }
  }

  lemma FeasibleFrom1()
    ensures Feasible(SampleRows, 1, Expected[1])
  {
  }

  lemma ShortestFrom1()
    ensures forall t :: 0 <= t < Size ==> IsShortestDist(SampleRows, 1, t, Fin(Expected[1][t]))
  {
    FeasibleFrom1();
    forall t | 0 <= t < Size
      ensures IsShortestDist(SampleRows, 1, t, Fin(Expected[1][t]))
    {
      CertifiedShortest(SampleRows, 1, Expected[1], Witnesses[1][t], t);
    }
  }

  lemma FeasibleFrom2()
    ensures Feasible(SampleRows, 2, Expected[2])
  {
  }

  lemma ShortestFrom2()
    ensures forall t :: 0 <= t < Size ==> IsShortestDist(SampleRows, 2, t, Fin(Expected[2][t]))
  {
    FeasibleFrom2();
    forall t | 0 <= t < Size
      ensures IsShortestDist(SampleRows, 2, t, Fin(Expected[2][t]))
    {
      CertifiedShortest(SampleRows, 2, Expected[2], Witnesses[2][t], t);
    }
  }

  lemma FeasibleFrom3()
    ensures Feasible(SampleRows, 3, Expected[3])
  {
  }

  lemma ShortestFrom3()
    ensures forall t :: 0 <= t < Size ==> IsShortestDist(SampleRows, 3, t, Fin(Expected[3][t]))
  {
    FeasibleFrom3();
    forall t | 0 <= t < Size
      ensures IsShortestDist(SampleRows, 3, t, Fin(Expected[3][t]))
    {
      CertifiedShortest(SampleRows, 3, Expected[3], Witnesses[3][t], t);
    }
  }

  lemma FeasibleFrom4()
    ensures Feasible(SampleRows, 4, Expected[4])
  {
  }

  lemma ShortestFrom4()
    ensures forall t :: 0 <= t < Size ==> IsShortestDist(SampleRows, 4, t, Fin(Expected[4][t]))
  {
    FeasibleFrom4();
    forall t | 0 <= t < Size
      ensures IsShortestDist(SampleRows, 4, t, Fin(Expected[4][t]))
    {
      CertifiedShortest(SampleRows, 4, Expected[4], Witnesses[4][t], t);
    }
  }

  lemma FeasibleFrom5()
    ensures Feasible(SampleRows, 5, Expected[5])
  {
  }

  lemma ShortestFrom5()
    ensures forall t :: 0 <= t < Size ==> IsShortestDist(SampleRows, 5, t, Fin(Expected[5][t]))
  {
    FeasibleFrom5();
    forall t | 0 <= t < Size
      ensures IsShortestDist(SampleRows, 5, t, Fin(Expected[5][t]))
    {
      CertifiedShortest(SampleRows, 5, Expected[5], Witnesses[5][t], t);
    }
  }

  lemma FeasibleFrom6()
    ensures Feasible(SampleRows, 6, Expected[6])
  {
  }

  lemma ShortestFrom6()
    ensures forall t :: 0 <= t < Size ==> IsShortestDist(SampleRows, 6, t, Fin(Expected[6][t]))
  {
    FeasibleFrom6();
    forall t | 0 <= t < Size
      ensures IsShortestDist(SampleRows, 6, t, Fin(Expected[6][t]))
    {
      CertifiedShortest(SampleRows, 6, Expected[6], Witnesses[6][t], t);
    }
  }

  /** Every entry of the table is the shortest distance in the sample graph. */
  lemma SampleDistances(s: int, t: int)
    requires 0 <= s < Size && 0 <= t < Size
    ensures IsShortestDist(SampleRows, s, t, Fin(Expected[s][t]))
  {
    if s == 0 { ShortestFrom0(); }
    else if s == 1 { ShortestFrom1(); }
    else if s == 2 { ShortestFrom2(); }
    else if s == 3 { ShortestFrom3(); }
    else if s == 4 { ShortestFrom4(); }
    else if s == 5 { ShortestFrom5(); }
    else { ShortestFrom6(); }
  }

  /** The test adds every edge undirected, so the graph it builds is undirected. */
  lemma SampleUndirected()
    ensures Undirected(SampleBuilt())
  {
    var g0: Graph := seq(Size, _ => []);
    assert Undirected(g0);
    AddUndirectedKeepsUndirected(g0, 0, 1, 4);
    var g1 := AddEdge(g0, 0, 1, 4, true);
    AddUndirectedKeepsUndirected(g1, 0, 2, 3);
    var g2 := AddEdge(g1, 0, 2, 3, true);
    AddUndirectedKeepsUndirected(g2, 0, 3, 3);
    var g3 := AddEdge(g2, 0, 3, 3, true);
    AddUndirectedKeepsUndirected(g3, 1, 3, 2);
    var g4 := AddEdge(g3, 1, 3, 2, true);
    AddUndirectedKeepsUndirected(g4, 1, 4, 13);
    var g5 := AddEdge(g4, 1, 4, 13, true);
    AddUndirectedKeepsUndirected(g5, 1, 5, 7);
    var g6 := AddEdge(g5, 1, 5, 7, true);
    AddUndirectedKeepsUndirected(g6, 2, 3, 3);
    var g7 := AddEdge(g6, 2, 3, 3, true);
    AddUndirectedKeepsUndirected(g7, 2, 5, 7);
    var g8 := AddEdge(g7, 2, 5, 7, true);
    AddUndirectedKeepsUndirected(g8, 2, 6, 12);
    var g9 := AddEdge(g8, 2, 6, 12, true);
    AddUndirectedKeepsUndirected(g9, 3, 5, 8);
    var g10 := AddEdge(g9, 3, 5, 8, true);
    AddUndirectedKeepsUndirected(g10, 4, 5, 7);
    var g11 := AddEdge(g10, 4, 5, 7, true);
    AddUndirectedKeepsUndirected(g11, 4, 6, 5);
    var g12 := AddEdge(g11, 4, 6, 5, true);
    AddUndirectedKeepsUndirected(g12, 5, 6, 6);
    var g13 := AddEdge(g12, 5, 6, 6, true);
    assert g13 == SampleBuilt();
  }

  /**
   * So any shortest distance on the graph the test builds is the table's
   * entry: what `shortestDist(s, t)` and `allDistancesFromOneHeap(s)[t]`
   * return on it, by their contracts, and also `allDistances()[s][t]` for
   * every `s` and `t`, since the graph is undirected (`SampleUndirected`).
   */
  lemma SampleTable(s: int, t: int, d: Dist)
    requires 0 <= s < Size && 0 <= t < Size
    requires IsShortestDist(SampleBuilt(), s, t, d)
    ensures d == Fin(Expected[s][t])
  {
    BuildSample();
    SampleDistances(s, t);
    ShortestUnique(SampleRows, s, t, d, Fin(Expected[s][t]));
  }
}
