/**
 * The indexed binary min-heap of the search, as values. Slots `1..len` of
 * `q` hold the live entries (slot `k`'s parent is `k / 2`); `locs[v]` is the
 * slot of vertex `v`, or `-1` once `v` has been extracted. The methods of
 * class `Dijkstra` keep `q` and `locs` in arrays and are specified by these
 * predicates and functions.
 */
module Heaps {
  import opened Distances
  import opened Nodes

  /** Every live parent is at most its children: the heap order, on distance only. */
  ghost predicate Ordered(q: seq<Entry>, len: nat)
    requires len < |q|
  {
    forall k :: 2 <= k <= len ==> AtMost(q[k / 2].distance, q[k].distance)
  }

  /**
   * The heap order with a hole at slot `i` during a sift-down: only the
   * entry at `i` may be above its children, and `i`'s parent is at most them.
   */
  ghost predicate OrderedBelow(q: seq<Entry>, len: nat, i: int)
    requires len < |q|
  {
    && (forall k :: 2 <= k <= len && k / 2 != i ==> AtMost(q[k / 2].distance, q[k].distance))
    && (forall k :: 2 <= k <= len && k / 2 == i && i > 1 ==> AtMost(q[i / 2].distance, q[k].distance))
  }

  /**
   * The heap order with a hole at slot `i` during a sift-up: only the entry
   * at `i` may be below its parent, and that parent is at most `i`'s children.
   */
  ghost predicate OrderedAbove(q: seq<Entry>, len: nat, i: int)
    requires len < |q|
  {
    && (forall k :: 2 <= k <= len && k != i ==> AtMost(q[k / 2].distance, q[k].distance))
    && (forall k :: 2 <= k <= len && k / 2 == i && i > 1 ==> AtMost(q[i / 2].distance, q[k].distance))
  }

  /**
   * `locs` is the location table of `q[1..len]`: every live entry's vertex
   * is located at its slot, and every vertex is at a live slot holding it,
   * or at -1.
   */
  ghost predicate Located(q: seq<Entry>, locs: seq<int>, len: nat)
    requires len < |q|
  {
    && (forall k :: 1 <= k <= len ==> 0 <= q[k].index < |locs| && locs[q[k].index] == k)
    && (forall v :: 0 <= v < |locs| ==> locs[v] == -1 || (1 <= locs[v] <= len && q[locs[v]].index == v))
  }

  ghost predicate IsHeap(q: seq<Entry>, locs: seq<int>, len: nat)
  {
    len < |q| && Located(q, locs, len) && Ordered(q, len)
  }

  /** What the heap holds: each live vertex with its key. */
  ghost function Contents(q: seq<Entry>, locs: seq<int>, len: nat): map<int, Dist>
  {
    map v | 0 <= v < |locs| && 1 <= locs[v] <= len && locs[v] < |q| :: q[locs[v]].distance
  }

  /** `q` with slots `i` and `j` exchanged. */
  function Swap(q: seq<Entry>, i: int, j: int): (r: seq<Entry>)
    requires 0 <= i < |q| && 0 <= j < |q|
    ensures |r| == |q| && r[i] == q[j] && r[j] == q[i]
    ensures forall k :: 0 <= k < |q| && k != i && k != j ==> r[k] == q[k]
  {
    q[i := q[j]][j := q[i]]
  }

  /** Slot `k` is slot `j` or one of its ancestors. */
  ghost predicate OnPath(k: int, j: int)
    decreases j
  {
    1 <= j && (k == j || (j > 1 && OnPath(k, j / 2)))
  }

  // ---------------------------------------------------------------------
  // Facts about the pieces

  /** The root holds a minimum of the live entries. */
  lemma {:induction false} RootIsMin(q: seq<Entry>, len: nat, k: int)
    requires len < |q| && Ordered(q, len) && 1 <= k <= len
    ensures AtMost(q[1].distance, q[k].distance)
    decreases k
  {
    if k > 1 {
      RootIsMin(q, len, k / 2);
    }
  }

  /** So the root's key is at most every key in the heap. */
  lemma RootIsMinOfContents(q: seq<Entry>, locs: seq<int>, len: nat)
    requires IsHeap(q, locs, len) && 1 <= len
    ensures q[1].index in Contents(q, locs, len)
    ensures Contents(q, locs, len)[q[1].index] == q[1].distance
    ensures forall v :: v in Contents(q, locs, len) ==> AtMost(q[1].distance, Contents(q, locs, len)[v])
  {
    forall v | v in Contents(q, locs, len)
      ensures AtMost(q[1].distance, Contents(q, locs, len)[v])
    {
      RootIsMin(q, len, locs[v]);
    }
  }

  /** In a located heap, a vertex is live exactly when its location is positive. */
  lemma LiveIffLocated(q: seq<Entry>, locs: seq<int>, len: nat, v: int)
    requires len < |q| && Located(q, locs, len) && 0 <= v < |locs|
    ensures v in Contents(q, locs, len) <==> locs[v] >= 1
    ensures v in Contents(q, locs, len) ==> Contents(q, locs, len)[v] == q[locs[v]].distance
  {
  }

  /** Exchanging two live slots and both their locations keeps the table and the contents. */
  lemma SwapKeepsLocated(q: seq<Entry>, locs: seq<int>, len: nat, i: int, j: int)
    requires len < |q| && Located(q, locs, len)
    requires 1 <= i <= len && 1 <= j <= len
    ensures var r := Swap(q, i, j);
      var l := locs[r[j].index := j][r[i].index := i];
      Located(r, l, len) && Contents(r, l, len) == Contents(q, locs, len)
  {
    var r := Swap(q, i, j);
    var l := locs[r[j].index := j][r[i].index := i];
    assert Located(r, l, len);
    assert Contents(r, l, len) == Contents(q, locs, len);
  }

  /** Overwriting the key of a live vertex changes only its entry in the contents. */
  lemma SetKeyKeepsLocated(q: seq<Entry>, locs: seq<int>, len: nat, v: int, d: Dist)
    requires len < |q| && Located(q, locs, len) && 0 <= v < |locs| && locs[v] >= 1
    ensures var r := q[locs[v] := Entry(v, d)];
      Located(r, locs, len) && Contents(r, locs, len) == Contents(q, locs, len)[v := d]
  {
    var r := q[locs[v] := Entry(v, d)];
    assert Located(r, locs, len);
  }

  /** Lowering a key leaves the order broken at most above that entry. */
  lemma SetKeyOrderedAbove(q: seq<Entry>, len: nat, p: int, e: Entry)
    requires len < |q| && Ordered(q, len) && 1 <= p <= len && AtMost(e.distance, q[p].distance)
    ensures OrderedAbove(q[p := e], len, p)
  {
  }

  /**
   * Moving the last live entry into the root and shrinking the heap by one
   * removes the root's vertex from the contents, and leaves the order
   * broken at most below the root.
   */
  lemma MoveLastKeepsLocated(q: seq<Entry>, locs: seq<int>, len: nat)
    requires IsHeap(q, locs, len) && 1 <= len
    ensures var r := q[1 := q[len]];
      var l := locs[q[len].index := 1][q[1].index := -1];
      && Located(r, l, len - 1) && OrderedBelow(r, len - 1, 1)
      && Contents(r, l, len - 1) == Contents(q, locs, len) - {q[1].index}
  {
    var r := q[1 := q[len]];
    var l := locs[q[len].index := 1][q[1].index := -1];
    assert Located(r, l, len - 1);
    assert Contents(r, l, len - 1) == Contents(q, locs, len) - {q[1].index};
  }

  /** `c` is the smaller child of slot `i`, the left one on a tie. */
  ghost predicate SmallerChild(q: seq<Entry>, len: nat, i: int, c: int)
  {
    && len < |q| && 1 <= i && 2 * i <= len
    && (c == 2 * i || c == 2 * i + 1) && c <= len
    && AtMost(q[c].distance, q[2 * i].distance)
    && (2 * i + 1 <= len ==> AtMost(q[c].distance, q[2 * i + 1].distance))
  }

  /** The smaller child of slot `i`: the right one only when strictly smaller. */
  function SmallerChildOf(q: seq<Entry>, len: nat, i: int): (c: int)
    requires len < |q| && 1 <= i && 2 * i <= len
    ensures SmallerChild(q, len, i, c)
  {
    if 2 * i + 1 <= len && Below(q[2 * i + 1].distance, q[2 * i].distance) then 2 * i + 1 else 2 * i
  }

  /** A sift-down step: the hole moves from `i` to its smaller child `c`. */
  lemma SiftDownStep(q: seq<Entry>, len: nat, i: int, c: int)
    requires SmallerChild(q, len, i, c) && OrderedBelow(q, len, i)
    requires AtMost(q[c].distance, q[i].distance)
    ensures OrderedBelow(Swap(q, i, c), len, c)
  {
  }

  /**
   * The state of a sift-down with the hole at slot `i`: a location table,
   * the order broken at most below `i`, and the contents it started with.
   */
  ghost predicate Sinking(q: seq<Entry>, locs: seq<int>, len: nat, i: int, c: map<int, Dist>)
  {
    && len < |q| && 1 <= i
    && Located(q, locs, len) && OrderedBelow(q, len, i)
    && Contents(q, locs, len) == c
  }

  /**
   * Swapping the hole with its smaller child `c`, when that child is at most
   * the hole, moves the hole to `c` and keeps the contents.
   */
  lemma SinkStep(q: seq<Entry>, locs: seq<int>, len: nat, i: int, c: int, cs: map<int, Dist>)
    requires Sinking(q, locs, len, i, cs) && SmallerChild(q, len, i, c)
    requires AtMost(q[c].distance, q[i].distance)
    ensures var r := Swap(q, i, c);
      Sinking(r, locs[q[i].index := c][q[c].index := i], len, c, cs)
  {
    SiftDownStep(q, len, i, c);
    SwapKeepsLocated(q, locs, len, i, c);
  }

  /** A sift-down ends once the hole is below its smaller child. */
  lemma SinkStop(q: seq<Entry>, locs: seq<int>, len: nat, i: int, c: int, cs: map<int, Dist>)
    requires Sinking(q, locs, len, i, cs) && SmallerChild(q, len, i, c)
    requires Below(q[i].distance, q[c].distance)
    ensures Ordered(q, len)
  {
  }

  /** A sift-down also ends once the hole has no child. */
  lemma SiftDownDone(q: seq<Entry>, len: nat, i: int)
    requires len < |q| && OrderedBelow(q, len, i) && 1 <= i && len < 2 * i
    ensures Ordered(q, len)
  {
  }

  /** A sift-up step: the hole moves from `i` to its parent. */
  lemma SiftUpStep(q: seq<Entry>, len: nat, i: int)
    requires len < |q| && OrderedAbove(q, len, i) && 2 <= i <= len
    requires Below(q[i].distance, q[i / 2].distance)
    ensures OrderedAbove(Swap(q, i, i / 2), len, i / 2)
  {
  }

  /**
   * The state of a sift-up carrying entry `e` at slot `i`: a location table,
   * the order broken at most above `i`, and the contents it is to reach.
   */
  ghost predicate Rising(q: seq<Entry>, locs: seq<int>, len: nat, i: int, e: Entry, c: map<int, Dist>)
  {
    && len < |q| && 1 <= i <= len && q[i] == e
    && Located(q, locs, len) && OrderedAbove(q, len, i)
    && Contents(q, locs, len) == c
  }

  /** Swapping the carried entry with a larger parent moves it up one level. */
  lemma RiseStep(q: seq<Entry>, locs: seq<int>, len: nat, i: int, e: Entry, c: map<int, Dist>)
    requires Rising(q, locs, len, i, e, c) && i > 1
    requires Below(e.distance, q[i / 2].distance)
    ensures var r := Swap(q, i, i / 2);
      Rising(r, locs[q[i].index := i / 2][q[i / 2].index := i], len, i / 2, e, c)
  {
    SiftUpStep(q, len, i);
    SwapKeepsLocated(q, locs, len, i, i / 2);
  }

  /** A sift-up ends at the root, or when the parent is at most the entry. */
  lemma SiftUpDone(q: seq<Entry>, len: nat, i: int)
    requires len < |q| && OrderedAbove(q, len, i) && 1 <= i
    requires i > 1 && i <= len ==> AtMost(q[i / 2].distance, q[i].distance)
    ensures Ordered(q, len)
  {
  }

  lemma OnPathSelf(j: int)
    requires 1 <= j
    ensures OnPath(j, j)
  {
  }

  /** The parent of a slot on the path to `j` is on it too. */
  lemma {:induction false} OnPathUp(k: int, j: int)
    requires OnPath(k, j) && k > 1
    ensures OnPath(k / 2, j)
    decreases j
  {
    if k == j {
      OnPathSelf(k / 2);
    } else {
      OnPathUp(k, j / 2);
    }
  }

  // ---------------------------------------------------------------------
  // The heap a query starts from

  /** Where the setup loop puts vertex `v` when the source is `a`. */
  function InitialSlot(a: int, v: int): (k: int)
    ensures v == a ==> k == 1
    ensures 0 <= a && 0 <= v && v != a ==> 2 <= k <= v + 2
    ensures 0 <= a && 0 <= v ==> InitialVertex(a, k) == v
  {
    if v == a then 1 else if v < a then v + 2 else v + 1
  }

  /** The vertex the setup loop puts at slot `k`. */
  function InitialVertex(a: int, k: int): int
  {
    if k == 1 then a else if k <= a + 1 then k - 2 else k - 1
  }

  function InitialKey(a: int, v: int): Dist
  {
    if v == a then Fin(0) else Inf
  }

  /** The contents of the starting heap: the source at 0, everyone else at `Inf`. */
  ghost function InitialContents(a: int, n: nat): map<int, Dist>
  {
    map v | 0 <= v < n :: InitialKey(a, v)
  }

  /** The setup loop of both queries yields a heap of all `n` vertices. */
  lemma InitialIsHeap(q: seq<Entry>, locs: seq<int>, a: int, n: nat)
    requires |q| == n + 1 && |locs| == n && 0 <= a < n
    requires forall v :: 0 <= v < n ==> locs[v] == InitialSlot(a, v)
    requires forall k :: 1 <= k <= n ==> q[k] == Entry(InitialVertex(a, k), if k == 1 then Fin(0) else Inf)
    ensures IsHeap(q, locs, n) && Contents(q, locs, n) == InitialContents(a, n)
  {
    assert Located(q, locs, n);
  }
}
