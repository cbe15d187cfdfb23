/**
 * The heap entry of the search: a vertex index with its distance estimate
 * (class `DijkstraNode`), and its `compareTo`.
 */
module Nodes {
  import opened Distances

  /** The value of a node: vertex index and distance estimate. */
  datatype Entry = Entry(index: int, distance: Dist)

  const INT_MIN: int := -0x8000_0000
  const INT_MAX: int := 0x7fff_ffff

  predicate IsInt32(x: int)
  {
    INT_MIN <= x <= INT_MAX
  }

  /** Java's `int`. */
  type Int32 = x: int | IsInt32(x)

  /** Java's `int` subtraction wraps modulo 2^32. */
  function Wrap32(x: int): (r: int)
    ensures IsInt32(r)
    ensures IsInt32(x) ==> r == x
    ensures (x - r) % 0x1_0000_0000 == 0
  {
    (x - INT_MIN) % 0x1_0000_0000 + INT_MIN
  }

  /** Java's `(int)` cast of a double saturates at the ends of the `int` range. */
  function Clamp32(x: int): (r: int)
    ensures IsInt32(r)
    ensures x < 0 <==> r < 0
    ensures x > 0 <==> r > 0
    ensures IsInt32(x) ==> r == x
    ensures x < INT_MIN ==> r == INT_MIN
    ensures x > INT_MAX ==> r == INT_MAX
  {
    if x < INT_MIN then INT_MIN else if x > INT_MAX then INT_MAX else x
  }

  /**
   * `compareTo`: equal distances compare by index difference (an `int`
   * subtraction); otherwise the distance difference is cast to `int`.
   * `Double.MAX_VALUE` minus a finite distance casts to `INT_MAX`, the
   * reverse to `INT_MIN`.
   */
  function Compare(x: Entry, y: Entry): (r: int)
    ensures IsInt32(r)
  {
    if x.distance == y.distance then Wrap32(x.index - y.index)
    else if x.distance.Inf? then INT_MAX
    else if y.distance.Inf? then INT_MIN
    else Clamp32(x.distance.value - y.distance.value)
  }

  function Sign(x: int): int
  {
    if x < 0 then -1 else if x > 0 then 1 else 0
  }

  /** Every node compares equal to itself. */
  lemma CompareReflexive(x: Entry)
    ensures Compare(x, x) == 0
  {
  }

  /** With equal distances the result is exactly the index difference. */
  lemma CompareTiesByIndex(x: Entry, y: Entry)
    requires x.distance == y.distance
    requires 0 <= x.index <= INT_MAX && 0 <= y.index <= INT_MAX
    ensures Compare(x, y) == x.index - y.index
  {
  }

  /** Distinct distances: the sign of the result is the distance order. */
  lemma CompareFollowsDistance(x: Entry, y: Entry)
    requires x.distance != y.distance
    ensures Compare(x, y) < 0 <==> Below(x.distance, y.distance)
    ensures Compare(x, y) > 0 <==> Below(y.distance, x.distance)
  {
  }

  /** For vertex indices (non-negative `int`s) the comparison is antisymmetric. */
  lemma CompareAntisymmetric(x: Entry, y: Entry)
    requires 0 <= x.index <= INT_MAX && 0 <= y.index <= INT_MAX
    ensures Sign(Compare(x, y)) == -Sign(Compare(y, x))
  {
    if x.distance == y.distance {
      CompareTiesByIndex(x, y);
      CompareTiesByIndex(y, x);
    } else {
      CompareFollowsDistance(x, y);
      CompareFollowsDistance(y, x);
    }
  }

  /** The result is 0 exactly for identical nodes, as the doc comment says. */
  lemma CompareZeroIffEqual(x: Entry, y: Entry)
    requires IsInt32(x.index) && IsInt32(y.index)
    ensures Compare(x, y) == 0 <==> x == y
  {
    if x.distance == y.distance {
      var d := x.index - y.index;
      assert -0x1_0000_0000 < d < 0x1_0000_0000;
      if Wrap32(d) == 0 {
        var m := (d - INT_MIN) % 0x1_0000_0000;
        assert m == -INT_MIN;
        assert d == 0;
      }
    } else {
      CompareFollowsDistance(x, y);
    }
  }

  /**
   * A `DijkstraNode`: a vertex index and its distance estimate, both
   * mutable through setters.
   */
  class DijkstraNode {
    var index: Int32
    var distance: Dist

    /** The node's current value. */
    function Value(): Entry
      reads this
    {
      Entry(index, distance)
    }

    /** Stores exactly the given index and distance. */
    constructor (index: Int32, distance: Dist)
      ensures Value() == Entry(index, distance)
    {
      this.index := index;
      this.distance := distance;
    }

    /**
     * The "copy" constructor as written: it copies the index, and sets the
     * distance from the index too, not from `orig.distance`.
     */
    constructor Copy(orig: DijkstraNode)
      ensures Value() == Entry(orig.index, Fin(orig.index))
      ensures Value() == orig.Value() <==> orig.distance == Fin(orig.index)
    {
      this.index := orig.index;
      this.distance := Fin(orig.index);
    }

    function GetIndex(): (r: Int32)
      reads this
      ensures r == Value().index
    {
      index
    }

    /** Sets the index; the distance stays. */
    method SetIndex(index: Int32)
      modifies this
      ensures GetIndex() == index
      ensures GetDistance() == old(GetDistance())
    {
      this.index := index;
    }

    function GetDistance(): (r: Dist)
      reads this
      ensures r == Value().distance
    {
      distance
    }

    /** Sets the distance; the index stays. */
    method SetDistance(distance: Dist)
      modifies this
      ensures GetDistance() == distance
      ensures GetIndex() == old(GetIndex())
    {
      this.distance := distance;
    }

    /** `compareTo` on the two nodes' current values. */
    function CompareTo(other: DijkstraNode): (r: int)
      reads this, other
      ensures this == other ==> r == 0
      ensures r == 0 <==> Value() == other.Value()
    {
      CompareZeroIffEqual(Value(), other.Value());
      Compare(Value(), other.Value())
    }
  }
}
