/**
 * Distance estimates. The Java code keeps them in `double`s and uses
 * `Double.MAX_VALUE` for "no path found yet"; here a distance is an exact
 * integer or the sentinel `Inf`.
 */
module Distances {

  /** A distance: a finite value, or `Inf` standing for `Double.MAX_VALUE`. */
  datatype Dist = Fin(value: int) | Inf

  /** The strict order `<` on distances; `Inf` is above every finite value. */
  predicate Below(x: Dist, y: Dist)
  {
    match x
    case Inf => false
    case Fin(a) => y.Inf? || a < y.value
  }

  /** The order `<=` on distances. */
  predicate AtMost(x: Dist, y: Dist)
  {
    !Below(y, x)
  }

  /**
   * `x + w` for a non-negative weight `w`. `Double.MAX_VALUE + w` rounds
   * back to `Double.MAX_VALUE`, so `Inf` absorbs every weight.
   */
  function Plus(x: Dist, w: nat): (r: Dist)
    ensures AtMost(x, r)
  {
    match x
    case Inf => Inf
    case Fin(a) => Fin(a + w)
  }

  /** `Inf` absorbs every weight, and a finite estimate grows by exactly the weight. */
  lemma PlusAbsorbs(x: Dist, w: nat)
    ensures Plus(x, w).Inf? <==> x.Inf?
    ensures x.Fin? ==> Plus(x, w).value - x.value == w
  {
  }

  /** `Math.min` on distances. */
  function Min(x: Dist, y: Dist): (r: Dist)
    ensures AtMost(r, x) && AtMost(r, y)
    ensures r == x || r == y
  {
    if Below(y, x) then y else x
  }
}
