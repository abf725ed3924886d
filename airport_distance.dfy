/**
 * The distance between two airports in whole statute miles
 * (inc/airport-functions.php, rdcoll_get_distance_between_airports).
 *
 * The spherical law of cosines on the two latitudes and longitudes, and the
 * conversion of its arc back to degrees, are floating-point trigonometry and
 * enter the model as a parameter: an `ArcDegrees` function giving the arc
 * between two airports in degrees. What the source does after that, scaling
 * degrees to miles and cutting the result to a non-negative integer with
 * absint, is modelled exactly on reals.
 */
module AirportDistance {
  import opened AirportDirectory

  /** Degrees of great-circle arc between two airports (acos of the law of cosines, in degrees). */
  type ArcDegrees = (Airport, Airport) -> real

  /** Nautical miles in one degree of arc. */
  const NauticalMilesPerDegree: real := 60.0
  /** Statute miles in one nautical mile, as the source writes it. */
  const StatuteMilesPerNauticalMile: real := 1.1515
  /** The most miles one leg can span: half the globe, 180 degrees of arc. */
  const MaxLegMiles: nat := 12436

  function Abs(x: real): real
  {
    if x < 0.0 then -x else x
  }

  /** absint: the integer part of `x`, truncated toward zero, without its sign. */
  function AbsInt(x: real): (r: nat)
    ensures r as real <= Abs(x) < r as real + 1.0
  {
    Abs(x).Floor
  }

  /** Statute miles spanned by an arc of `degrees`. */
  function Miles(degrees: real): (miles: real)
    ensures 0.0 <= degrees ==> 0.0 <= miles
    ensures degrees <= 180.0 ==> miles <= 180.0 * 69.09
    ensures 0.0 <= degrees < 1.0 / 69.09 ==> miles < 1.0
  {
    degrees * NauticalMilesPerDegree * StatuteMilesPerNauticalMile
  }

  /** Whole statute miles between `start` and `end`. */
  function LegDistance(arc: ArcDegrees, start: Airport, end: Airport): (miles: nat)
    ensures miles as real <= Abs(Miles(arc(start, end))) < miles as real + 1.0
  {
    AbsInt(Miles(arc(start, end)))
  }

  /** The arc function gives the same arc whichever end one starts from. */
  ghost predicate Symmetric(arc: ArcDegrees)
  {
    forall a, b :: arc(a, b) == arc(b, a)
  }

  /** An arc function that, like acos, never leaves [0, 180] degrees. */
  ghost predicate WithinHalfCircle(arc: ArcDegrees)
  {
    forall a, b :: 0.0 <= arc(a, b) <= 180.0
  }

  /** absint is the whole number of miles: it never exceeds the real value and misses it by less than one. */
  lemma AbsIntOfWhole(n: nat, frac: real)
    requires 0.0 <= frac < 1.0
    ensures AbsInt(n as real + frac) == n
    ensures AbsInt(-(n as real + frac)) == n
  {
  }

  /**
   * A leg from an airport to itself is zero miles whenever its arc is below
   * the width of one mile, as the tiny arc acos gives for a self-leg is.
   */
  lemma LegDistanceToSelf(arc: ArcDegrees, a: Airport)
    requires 0.0 <= arc(a, a) < 1.0 / 69.09
    ensures LegDistance(arc, a, a) == 0
  {
  }

  /** With a symmetric arc, flying a leg backwards covers the same miles. */
  lemma LegDistanceSymmetric(arc: ArcDegrees, a: Airport, b: Airport)
    requires Symmetric(arc)
    ensures LegDistance(arc, a, b) == LegDistance(arc, b, a)
  {
  }

  /** A leg within half a circle of arc is at most MaxLegMiles. */
  lemma LegDistanceBounded(arc: ArcDegrees, a: Airport, b: Airport)
    requires 0.0 <= arc(a, b) <= 180.0
    ensures LegDistance(arc, a, b) <= MaxLegMiles
  {
  }

  /** Whole miles grow with the arc: absint of a larger non-negative value is no smaller. */
  lemma LegDistanceMonotone(arc: ArcDegrees, a: Airport, b: Airport, c: Airport, d: Airport)
    requires 0.0 <= arc(a, b) <= arc(c, d)
    ensures LegDistance(arc, a, b) <= LegDistance(arc, c, d)
  {
  }
}
