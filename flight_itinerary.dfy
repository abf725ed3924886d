/**
 * The flight itinerary: resolve an ordered list of airport codes against the
 * airport table, add up the miles of consecutive legs, take the first and last
 * stops as departure and arrival, and build the display string of linked codes
 * (inc/airport-functions.php, rdcoll_get_flight_data).
 */
module FlightItinerary {
  import opened Wrappers
  import opened AirportDirectory
  import opened AirportDistance
  import opened CodesDisplay

  /**
   * The result of one call. `airports` keeps one entry per code, None where the
   * source stores `false` for a code the table lacks.
   */
  datatype FlightData = FlightData(
    airports: seq<Option<Airport>>,
    distance: nat,
    departure: Option<Airport>,
    arrival: Option<Airport>,
    codes: seq<string>,
    codesDisplay: string)

  /** Each code's lookup result, in the order of the codes. */
  function Resolve(table: seq<Row>, codes: seq<string>): (airports: seq<Option<Airport>>)
    ensures |airports| == |codes|
    ensures forall i :: 0 <= i < |codes| ==> airports[i] == Lookup(table, codes[i])
  {
    seq(|codes|, i requires 0 <= i < |codes| => Lookup(table, codes[i]))
  }

  /** Every entry of `airports` was found in the table. */
  predicate AllResolved(airports: seq<Option<Airport>>)
  {
    forall i :: 0 <= i < |airports| ==> airports[i].Some?
  }

  /** The airport records of a fully resolved list, in order. */
  function Stops(airports: seq<Option<Airport>>): (stops: seq<Airport>)
    requires AllResolved(airports)
    ensures |stops| == |airports|
    ensures forall i :: 0 <= i < |airports| ==> airports[i] == Some(stops[i])
  {
    seq(|airports|, i requires 0 <= i < |airports| => airports[i].value)
  }

  /** The miles of each leg between consecutive stops, in order. */
  function Legs(stops: seq<Airport>, arc: ArcDegrees): (legs: seq<nat>)
    ensures |legs| == if stops == [] then 0 else |stops| - 1
    ensures forall i :: 0 <= i < |legs| ==> legs[i] == LegDistance(arc, stops[i], stops[i + 1])
  {
    if |stops| <= 1 then []
    else seq(|stops| - 1, i requires 0 <= i < |stops| - 1 => LegDistance(arc, stops[i], stops[i + 1]))
  }

  function Sum(xs: seq<nat>): nat
    decreases |xs|
  {
    if xs == [] then 0 else Sum(xs[..|xs| - 1]) + xs[|xs| - 1]
  }

  /** The miles of a whole trip: the sum of its legs. */
  function TotalDistance(stops: seq<Airport>, arc: ArcDegrees): nat
  {
    Sum(Legs(stops, arc))
  }

  /**
   * The miles the source totals for a list of lookup results: none for a
   * single entry, found or not, since no leg is measured; otherwise the legs
   * between the resolved airports.
   */
  function TripDistance(airports: seq<Option<Airport>>, arc: ArcDegrees): nat
    requires |airports| <= 1 || AllResolved(airports)
  {
    if |airports| <= 1 then 0 else TotalDistance(Stops(airports), arc)
  }

  function Reverse<T>(s: seq<T>): (r: seq<T>)
    ensures |r| == |s|
    ensures forall i :: 0 <= i < |s| ==> r[i] == s[|s| - 1 - i]
  {
    seq(|s|, i requires 0 <= i < |s| => s[|s| - 1 - i])
  }

  lemma {:induction false} SumConcat(xs: seq<nat>, ys: seq<nat>)
    ensures Sum(xs + ys) == Sum(xs) + Sum(ys)
    decreases |ys|
  {
    if ys == [] {
      assert xs + ys == xs;
    } else {
      var init := ys[..|ys| - 1];
      assert (xs + ys)[..|xs + ys| - 1] == xs + init;
      SumConcat(xs, init);
    }
  }

  lemma {:induction false} SumReverse(xs: seq<nat>)
    ensures Sum(Reverse(xs)) == Sum(xs)
    decreases |xs|
  {
    if xs != [] {
      var n := |xs|;
      var init := xs[..n - 1];
      assert Reverse(xs) == [xs[n - 1]] + Reverse(init);
      SumConcat([xs[n - 1]], Reverse(init));
      assert [xs[n - 1]][..0] == [];
      SumReverse(init);
    }
  }

  lemma {:induction false} SumBounded(xs: seq<nat>, m: nat)
    requires forall i :: 0 <= i < |xs| ==> xs[i] <= m
    ensures Sum(xs) <= m * |xs|
    decreases |xs|
  {
    if xs != [] {
      SumBounded(xs[..|xs| - 1], m);
      assert m * |xs| == m * (|xs| - 1) + m;
    }
  }

  /** A one-stop trip has no legs and covers no miles, whether or not its one code was found. */
  lemma TotalDistanceOfOneStop(a: Airport, entry: Option<Airport>, arc: ArcDegrees)
    ensures Legs([a], arc) == []
    ensures TotalDistance([a], arc) == 0
    ensures TripDistance([entry], arc) == 0
  {
  }

  /** Adding a stop at the end adds the miles of the new last leg. */
  lemma TotalDistanceAppend(stops: seq<Airport>, b: Airport, arc: ArcDegrees)
    requires stops != []
    ensures TotalDistance(stops + [b], arc) == TotalDistance(stops, arc) + LegDistance(arc, stops[|stops| - 1], b)
  {
    var legs := Legs(stops + [b], arc);
    assert legs[..|legs| - 1] == Legs(stops, arc);
  }

  /** A stopover splits a trip: the miles up to stop k plus the miles from stop k are the whole. */
  lemma TotalDistanceSplit(stops: seq<Airport>, k: nat, arc: ArcDegrees)
    requires k < |stops|
    ensures TotalDistance(stops, arc) == TotalDistance(stops[..k + 1], arc) + TotalDistance(stops[k..], arc)
  {
    var all, left, right := Legs(stops, arc), Legs(stops[..k + 1], arc), Legs(stops[k..], arc);
    assert |left| == k && |right| == |stops| - 1 - k;
    forall i | 0 <= i < |all|
      ensures all[i] == (left + right)[i]
    {
      if i >= k {
        assert stops[k..][i - k] == stops[i] && stops[k..][i - k + 1] == stops[i + 1];
      }
    }
    assert all == left + right;
    SumConcat(left, right);
  }

  /** With a symmetric arc, the trip flown in reverse covers the same miles. */
  lemma TotalDistanceReverse(stops: seq<Airport>, arc: ArcDegrees)
    requires Symmetric(arc)
    ensures TotalDistance(Reverse(stops), arc) == TotalDistance(stops, arc)
  {
    var legs := Legs(stops, arc);
    forall i | 0 <= i < |legs|
      ensures Legs(Reverse(stops), arc)[i] == Reverse(legs)[i]
    {
      LegDistanceSymmetric(arc, stops[|stops| - 1 - i], stops[|stops| - 2 - i]);
    }
    assert Legs(Reverse(stops), arc) == Reverse(legs);
    SumReverse(legs);
  }

  /** When every arc stays within half a circle, a trip of n stops covers at most n - 1 times MaxLegMiles. */
  lemma TotalDistanceBounded(stops: seq<Airport>, arc: ArcDegrees)
    requires stops != []
    requires WithinHalfCircle(arc)
    ensures TotalDistance(stops, arc) <= MaxLegMiles * (|stops| - 1)
  {
    var legs := Legs(stops, arc);
    forall i | 0 <= i < |legs|
      ensures legs[i] <= MaxLegMiles
    {
      LegDistanceBounded(arc, stops[i], stops[i + 1]);
    }
    SumBounded(legs, MaxLegMiles);
  }

  /** The foreach of the source: look every code up, in order, keeping misses as None. */
  method ResolveCodes(table: seq<Row>, codes: seq<string>) returns (airports: seq<Option<Airport>>)
    ensures |airports| == |codes|
    ensures forall i :: 0 <= i < |codes| ==> airports[i] == Lookup(table, codes[i])
    ensures AllResolved(airports) <==> forall i :: 0 <= i < |codes| ==> Lookup(table, codes[i]).Some?
  {
    airports := [];
    for i := 0 to |codes|
      invariant |airports| == i
      invariant forall k :: 0 <= k < i ==> airports[k] == Lookup(table, codes[k])
    {
      var airport := GetAirportByCode(table, codes[i]);
      airports := airports + [airport];
    }
  }

  /**
   * The for loop of the source: add up the miles of each leg between
   * consecutive airports. A single entry is never read, so it may be a miss.
   */
  method SumLegDistances(airports: seq<Option<Airport>>, arc: ArcDegrees) returns (distance: nat)
    requires |airports| <= 1 || AllResolved(airports)
    ensures distance == TripDistance(airports, arc)
  {
    ghost var legs := if AllResolved(airports) then Legs(Stops(airports), arc) else [];
    distance := 0;
    var i := 0;
    while i + 1 < |airports|
      invariant 0 <= i <= |legs|
      invariant !AllResolved(airports) ==> i == 0
      invariant distance == Sum(legs[..i])
    {
      distance := distance + LegDistance(arc, airports[i].value, airports[i + 1].value);
      assert legs[..i + 1][..i] == legs[..i];
      i := i + 1;
    }
    assert AllResolved(airports) ==> legs[..i] == legs;
  }

  /**
   * The display loop of the source: append link + arrow for every code, then
   * rtrim the arrow's characters off the end.
   */
  method BuildCodesDisplay(codes: seq<string>) returns (display: string)
    ensures display == Display(codes)
  {
    display := "";
    for i := 0 to |codes|
      invariant display == Terminated(Links(codes[..i]), Arrow)
    {
      assert Links(codes[..i + 1])[..i] == Links(codes[..i]);
      display := display + Link(codes[i]) + Arrow;
    }
    assert codes[..|codes|] == codes;
    if codes != [] {
      RTrimOfLinksIsDisplay(codes);
    }
    display := RTrim(display, ArrowMask);
  }

  /**
   * rdcoll_get_flight_data: resolve the codes, total the leg distances, take
   * the first and last airports as departure and arrival, keep the codes, and
   * build the display string.
   */
  method GetFlightData(table: seq<Row>, codes: seq<string>, arc: ArcDegrees) returns (data: FlightData)
    requires codes != []
    requires |codes| == 1 || forall i :: 0 <= i < |codes| ==> Lookup(table, codes[i]).Some?
    ensures data.airports == Resolve(table, codes)
    ensures data.distance == TripDistance(Resolve(table, codes), arc)
    ensures data.departure == Lookup(table, codes[0])
    ensures data.arrival == Lookup(table, codes[|codes| - 1])
    ensures data.codes == codes
    ensures data.codesDisplay == Display(codes)
  {
    var airports := ResolveCodes(table, codes);
    assert airports == Resolve(table, codes);
    var distance := SumLegDistances(airports, arc);
    var display := BuildCodesDisplay(codes);
    data := FlightData(airports, distance, airports[0], airports[|airports| - 1], codes, display);
  }
}
