/**
 * The airport directory: a static table of positional rows and the linear
 * search that turns an airport code into an airport record
 * (inc/airport-functions.php, rdcoll_get_airport_by_code).
 */
module AirportDirectory {
  import opened Wrappers

  /** Number of positional columns in a row of the airport table. */
  const RowWidth := 9
  /** Column holding the airport code, the lookup key. */
  const CodeColumn := 4
  /** Column the table carries but the lookup never copies into a record. */
  const UnusedColumn := 5

  /**
   * One row of the airport table:
   * [id, name, city, country, code, unused, latitude, longitude, altitude],
   * every cell kept as the text the table holds.
   */
  type Row = r: seq<string> | |r| == RowWidth witness ["", "", "", "", "", "", "", "", ""]

  /** The airport record built from a matching row. */
  datatype Airport = Airport(
    id: string,
    name: string,
    city: string,
    country: string,
    code: string,
    latitude: string,
    longitude: string,
    altitude: string)

  /** The record the lookup builds from row `d`: every column except the unused one, by position. */
  function FromRow(d: Row): (a: Airport)
    ensures ToRow(a, d[UnusedColumn]) == d
  {
    Airport(d[0], d[1], d[2], d[3], d[4], d[6], d[7], d[8])
  }

  /** A table row for airport `a`, carrying `unused` in the column the lookup ignores. */
  function ToRow(a: Airport, unused: string): Row
  {
    [a.id, a.name, a.city, a.country, a.code, unused, a.latitude, a.longitude, a.altitude]
  }

  /** Every column except the unused one reaches the record, and the unused one does not. */
  lemma FromRowDependsOnlyOnUsedColumns(d1: Row, d2: Row)
    ensures FromRow(d1) == FromRow(d2) <==>
      forall c :: 0 <= c < RowWidth && c != UnusedColumn ==> d1[c] == d2[c]
  {
  }

  /** Building a row from a record and reading it back gives the record again. */
  lemma FromRowToRow(a: Airport, unused: string)
    ensures FromRow(ToRow(a, unused)) == a
    ensures ToRow(a, unused)[CodeColumn] == a.code
  {
  }

  /** Row `i` is the first row of `table` whose code column equals `code`. */
  predicate IsFirstMatch(table: seq<Row>, code: string, i: int)
  {
    && 0 <= i < |table|
    && table[i][CodeColumn] == code
    && forall j :: 0 <= j < i ==> table[j][CodeColumn] != code
  }

  /**
   * The lookup's specification: the record built from the first row whose code
   * column equals `code`, or None when no row matches.
   */
  function Lookup(table: seq<Row>, code: string): (r: Option<Airport>)
    ensures r.None? <==> forall i :: 0 <= i < |table| ==> table[i][CodeColumn] != code
    ensures r.Some? ==> exists i :: IsFirstMatch(table, code, i) && r.value == FromRow(table[i])
    decreases |table|
  {
    if table == [] then None
    else if table[0][CodeColumn] == code then
      assert IsFirstMatch(table, code, 0);
      Some(FromRow(table[0]))
    else
      var r := Lookup(table[1..], code);
      assert r.Some? ==> exists i :: IsFirstMatch(table, code, i) && r.value == FromRow(table[i]) by {
        if r.Some? {
          var k :| IsFirstMatch(table[1..], code, k) && r.value == FromRow(table[1..][k]);
          assert IsFirstMatch(table, code, k + 1);
        }
      }
      r
  }

  /** The first match decides: rows after it, whatever they hold, are never consulted. */
  lemma {:induction false} LookupIgnoresLaterRows(table: seq<Row>, rest: seq<Row>, code: string)
    requires Lookup(table, code).Some?
    ensures Lookup(table + rest, code) == Lookup(table, code)
    decreases |table|
  {
    assert (table + rest)[0] == table[0];
    if table[0][CodeColumn] != code {
      assert (table + rest)[1..] == table[1..] + rest;
      LookupIgnoresLaterRows(table[1..], rest, code);
    }
  }

  /**
   * The linear search of the source: walk the table in order and return the
   * record of the first row whose code column equals `code`; None when the
   * walk ends without a match.
   */
  method GetAirportByCode(table: seq<Row>, code: string) returns (r: Option<Airport>)
    ensures r == Lookup(table, code)
  {
    var i := 0;
    while i < |table|
      invariant 0 <= i <= |table|
      invariant Lookup(table[i..], code) == Lookup(table, code)
    {
      var d := table[i];
      if d[CodeColumn] == code {
        return Some(FromRow(d));
      }
      assert table[i..][1..] == table[i + 1..];
      i := i + 1;
    }
    return None;
  }
}
