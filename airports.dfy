/** The airport table as the searcher keeps it: rows without an IATA code
    are dropped at start-up, and a code is resolved to the first row that
    carries it. */
module Airports {
  import opened Schedule

  /** The rows whose IATA code is present, in load order. */
  function KnownAirports(table: seq<Airport>): (r: seq<Airport>)
    ensures forall a :: a in r <==> a in table && a.iataCode.Some?
    ensures |r| <= |table|
  {
    if table == [] then []
    else (if table[0].iataCode.Some? then [table[0]] else []) + KnownAirports(table[1..])
  }

  /** The first row carrying the code, or None when no row does. */
  function FirstAirport(airports: seq<Airport>, code: string): (r: Option<Airport>)
    ensures r.None? <==> forall i :: 0 <= i < |airports| ==> airports[i].iataCode != Some(code)
    ensures r.Some? ==> exists i :: 0 <= i < |airports| && airports[i] == r.value
                                    && r.value.iataCode == Some(code)
                                    && forall j :: 0 <= j < i ==> airports[j].iataCode != Some(code)
  {
    if airports == [] then None
    else if airports[0].iataCode == Some(code) then Some(airports[0])
    else
      var r := FirstAirport(airports[1..], code);
      assert r.Some? ==> exists i :: 1 <= i < |airports| && airports[i] == r.value
                                     && forall j :: 0 <= j < i ==> airports[j].iataCode != Some(code) by {
        if r.Some? {
          var i :| 0 <= i < |airports[1..]| && airports[1..][i] == r.value
                   && forall j :: 0 <= j < i ==> airports[1..][j].iataCode != Some(code);
          assert forall j :: 0 <= j < i + 1 ==> airports[j].iataCode != Some(code) by {
            forall j | 0 <= j < i + 1 ensures airports[j].iataCode != Some(code) {
              if j > 0 { assert airports[j] == airports[1..][j - 1]; }
            }
          }
        }
      }
      r
  }

  /** Dropping the rows without a code never changes which row a code
      resolves to, so the lookup on the filtered table returns the first row
      with that code in the original load order. */
  lemma {:induction false} FirstAirportIgnoresNulls(table: seq<Airport>, code: string)
    ensures FirstAirport(KnownAirports(table), code) == FirstAirport(table, code)
  {
    if table != [] {
      FirstAirportIgnoresNulls(table[1..], code);
      if table[0].iataCode.Some? {
        assert KnownAirports(table)[0] == table[0];
        assert KnownAirports(table)[1..] == KnownAirports(table[1..]);
      } else {
        assert KnownAirports(table) == KnownAirports(table[1..]);
      }
    }
  }
}
