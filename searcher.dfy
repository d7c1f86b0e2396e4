/** The route searcher: the state it keeps (filtered airport table, flight
    catalog), the catalog append, and search_route as an imperative method
    proved equal to the specification function Search, together with the
    properties proved about Search. */
module Searcher {
  import opened Schedule
  import opened Loading
  import opened Airports
  import opened Expansion
  import opened Reconstruction

  /** search_route as a function of the catalog: the window, the round at
      which the expansion stops, and, when its frontier is not empty, the
      chosen walk reversed and resolved to airport rows. */
  function Search(catalog: seq<Flight>, airports: seq<Airport>, nearFrom: set<string>, nearTo: set<string>,
                  date: int, test: PreviousTest): Outcome
    requires DepartsBeforeArrives(Window(catalog, date))
  {
    var w := Window(catalog, date);
    var k := FirstStop(w, nearFrom, nearTo, date, 0);
    var s := StageAt(w, nearFrom, date, k);
    if s.frontier == [] then NotFound
    else
      FinalChoice(w, nearFrom, nearTo, date, k, test);
      Resolve(airports, Reverse(Select(s.arena, Candidates(s.frontier, nearTo), test).route.value))
  }

  /** When the loop stops on a non-empty frontier, the reconstruction always
      chooses a walk: there is a candidate, and every walk waits at most the
      2880 minutes of the window, below the starting ten days. */
  lemma FinalChoice(w: seq<Flight>, nearFrom: set<string>, nearTo: set<string>, date: int, k: nat, test: PreviousTest)
    requires DepartsBeforeArrives(w) && forall f :: f in w ==> InWindow(f, date)
    requires Stops(StageAt(w, nearFrom, date, k).frontier, nearTo)
    requires StageAt(w, nearFrom, date, k).frontier != []
    ensures var s := StageAt(w, nearFrom, date, k);
      && BackLinked(s.arena)
      && AllPointInto(Candidates(s.frontier, nearTo), |s.arena|)
      && Candidates(s.frontier, nearTo) != []
      && Select(s.arena, Candidates(s.frontier, nearTo), test).route.Some?
  {
    var s := StageAt(w, nearFrom, date, k);
    var cands := Candidates(s.frontier, nearTo);
    StageValidAt(w, nearFrom, date, k);
    StageBackLinked(s, w, nearFrom, date);
    var i :| 0 <= i < |s.frontier| && s.frontier[i].flight.dest in nearTo;
    ChainFacts(s, i, test, w, nearFrom, date);
    var c := Chain(s.arena, s.frontier[i], test);
    assert c[0] in w && c[|c| - 1] in w;
    assert Layover(c) < InitialMinWait;
    assert s.frontier[i] in cands;
    SelectFindsShortWalk(s.arena, cands, test, s.frontier[i]);
  }

  /** The walk a found route is made from: the route lists its flights in
      chronological order, the reverse of a walk from a candidate of the
      stopping round. */
  lemma FoundRouteWalk(catalog: seq<Flight>, airports: seq<Airport>, nearFrom: set<string>, nearTo: set<string>,
                       date: int, test: PreviousTest)
      returns (s: Stage, cands: seq<Node>, m: nat)
    requires DepartsBeforeArrives(Window(catalog, date))
    requires Search(catalog, airports, nearFrom, nearTo, date, test).Found?
    ensures var w := Window(catalog, date);
      && s == StageAt(w, nearFrom, date, FirstStop(w, nearFrom, nearTo, date, 0))
      && cands == Candidates(s.frontier, nearTo)
      && StageValid(s, w, nearFrom, date)
      && BackLinked(s.arena) && AllPointInto(cands, |s.arena|)
      && m < |cands|
      && Select(s.arena, cands, test).route == Some(Chain(s.arena, cands[m], test))
      && Search(catalog, airports, nearFrom, nearTo, date, test) == Resolve(airports, Reverse(Chain(s.arena, cands[m], test)))
      && LegFlights(Search(catalog, airports, nearFrom, nearTo, date, test).legs) == Reverse(Chain(s.arena, cands[m], test))
      && FirstMinimumAt(s.arena, cands, test, m)
  {
    var w := Window(catalog, date);
    var k := FirstStop(w, nearFrom, nearTo, date, 0);
    s := StageAt(w, nearFrom, date, k);
    cands := Candidates(s.frontier, nearTo);
    FinalChoice(w, nearFrom, nearTo, date, k, test);
    StageValidAt(w, nearFrom, date, k);
    var walk := Select(s.arena, cands, test).route.value;
    assert Search(catalog, airports, nearFrom, nearTo, date, test) == Resolve(airports, Reverse(walk));
    ResolvedFlights(airports, Reverse(walk));
    m := PickFirstMinimum(s.arena, cands, test);
  }

  /** Leg i + 1 leaves from the airport where leg i landed, between one
      hour and one day after it landed. */
  predicate LegConnects(legs: seq<Leg>, i: int)
  {
    && 0 <= i < |legs| - 1
    && legs[i + 1].departureIata == legs[i].arrivalIata
    && MinConnection <= legs[i + 1].departure - legs[i].arrival <= MaxConnection
  }

  /** A found route is a connected itinerary of catalog flights inside the
      window: it has at least one leg, its last leg lands at a
      near-destination airport, each leg leaves from where the previous one
      landed between one hour and one day after it, each end is the first
      airport row with that code, and the total layover is at least an hour
      per connection and at most two days. Its first leg is a layer-0 flight
      from a near-origin airport, except that with the as-written test the
      walk may stop one flight short of such a layer-0 flight. */
  lemma FoundRouteShape(catalog: seq<Flight>, airports: seq<Airport>, nearFrom: set<string>, nearTo: set<string>,
                        date: int, test: PreviousTest)
    requires DepartsBeforeArrives(Window(catalog, date))
    requires Search(catalog, airports, nearFrom, nearTo, date, test).Found?
    ensures var legs := Search(catalog, airports, nearFrom, nearTo, date, test).legs;
      && |legs| >= 1
      && legs[|legs| - 1].arrivalIata in nearTo
      && LegsInWindow(catalog, date, legs)
      && LegsChained(legs)
      && LegsWithFirstRows(airports, legs)
      && LayoverBounded(legs)
      && StartsNear(catalog, nearFrom, date, test, FlightOf(legs[0]))
  {
    var w, c, legs := FoundRouteLegs(catalog, airports, nearFrom, nearTo, date, test);
    WalkLegs(catalog, airports, w, nearFrom, nearTo, date, test, c, legs);
  }

  /** A found route: the legs resolved from a well-chained walk of window
      flights that ends at a near-destination airport. */
  lemma FoundRouteLegs(catalog: seq<Flight>, airports: seq<Airport>, nearFrom: set<string>, nearTo: set<string>,
                       date: int, test: PreviousTest)
      returns (w: seq<Flight>, c: seq<Flight>, legs: seq<Leg>)
    requires DepartsBeforeArrives(Window(catalog, date))
    requires Search(catalog, airports, nearFrom, nearTo, date, test).Found?
    ensures Search(catalog, airports, nearFrom, nearTo, date, test) == Found(legs)
    ensures forall f :: f in w <==> f in catalog && InWindow(f, date)
    ensures WellChained(c, w, nearFrom, date, test) && c[0].dest in nearTo
    ensures MinConnection * (|c| - 1) <= Layover(c) <= c[0].departure - c[|c| - 1].departure
    ensures Resolve(airports, Reverse(c)) == Found(legs)
  {
    w := Window(catalog, date);
    var s, cands, m := FoundRouteWalk(catalog, airports, nearFrom, nearTo, date, test);
    assert cands[m] in s.frontier;
    var i :| 0 <= i < |s.frontier| && s.frontier[i] == cands[m];
    ChainFacts(s, i, test, w, nearFrom, date);
    c := Chain(s.arena, cands[m], test);
    legs := Resolve(airports, Reverse(c)).legs;
  }

  /** Every leg is a catalog flight inside the window. */
  predicate LegsInWindow(catalog: seq<Flight>, date: int, legs: seq<Leg>)
  {
    forall i :: 0 <= i < |legs| ==> FlightOf(legs[i]) in catalog && InWindow(FlightOf(legs[i]), date)
  }

  /** Each leg leaves from where the previous one landed, one hour to one
      day after it. */
  predicate LegsChained(legs: seq<Leg>)
  {
    forall i :: 0 <= i < |legs| - 1 ==> LegConnects(legs, i)
  }

  /** Both ends of every leg carry the first airport row with their code. */
  predicate LegsWithFirstRows(airports: seq<Airport>, legs: seq<Leg>)
  {
    forall i :: 0 <= i < |legs| ==>
      && FirstAirport(airports, legs[i].departureIata) == Some(legs[i].departureAirport)
      && FirstAirport(airports, legs[i].arrivalIata) == Some(legs[i].arrivalAirport)
  }

  /** f is a layer-0 flight from a near-origin airport, or, with the
      as-written test only, a flight that connects out of such a flight of
      the catalog inside the window. */
  predicate StartsNear(catalog: seq<Flight>, nearFrom: set<string>, date: int, test: PreviousTest, f: Flight)
  {
    || IsRootFlight(f, nearFrom, date)
    || (test == Truthiness
        && exists r :: r in catalog && InWindow(r, date) && IsRootFlight(r, nearFrom, date) && Connects(r, f))
  }

  /** The first flight of a walk of window flights starts near the origin. */
  lemma WalkStartsNear(catalog: seq<Flight>, w: seq<Flight>, nearFrom: set<string>, date: int,
                       test: PreviousTest, c: seq<Flight>)
    requires forall f :: f in w <==> f in catalog && InWindow(f, date)
    requires WellChained(c, w, nearFrom, date, test)
    ensures StartsNear(catalog, nearFrom, date, test, c[|c| - 1])
  {
    if !IsRootFlight(c[|c| - 1], nearFrom, date) {
      var r :| r in w && IsRootFlight(r, nearFrom, date) && Connects(r, c[|c| - 1]);
      assert r in catalog && InWindow(r, date);
    }
  }

  /** The total layover is at least an hour per connection and at most the
      two days of the window. */
  predicate LayoverBounded(legs: seq<Leg>)
  {
    MinConnection * (|legs| - 1) <= TotalLayover(LegFlights(legs)) <= SearchWindow
  }

  /** The layover bounds of a walk carry over to its resolved legs. */
  lemma WalkLayover(c: seq<Flight>, legs: seq<Leg>, date: int)
    requires |c| >= 1 && c[0].departure - c[|c| - 1].departure <= SearchWindow
    requires MinConnection * (|c| - 1) <= Layover(c) <= c[0].departure - c[|c| - 1].departure
    requires LegFlights(legs) == Reverse(c)
    ensures LayoverBounded(legs)
  {
    LayoverReversed(c);
  }

  /** The legs resolved from a well-chained walk that ends at a
      near-destination airport, stated leg by leg in chronological order. */
  lemma WalkLegs(catalog: seq<Flight>, airports: seq<Airport>, w: seq<Flight>, nearFrom: set<string>,
                 nearTo: set<string>, date: int, test: PreviousTest, c: seq<Flight>, legs: seq<Leg>)
    requires forall f :: f in w <==> f in catalog && InWindow(f, date)
    requires WellChained(c, w, nearFrom, date, test) && c[0].dest in nearTo
    requires MinConnection * (|c| - 1) <= Layover(c) <= c[0].departure - c[|c| - 1].departure
    requires Resolve(airports, Reverse(c)) == Found(legs)
    ensures
      && |legs| >= 1
      && legs[|legs| - 1].arrivalIata in nearTo
      && LegsInWindow(catalog, date, legs)
      && LegsChained(legs)
      && LegsWithFirstRows(airports, legs)
      && LayoverBounded(legs)
      && StartsNear(catalog, nearFrom, date, test, FlightOf(legs[0]))
  {
    LegsOfReversedWalk(airports, c, legs);
    ReversedWalkConnects(c, legs);
    ReversedWalkInWindow(catalog, w, date, c, legs);
    ResolvedFlights(airports, Reverse(c));
    var n := |c|;
    assert c[0] in w && c[n - 1] in w;
    assert c[0].departure - c[n - 1].departure <= SearchWindow;
    WalkLayover(c, legs, date);
    WalkStartsNear(catalog, w, nearFrom, date, test, c);
    assert FlightOf(legs[0]) == c[n - 1];
    assert FlightOf(legs[n - 1]) == c[0];
  }

  /** The legs of a resolved walk are its flights back to front, each with
      its first airport rows. */
  lemma LegsOfReversedWalk(airports: seq<Airport>, c: seq<Flight>, legs: seq<Leg>)
    requires Resolve(airports, Reverse(c)) == Found(legs)
    ensures |legs| == |c|
    ensures forall q :: 0 <= q < |c| ==> FlightOf(legs[q]) == c[|c| - 1 - q]
    ensures LegsWithFirstRows(airports, legs)
  {
    var r := Reverse(c);
    ResolveMeaning(airports, r);
    assert AllDescribed(airports, legs, r);
    forall q | 0 <= q < |c| ensures FlightOf(legs[q]) == c[|c| - 1 - q] {
      assert Describes(airports, legs[q], r[q]);
    }
  }

  /** Consecutive legs of a reversed walk connect. */
  lemma ReversedWalkConnects(c: seq<Flight>, legs: seq<Leg>)
    requires |legs| == |c|
    requires forall q :: 0 <= q < |c| ==> FlightOf(legs[q]) == c[|c| - 1 - q]
    requires forall i :: 0 <= i < |c| - 1 ==> StepConnects(c, i)
    ensures LegsChained(legs)
  {
    var n := |c|;
    forall q | 0 <= q < n - 1 ensures LegConnects(legs, q) {
      assert StepConnects(c, n - 2 - q);
      assert FlightOf(legs[q]) == c[n - 1 - q] && FlightOf(legs[q + 1]) == c[n - 2 - q];
    }
  }

  /** The legs of a reversed walk of window flights are catalog flights in the window. */
  lemma ReversedWalkInWindow(catalog: seq<Flight>, w: seq<Flight>, date: int, c: seq<Flight>, legs: seq<Leg>)
    requires forall f :: f in w <==> f in catalog && InWindow(f, date)
    requires |legs| == |c|
    requires forall q :: 0 <= q < |c| ==> FlightOf(legs[q]) == c[|c| - 1 - q]
    requires forall i :: 0 <= i < |c| ==> c[i] in w
    ensures LegsInWindow(catalog, date, legs)
  {
    forall q | 0 <= q < |legs| ensures FlightOf(legs[q]) in catalog && InWindow(FlightOf(legs[q]), date) {
      var f := c[|c| - 1 - q];
      assert f in w;
      assert FlightOf(legs[q]) == f;
    }
  }

  /** The route comes from the first round whose frontier reaches a
      near-destination airport: no earlier round reached one, and among the
      candidates of that round the route's total layover is the least, and
      strictly less than that of every candidate before it in frontier order. */
  lemma FoundRouteIsFirstMinimum(catalog: seq<Flight>, airports: seq<Airport>, nearFrom: set<string>,
                                 nearTo: set<string>, date: int, test: PreviousTest)
    requires DepartsBeforeArrives(Window(catalog, date))
    requires Search(catalog, airports, nearFrom, nearTo, date, test).Found?
    ensures var w := Window(catalog, date);
      var k := FirstStop(w, nearFrom, nearTo, date, 0);
      var s := StageAt(w, nearFrom, date, k);
      var cands := Candidates(s.frontier, nearTo);
      var fs := LegFlights(Search(catalog, airports, nearFrom, nearTo, date, test).legs);
      && (forall j :: 0 <= j < k ==> !Reaches(StageAt(w, nearFrom, date, j).frontier, nearTo))
      && Reaches(s.frontier, nearTo)
      && BackLinked(s.arena) && AllPointInto(cands, |s.arena|)
      && exists m :: FirstMinimumAt(s.arena, cands, test, m)
           && fs == Reverse(Chain(s.arena, cands[m], test))
           && TotalLayover(fs) == Layover(Chain(s.arena, cands[m], test))
  {
    var w := Window(catalog, date);
    var k := FirstStop(w, nearFrom, nearTo, date, 0);
    var s, cands, m := FoundRouteWalk(catalog, airports, nearFrom, nearTo, date, test);
    var c := Chain(s.arena, cands[m], test);
    LayoverReversed(c);
    NotFoundIffStopsEmpty(catalog, airports, nearFrom, nearTo, date, test);
    StopsAtFirstReaching(w, nearFrom, nearTo, date);
    assert FirstMinimumAt(s.arena, cands, test, m);
  }

  /** The search reports 'Not found' exactly when the expansion stops on an
      empty frontier. */
  lemma NotFoundIffStopsEmpty(catalog: seq<Flight>, airports: seq<Airport>, nearFrom: set<string>,
                              nearTo: set<string>, date: int, test: PreviousTest)
    requires DepartsBeforeArrives(Window(catalog, date))
    ensures var w := Window(catalog, date);
      Search(catalog, airports, nearFrom, nearTo, date, test) == NotFound
      <==> StageAt(w, nearFrom, date, FirstStop(w, nearFrom, nearTo, date, 0)).frontier == []
  {
    var w := Window(catalog, date);
    var k := FirstStop(w, nearFrom, nearTo, date, 0);
    var s := StageAt(w, nearFrom, date, k);
    if s.frontier != [] {
      FinalChoice(w, nearFrom, nearTo, date, k, test);
      var walk := Select(s.arena, Candidates(s.frontier, nearTo), test).route.value;
      assert Search(catalog, airports, nearFrom, nearTo, date, test) == Resolve(airports, Reverse(walk));
      ResolveMeaning(airports, Reverse(walk));
    }
  }

  /** The search reports 'Not found' exactly when no round of the expansion,
      however far it is carried, reaches a near-destination airport. */
  lemma NotFoundIffNoLayerReaches(catalog: seq<Flight>, airports: seq<Airport>, nearFrom: set<string>,
                                  nearTo: set<string>, date: int, test: PreviousTest)
    requires DepartsBeforeArrives(Window(catalog, date))
    ensures Search(catalog, airports, nearFrom, nearTo, date, test) == NotFound
            <==> forall j: nat :: !Reaches(StageAt(Window(catalog, date), nearFrom, date, j).frontier, nearTo)
  {
    NotFoundIffStopsEmpty(catalog, airports, nearFrom, nearTo, date, test);
    StopsEmptyIffNeverReaches(Window(catalog, date), nearFrom, nearTo, date);
  }

  /** With the intended `is not None` test, every found route starts with a
      layer-0 flight: it leaves a near-origin airport within a day of the
      requested instant. */
  lemma IntendedRouteStartsNearOrigin(catalog: seq<Flight>, airports: seq<Airport>, nearFrom: set<string>,
                                      nearTo: set<string>, date: int)
    requires DepartsBeforeArrives(Window(catalog, date))
    requires Search(catalog, airports, nearFrom, nearTo, date, NotNone).Found?
    ensures var legs := Search(catalog, airports, nearFrom, nearTo, date, NotNone).legs;
      |legs| >= 1 && legs[0].departureIata in nearFrom && 0 <= legs[0].departure - date <= FirstLegWindow
  {
    FoundRouteShape(catalog, airports, nearFrom, nearTo, date, NotNone);
  }

  /** The searcher's state: the airport table without rows lacking a code,
      and the catalog of loaded flight records. */
  class AirRouteSearcher {
    var nearAirportsCount: nat
    var airports: seq<Airport>
    var flightData: seq<Flight>

    /** The class invariant: the table keeps only airport rows with a code,
        as the filter at start-up leaves it. FirstAirportIgnoresNulls shows
        that lookups do not depend on it. */
    predicate Valid()
      reads this
    {
      forall a :: a in airports ==> a.iataCode.Some?
    }

    /** Start-up: filter the airport table, then load the stored files in
        the order given and concatenate them. */
    constructor (nearAirportsCount: nat, airportTable: seq<Airport>, files: seq<seq<RawFlight>>)
      requires AllLoad(files)
      ensures Valid()
      ensures this.nearAirportsCount == nearAirportsCount
      ensures airports == KnownAirports(airportTable)
      ensures flightData == LoadAll(files)
      ensures AllReadingsInDay(files) ==> DepartsBeforeArrives(flightData)
    {
      this.nearAirportsCount := nearAirportsCount;
      airports := KnownAirports(airportTable);
      var loaded: seq<Flight> := [];
      for i := 0 to |files|
        invariant loaded == LoadAll(files[..i])
      {
        LoadAllStep(files, i);
        loaded := loaded + LoadBatch(files[i]).value;
      }
      assert files[..|files|] == files;
      flightData := loaded;
    }

    /** add_flight_data: load the batch and append it after the stored
        records; a batch that fails to load leaves the catalog as it was. */
    method AddFlightData(batch: seq<RawFlight>) returns (loaded: bool)
      requires Valid()
      modifies this
      ensures Valid()
      ensures loaded == LoadBatch(batch).Some?
      ensures flightData == if loaded then old(flightData) + LoadBatch(batch).value else old(flightData)
      ensures batch == [] ==> loaded && flightData == old(flightData)
      ensures old(DepartsBeforeArrives(flightData)) && ReadingsInDay(batch) ==> DepartsBeforeArrives(flightData)
      ensures airports == old(airports) && nearAirportsCount == old(nearAirportsCount)
    {
      var data := LoadBatch(batch);
      if data.None? {
        return false;
      }
      LoadedBatchOrdered(batch);
      flightData := flightData + data.value;
      return true;
    }

    /** search_route, given the IATA codes of the airports near the origin
        and near the destination, and the walk's parent test: Truthiness as
        written, NotNone as intended. */
    method SearchRoute(nearFrom: set<string>, nearTo: set<string>, date: int, test: PreviousTest)
        returns (r: Outcome)
      requires Valid() && DepartsBeforeArrives(Window(flightData, date))
      ensures r == Search(flightData, airports, nearFrom, nearTo, date, test)
      ensures test == NotNone && r.Found? ==> |r.legs| >= 1 && r.legs[0].departureIata in nearFrom
    {
      var w := Window(flightData, date);
      var arena, frontier := Expand(w, nearFrom, nearTo, date);
      if frontier == [] {
        return NotFound;
      }
      FinalChoice(w, nearFrom, nearTo, date, FirstStop(w, nearFrom, nearTo, date, 0), test);
      var minRoute, minWait := ChooseRoute(arena, Candidates(frontier, nearTo), test);
      r := Describe(airports, Reverse(minRoute.value));
      if test == NotNone && r.Found? {
        IntendedRouteStartsNearOrigin(flightData, airports, nearFrom, nearTo, date);
      }
    }
  }

  /** The expansion loop: layer after layer, each flight of the frontier
      contributes its connections, until the frontier is empty or reaches a
      near-destination airport. */
  method Expand(w: seq<Flight>, nearFrom: set<string>, nearTo: set<string>, date: int)
      returns (arena: seq<Node>, frontier: seq<Node>)
    requires DepartsBeforeArrives(w) && forall f :: f in w ==> InWindow(f, date)
    ensures Stage(arena, frontier) == StageAt(w, nearFrom, date, FirstStop(w, nearFrom, nearTo, date, 0))
  {
    arena := [];
    frontier := Roots(w, nearFrom, date);
    ghost var layer: nat := 0;
    while frontier != [] && !Reaches(frontier, nearTo)
      invariant layer <= LastLayer + 1
      invariant Stage(arena, frontier) == StageAt(w, nearFrom, date, layer)
      invariant NoStopBefore(w, nearFrom, nearTo, date, layer)
      decreases LastLayer + 1 - layer
    {
      FrontierBound(w, nearFrom, date, layer);
      NoStopBeforeNext(w, nearFrom, nearTo, date, layer);
      var next := ExpandLayer(w, frontier, |arena|);
      arena := arena + frontier;
      frontier := next;
      layer := layer + 1;
    }
    FirstStopIsFirst(w, nearFrom, nearTo, date, layer);
  }

  /** One round of the expansion: the connections of each frontier flight in
      turn, each pointing back to the flight's future arena position. */
  method ExpandLayer(w: seq<Flight>, frontier: seq<Node>, base: nat) returns (next: seq<Node>)
    ensures next == NextLayer(w, frontier, base)
  {
    next := [];
    for i := 0 to |frontier|
      invariant next == NextLayer(w, frontier[..i], base)
    {
      assert frontier[..i + 1][..i] == frontier[..i];
      next := next + Connections(w, frontier[i].flight, base + i);
    }
    assert frontier[..|frontier|] == frontier;
  }

  /** The walk back from a candidate: it follows back-references while the
      test says the node has a parent, summing the layovers. */
  method WalkBack(arena: seq<Node>, node: Node, test: PreviousTest) returns (route: seq<Flight>, wait: int)
    requires BackLinked(arena) && PointsInto(node, |arena|)
    ensures route == Chain(arena, node, test)
    ensures wait == Layover(route)
  {
    route := [node.flight];
    wait := 0;
    var cur := node;
    BackLinkedExtend(arena, node);
    ghost var ext := arena + [node];
    ghost var whole := ChainFrom(ext, |arena|, test);
    assert whole == Chain(arena, node, test);
    ghost var pos: nat := |arena|;
    while Continues(cur, test)
      invariant pos <= |arena| && ext[pos] == cur
      invariant route + ChainFrom(ext, pos, test)[1..] == whole
      invariant |route| >= 1 && route[|route| - 1] == cur.flight
      invariant wait == Layover(route)
      decreases pos
    {
      var p := cur.previous.value;
      ChainFromStep(ext, pos, test, route, whole);
      assert ext[p] == arena[p];
      LayoverSnoc(route, arena[p].flight);
      wait := wait + (cur.flight.departure - arena[p].flight.arrival);
      cur := arena[p];
      pos := p;
      route := route + [cur.flight];
    }
    ChainFromEnd(ext, pos, test, route, whole);
  }

  /** The candidate loop: the first walk whose layover is strictly below
      the least seen so far, starting from ten days, is kept. */
  method ChooseRoute(arena: seq<Node>, candidates: seq<Node>, test: PreviousTest) returns (minRoute: Option<seq<Flight>>, minWait: int)
    requires BackLinked(arena) && AllPointInto(candidates, |arena|)
    ensures Choice(minRoute, minWait) == Select(arena, candidates, test)
  {
    minWait := InitialMinWait;
    minRoute := None;
    for c := 0 to |candidates|
      invariant AllPointInto(candidates[..c], |arena|)
      invariant Choice(minRoute, minWait) == Select(arena, candidates[..c], test)
    {
      assert candidates[c] in candidates;
      assert candidates[..c + 1][..c] == candidates[..c];
      var route, wait := WalkBack(arena, candidates[c], test);
      if wait < minWait {
        minWait := wait;
        minRoute := Some(route);
      }
    }
    assert candidates[..|candidates|] == candidates;
  }

  /** The output loop: each flight in chronological order becomes a leg with
      both airport rows; a code without a row ends the search with that code. */
  method Describe(airports: seq<Airport>, chrono: seq<Flight>) returns (r: Outcome)
    ensures r == Resolve(airports, chrono)
  {
    var legs: seq<Leg> := [];
    for i := 0 to |chrono|
      invariant Resolve(airports, chrono[..i]) == Found(legs)
    {
      var f := chrono[i];
      assert chrono[..i + 1][..i] == chrono[..i];
      var departureAirport := FirstAirport(airports, f.origin);
      if departureAirport.None? {
        ResolveKeepsFirstError(airports, chrono, i + 1);
        return UnknownAirport(f.origin);
      }
      var arrivalAirport := FirstAirport(airports, f.dest);
      if arrivalAirport.None? {
        ResolveKeepsFirstError(airports, chrono, i + 1);
        return UnknownAirport(f.dest);
      }
      legs := legs + [Leg(f.departure, f.origin, departureAirport.value, f.arrival, f.dest, arrivalAirport.value)];
    }
    assert chrono[..|chrono|] == chrono;
    return Found(legs);
  }
}
