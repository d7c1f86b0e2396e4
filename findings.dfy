/** A concrete itinerary on which the back-reference walk as written and the
    intended walk disagree. The route LAX -> ORD -> JFK is found in round 1;
    its second flight points back to arena position 0, the LAX flight. The
    truthiness test reads position 0 as "no parent", so the walk stops after
    one flight and the returned route starts at ORD, an airport not near the
    origin. The `is not None` test keeps both legs. */
module Findings {
  import opened Schedule
  import opened Airports
  import opened Expansion
  import opened Reconstruction
  import opened Searcher

  const Lax := Airport("KLAX", "Los Angeles International Airport", "large_airport", 33.94, -118.41, "Los Angeles", Some("LAX"))
  const Ord := Airport("KORD", "Chicago O'Hare International Airport", "large_airport", 41.98, -87.90, "Chicago", Some("ORD"))
  const Jfk := Airport("KJFK", "John F Kennedy International Airport", "large_airport", 40.64, -73.78, "New York", Some("JFK"))

  /** Departs 08:00, lands 14:00 on day 0. */
  const ToChicago := Flight(480, 840, "LAX", "ORD")
  /** Departs 15:30, ninety minutes after ToChicago lands; lands 19:00. */
  const ToNewYork := Flight(930, 1140, "ORD", "JFK")

  const LegToChicago := Leg(480, "LAX", Lax, 840, "ORD", Ord)
  const LegToNewYork := Leg(930, "ORD", Ord, 1140, "JFK", Jfk)

  /** The two rounds of the expansion on this catalog: the LAX flight alone
      in layer 0, the ORD flight in layer 1 pointing back to position 0. */
  lemma TwoRounds()
    ensures var w := Window([ToChicago, ToNewYork], 0);
      && w == [ToChicago, ToNewYork]
      && StageAt(w, {"LAX"}, 0, 0) == Stage([], [Node(ToChicago, None)])
      && StageAt(w, {"LAX"}, 0, 1) == Stage([Node(ToChicago, None)], [Node(ToNewYork, Some(0))])
      && FirstStop(w, {"LAX"}, {"JFK"}, 0, 0) == 1
  {
    var w := Window([ToChicago, ToNewYork], 0);
    assert [ToChicago, ToNewYork][1..] == [ToNewYork] && [ToNewYork][1..] == [];
    assert InWindow(ToChicago, 0) && InWindow(ToNewYork, 0);
    assert Window([ToNewYork], 0) == [ToNewYork];
    assert w == [ToChicago, ToNewYork];
    assert IsRootFlight(ToChicago, {"LAX"}, 0) && !IsRootFlight(ToNewYork, {"LAX"}, 0);
    assert Roots([ToNewYork], {"LAX"}, 0) == [];
    assert Roots(w, {"LAX"}, 0) == [Node(ToChicago, None)];
    assert !Connects(ToChicago, ToChicago) && Connects(ToChicago, ToNewYork);
    assert Connections([ToNewYork], ToChicago, 0) == [Node(ToNewYork, Some(0))];
    assert Connections(w, ToChicago, 0) == [Node(ToNewYork, Some(0))];
    assert NextLayer(w, [Node(ToChicago, None)], 0) == [Node(ToNewYork, Some(0))] by {
      assert [Node(ToChicago, None)][..0] == [];
    }
    assert !Stops(StageAt(w, {"LAX"}, 0, 0).frontier, {"JFK"});
    assert Reaches(StageAt(w, {"LAX"}, 0, 1).frontier, {"JFK"}) by {
      assert StageAt(w, {"LAX"}, 0, 1).frontier[0].flight.dest in {"JFK"};
    }
  }

  /** Each code of the table resolves to its own row. */
  lemma AirportLookups()
    ensures FirstAirport([Lax, Ord, Jfk], "LAX") == Some(Lax)
    ensures FirstAirport([Lax, Ord, Jfk], "ORD") == Some(Ord)
    ensures FirstAirport([Lax, Ord, Jfk], "JFK") == Some(Jfk)
  {
    assert [Lax, Ord, Jfk][1..] == [Ord, Jfk] && [Ord, Jfk][1..] == [Jfk];
    assert FirstAirport([Jfk], "JFK") == Some(Jfk);
    assert FirstAirport([Ord, Jfk], "JFK") == Some(Jfk);
  }

  /** The one candidate of round 1 and the walk back from it under each test. */
  lemma Walks()
    ensures Candidates([Node(ToNewYork, Some(0))], {"JFK"}) == [Node(ToNewYork, Some(0))]
    ensures Chain([Node(ToChicago, None)], Node(ToNewYork, Some(0)), Truthiness) == [ToNewYork]
    ensures Chain([Node(ToChicago, None)], Node(ToNewYork, Some(0)), NotNone) == [ToNewYork, ToChicago]
  {
    var ext := [Node(ToChicago, None), Node(ToNewYork, Some(0))];
    assert [Node(ToChicago, None)] + [Node(ToNewYork, Some(0))] == ext;
    assert ChainFrom(ext, 0, NotNone) == [ToChicago];
    assert ChainFrom(ext, 1, NotNone) == [ToNewYork] + ChainFrom(ext, 0, NotNone);
  }

  /** The choice of the reconstruction under each test. */
  lemma Choices()
    ensures Select([Node(ToChicago, None)], [Node(ToNewYork, Some(0))], Truthiness) == Choice(Some([ToNewYork]), 0)
    ensures Select([Node(ToChicago, None)], [Node(ToNewYork, Some(0))], NotNone)
            == Choice(Some([ToNewYork, ToChicago]), 90)
  {
    Walks();
    assert [Node(ToNewYork, Some(0))][..0] == [];
    assert Layover([ToNewYork]) == 0;
    assert Layover([ToNewYork, ToChicago]) == 90;
  }

  /** The one-leg route resolves against the three-row table. */
  lemma ResolveOneLeg()
    ensures Resolve([Lax, Ord, Jfk], [ToNewYork]) == Found([LegToNewYork])
  {
    AirportLookups();
    assert [ToNewYork][..0] == [];
  }

  /** The first leg alone resolves against the three-row table. */
  lemma ResolveFirstLeg()
    ensures Resolve([Lax, Ord, Jfk], [ToChicago]) == Found([LegToChicago])
  {
    AirportLookups();
    assert [ToChicago][..0] == [];
  }

  /** The two-leg route resolves against the three-row table. */
  lemma ResolveTwoLegs()
    ensures Resolve([Lax, Ord, Jfk], [ToChicago, ToNewYork]) == Found([LegToChicago, LegToNewYork])
  {
    var chrono := [ToChicago, ToNewYork];
    assert chrono[..1] == [ToChicago];
    ResolveFirstLeg();
    AirportLookups();
  }

  /** On this catalog, under either test, the search resolves the
      reversed walk the reconstruction chooses from the ORD flight of round 1. */
  lemma SearchOnCatalog(test: PreviousTest)
    ensures Select([Node(ToChicago, None)], [Node(ToNewYork, Some(0))], test).route.Some?
    ensures Search([ToChicago, ToNewYork], [Lax, Ord, Jfk], {"LAX"}, {"JFK"}, 0, test)
            == Resolve([Lax, Ord, Jfk],
                       Reverse(Select([Node(ToChicago, None)], [Node(ToNewYork, Some(0))], test).route.value))
  {
    TwoRounds();
    Walks();
    Choices();
  }

  /** As written, the route returned for LAX to JFK is the ORD leg alone. */
  lemma AsWrittenDropsFirstLeg()
    ensures Search([ToChicago, ToNewYork], [Lax, Ord, Jfk], {"LAX"}, {"JFK"}, 0, Truthiness)
            == Found([LegToNewYork])
    ensures LegToNewYork.departureIata !in {"LAX"}
  {
    SearchOnCatalog(Truthiness);
    Choices();
    ResolveOneLeg();
    assert Reverse([ToNewYork]) == [ToNewYork];
  }

  /** With the intended test, the same search returns both legs, leaving
      from LAX. */
  lemma IntendedKeepsFirstLeg()
    ensures Search([ToChicago, ToNewYork], [Lax, Ord, Jfk], {"LAX"}, {"JFK"}, 0, NotNone)
            == Found([LegToChicago, LegToNewYork])
  {
    SearchOnCatalog(NotNone);
    Choices();
    ResolveTwoLegs();
    assert Reverse([ToNewYork, ToChicago]) == [ToChicago, ToNewYork];
  }
}
