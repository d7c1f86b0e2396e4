/** Route reconstruction of search_route: the walk along back-references,
    the layover it sums, the choice of the first route with the least
    layover, and the resolution of the chosen legs to airport rows. */
module Reconstruction {
  import opened Schedule
  import opened Airports
  import opened Expansion

  /** How the walk decides that a node still has a parent. */
  datatype PreviousTest =
    | Truthiness  // `while flight.previous:` as written: position 0 counts as no parent, like None
    | NotNone     // the evidently intended test `previous is not None`

  predicate Continues(n: Node, test: PreviousTest)
  {
    n.previous.Some? && (test == NotNone || n.previous.value != 0)
  }

  /** Every back-reference points to an earlier position. */
  predicate BackLinked(arena: seq<Node>)
  {
    forall j :: 0 <= j < |arena| && arena[j].previous.Some? ==> arena[j].previous.value < j
  }

  predicate PointsInto(n: Node, bound: nat)
  {
    n.previous.Some? ==> n.previous.value < bound
  }

  /** The flights met walking back from position j, newest first. */
  function ChainFrom(arena: seq<Node>, j: nat, test: PreviousTest): seq<Flight>
    requires BackLinked(arena) && j < |arena|
    decreases j
  {
    [arena[j].flight]
    + (if Continues(arena[j], test) then ChainFrom(arena, arena[j].previous.value, test) else [])
  }

  /** The walk so far followed by the rest of the walk from position j:
      one step moves the parent's flight from the rest to the walk so far,
      and at a node without a parent the rest is empty. */
  lemma ChainFromStep(arena: seq<Node>, j: nat, test: PreviousTest, walked: seq<Flight>, whole: seq<Flight>)
    requires BackLinked(arena) && j < |arena| && Continues(arena[j], test)
    requires walked + ChainFrom(arena, j, test)[1..] == whole
    ensures arena[j].previous.value < j
    ensures var p := arena[j].previous.value;
      (walked + [arena[p].flight]) + ChainFrom(arena, p, test)[1..] == whole
  {
    var p := arena[j].previous.value;
    assert ChainFrom(arena, j, test)[1..] == ChainFrom(arena, p, test);
    assert ChainFrom(arena, p, test) == [arena[p].flight] + ChainFrom(arena, p, test)[1..];
  }

  lemma ChainFromEnd(arena: seq<Node>, j: nat, test: PreviousTest, walked: seq<Flight>, whole: seq<Flight>)
    requires BackLinked(arena) && j < |arena| && !Continues(arena[j], test)
    requires walked + ChainFrom(arena, j, test)[1..] == whole
    ensures walked == whole
  {
    assert ChainFrom(arena, j, test) == [arena[j].flight];
  }

  /** The walk from a frontier node n, whose parent lies in the arena. */
  function Chain(arena: seq<Node>, n: Node, test: PreviousTest): seq<Flight>
    requires BackLinked(arena) && PointsInto(n, |arena|)
  {
    BackLinkedExtend(arena, n);
    ChainFrom(arena + [n], |arena|, test)
  }

  lemma BackLinkedExtend(arena: seq<Node>, n: Node)
    requires BackLinked(arena) && PointsInto(n, |arena|)
    ensures BackLinked(arena + [n])
  {
    forall j | 0 <= j < |arena| + 1 && (arena + [n])[j].previous.Some?
      ensures (arena + [n])[j].previous.value < j
    {
      if j < |arena| { assert (arena + [n])[j] == arena[j]; }
    }
  }

  /** The layover summed by the walk: each flight's departure minus the
      arrival of the flight before it, over a chain given newest first. */
  function Layover(chain: seq<Flight>): int
  {
    if |chain| < 2 then 0
    else chain[0].departure - chain[1].arrival + Layover(chain[1..])
  }

  /** The total layover of legs in chronological order. */
  function TotalLayover(legs: seq<Flight>): int
  {
    if |legs| < 2 then 0
    else legs[1].departure - legs[0].arrival + TotalLayover(legs[1..])
  }

  function Reverse<T>(s: seq<T>): (r: seq<T>)
    ensures |r| == |s|
    ensures forall i :: 0 <= i < |s| ==> r[i] == s[|s| - 1 - i]
  {
    if s == [] then [] else Reverse(s[1..]) + [s[0]]
  }

  /** Extending a walk by one older flight adds one layover. */
  lemma {:induction false} LayoverSnoc(chain: seq<Flight>, x: Flight)
    requires |chain| >= 1
    ensures Layover(chain + [x]) == Layover(chain) + chain[|chain| - 1].departure - x.arrival
  {
    if |chain| >= 2 {
      assert (chain + [x])[1..] == chain[1..] + [x];
      LayoverSnoc(chain[1..], x);
    }
  }

  lemma {:induction false} TotalLayoverSnoc(legs: seq<Flight>, x: Flight)
    requires |legs| >= 1
    ensures TotalLayover(legs + [x]) == TotalLayover(legs) + x.departure - legs[|legs| - 1].arrival
  {
    if |legs| >= 2 {
      assert (legs + [x])[1..] == legs[1..] + [x];
      TotalLayoverSnoc(legs[1..], x);
    }
  }

  /** The walk's sum is the total layover of the route in chronological order. */
  lemma {:induction false} LayoverReversed(chain: seq<Flight>)
    ensures TotalLayover(Reverse(chain)) == Layover(chain)
  {
    if |chain| >= 2 {
      LayoverReversed(chain[1..]);
      var r := Reverse(chain[1..]);
      assert Reverse(chain) == r + [chain[0]];
      TotalLayoverSnoc(r, chain[0]);
      assert r[|r| - 1] == chain[1];
    }
  }

  /** Every node of the arena has a well placed back-reference. */
  predicate ArenaLinked(arena: seq<Node>, w: seq<Flight>, nearFrom: set<string>, date: int)
  {
    forall j {:trigger Linked(arena, arena[j], j, w, nearFrom, date)} ::
      0 <= j < |arena| ==> Linked(arena, arena[j], j, w, nearFrom, date)
  }

  /** Flight i + 1 of a walk, the earlier one, connects into flight i. */
  predicate StepConnects(c: seq<Flight>, i: int)
  {
    0 <= i < |c| - 1 && Connects(c[i + 1], c[i])
  }

  /** A walk whose flights all come from the window, each connecting into
      the one before it in the walk, ending at a layer-0 flight; with the
      as-written test it may instead end at a flight that a layer-0 flight
      of the window connects into. */
  predicate WellChained(c: seq<Flight>, w: seq<Flight>, nearFrom: set<string>, date: int, test: PreviousTest)
  {
    && |c| >= 1
    && (forall i :: 0 <= i < |c| ==> c[i] in w)
    && (forall i :: 0 <= i < |c| - 1 ==> StepConnects(c, i))
    && (|| IsRootFlight(c[|c| - 1], nearFrom, date)
        || (test == Truthiness
            && exists r :: r in w && IsRootFlight(r, nearFrom, date) && Connects(r, c[|c| - 1])))
  }

  lemma {:induction false} ChainFromFacts(ext: seq<Node>, j: nat, test: PreviousTest,
                                          w: seq<Flight>, nearFrom: set<string>, date: int)
    requires ArenaLinked(ext, w, nearFrom, date) && BackLinked(ext) && j < |ext|
    requires DepartsBeforeArrives(w)
    ensures var c := ChainFrom(ext, j, test);
      && c[0] == ext[j].flight
      && WellChained(c, w, nearFrom, date, test)
      && MinConnection * (|c| - 1) <= Layover(c) <= c[0].departure - c[|c| - 1].departure
    decreases j
  {
    var c := ChainFrom(ext, j, test);
    var x := ext[j].flight;
    assert Linked(ext, ext[j], j, w, nearFrom, date);
    if Continues(ext[j], test) {
      var p := ext[j].previous.value;
      ChainFromFacts(ext, p, test, w, nearFrom, date);
      var c' := ChainFrom(ext, p, test);
      assert c == [x] + c';
      assert c'[0] in w;
      WalkCons(x, c', w, nearFrom, date, test);
    } else {
      assert c == [x];
      if ext[j].previous.Some? {
        assert test == Truthiness && ext[j].previous.value == 0;
        assert Linked(ext, ext[0], 0, w, nearFrom, date);
        assert ext[0].flight in w && IsRootFlight(ext[0].flight, nearFrom, date);
      }
    }
  }

  /** Prefixing a well-chained walk with a window flight that connects from
      its newest flight keeps it well chained and within its layover bounds. */
  lemma WalkCons(x: Flight, c: seq<Flight>, w: seq<Flight>, nearFrom: set<string>, date: int, test: PreviousTest)
    requires WellChained(c, w, nearFrom, date, test) && x in w && Connects(c[0], x)
    requires c[0].departure <= c[0].arrival
    requires MinConnection * (|c| - 1) <= Layover(c) <= c[0].departure - c[|c| - 1].departure
    ensures var c2 := [x] + c;
      && WellChained(c2, w, nearFrom, date, test)
      && MinConnection * (|c2| - 1) <= Layover(c2) <= c2[0].departure - c2[|c2| - 1].departure
  {
    var c2 := [x] + c;
    assert c2[1..] == c;
    forall i | 0 <= i < |c2| - 1 ensures StepConnects(c2, i) {
      if i > 0 { assert StepConnects(c, i - 1); assert c2[i + 1] == c[i] && c2[i] == c[i - 1]; }
    }
    forall i | 0 <= i < |c2| ensures c2[i] in w {
      if i > 0 { assert c2[i] == c[i - 1]; }
    }
    assert MinConnection * (|c2| - 1) == MinConnection * (|c| - 1) + MinConnection;
  }

  /** The walks from the frontier of a valid stage are well chained, need at
      least an hour per connection, and never wait longer than the time
      between their first and last departures. */
  lemma ChainFacts(s: Stage, i: nat, test: PreviousTest, w: seq<Flight>, nearFrom: set<string>, date: int)
    requires StageValid(s, w, nearFrom, date) && i < |s.frontier|
    requires DepartsBeforeArrives(w)
    ensures BackLinked(s.arena) && PointsInto(s.frontier[i], |s.arena|)
    ensures var c := Chain(s.arena, s.frontier[i], test);
      && c[0] == s.frontier[i].flight
      && WellChained(c, w, nearFrom, date, test)
      && MinConnection * (|c| - 1) <= Layover(c) <= c[0].departure - c[|c| - 1].departure
  {
    StageBackLinked(s, w, nearFrom, date);
    var n := s.frontier[i];
    var ext := s.arena + [n];
    assert Linked(s.arena, s.frontier[i], |s.arena|, w, nearFrom, date);
    assert ArenaLinked(ext, w, nearFrom, date) by {
      forall j | 0 <= j < |ext| ensures Linked(ext, ext[j], j, w, nearFrom, date) {
        if j < |s.arena| {
          assert ext[j] == s.arena[j];
          assert Linked(s.arena, s.arena[j], j, w, nearFrom, date);
          if ext[j].previous.Some? { assert ext[ext[j].previous.value] == s.arena[ext[j].previous.value]; }
        } else {
          if n.previous.Some? { assert ext[n.previous.value] == s.arena[n.previous.value]; }
        }
      }
    }
    assert BackLinked(ext) by {
      forall j | 0 <= j < |ext| && ext[j].previous.Some? ensures ext[j].previous.value < j {
        assert Linked(ext, ext[j], j, w, nearFrom, date);
      }
    }
    ChainFromFacts(ext, |s.arena|, test, w, nearFrom, date);
  }

  /** A valid stage's arena points backwards and its frontier into the arena. */
  lemma StageBackLinked(s: Stage, w: seq<Flight>, nearFrom: set<string>, date: int)
    requires StageValid(s, w, nearFrom, date)
    ensures BackLinked(s.arena)
    ensures forall n :: n in s.frontier ==> PointsInto(n, |s.arena|)
  {
    forall j | 0 <= j < |s.arena| && s.arena[j].previous.Some? ensures s.arena[j].previous.value < j {
      assert Linked(s.arena, s.arena[j], j, w, nearFrom, date);
    }
    forall n | n in s.frontier ensures PointsInto(n, |s.arena|) {
      var i :| 0 <= i < |s.frontier| && s.frontier[i] == n;
      assert Linked(s.arena, s.frontier[i], |s.arena|, w, nearFrom, date);
    }
  }

  /** The frontier nodes that land at a near-destination airport, in frontier order. */
  function Candidates(frontier: seq<Node>, nearTo: set<string>): (r: seq<Node>)
    ensures forall n :: n in r <==> n in frontier && n.flight.dest in nearTo
  {
    if frontier == [] then []
    else (if frontier[0].flight.dest in nearTo then [frontier[0]] else []) + Candidates(frontier[1..], nearTo)
  }

  /** The running minimum of the reconstruction loop (min_route, min_wait). */
  datatype Choice = Choice(route: Option<seq<Flight>>, wait: int)

  /** The starting value of min_wait: ten days. */
  const InitialMinWait: int := 10 * MinutesPerDay

  predicate AllPointInto(cands: seq<Node>, bound: nat)
  {
    forall n :: n in cands ==> PointsInto(n, bound)
  }

  /** The reconstruction loop over the candidates: a walk replaces the
      current choice only when its layover is strictly smaller. */
  function Select(arena: seq<Node>, cands: seq<Node>, test: PreviousTest): Choice
    requires BackLinked(arena) && AllPointInto(cands, |arena|)
  {
    if cands == [] then Choice(None, InitialMinWait)
    else
      var prior := Select(arena, cands[..|cands| - 1], test);
      var route := Chain(arena, cands[|cands| - 1], test);
      if Layover(route) < prior.wait then Choice(Some(route), Layover(route)) else prior
  }

  /** Candidate k's walk waits no longer than any candidate's, and strictly
      less than every earlier candidate's. */
  predicate FirstMinimumAt(arena: seq<Node>, cands: seq<Node>, test: PreviousTest, k: int)
    requires BackLinked(arena) && AllPointInto(cands, |arena|)
  {
    && 0 <= k < |cands|
    && (forall j :: 0 <= j < |cands| ==>
          Layover(Chain(arena, cands[k], test)) <= Layover(Chain(arena, cands[j], test)))
    && (forall j :: 0 <= j < k ==>
          Layover(Chain(arena, cands[k], test)) < Layover(Chain(arena, cands[j], test)))
  }

  /** Every candidate's walk waits at least the starting ten days. */
  predicate AllWaitTenDays(arena: seq<Node>, cands: seq<Node>, test: PreviousTest)
    requires BackLinked(arena) && AllPointInto(cands, |arena|)
  {
    forall j :: 0 <= j < |cands| ==> Layover(Chain(arena, cands[j], test)) >= InitialMinWait
  }

  /** The choice is the walk of the first candidate with the least layover;
      nothing is chosen exactly when every candidate waits at least the
      starting ten days. */
  lemma {:induction false} SelectIsFirstMinimum(arena: seq<Node>, cands: seq<Node>, test: PreviousTest)
    requires BackLinked(arena) && AllPointInto(cands, |arena|)
    ensures var s := Select(arena, cands, test);
      && (s.route.None? <==> AllWaitTenDays(arena, cands, test))
      && (s.route.None? ==> s.wait == InitialMinWait)
      && (s.route.Some? ==>
            exists k :: FirstMinimumAt(arena, cands, test, k)
                        && s.route.value == Chain(arena, cands[k], test)
                        && s.wait == Layover(s.route.value))
  {
    if cands != [] {
      var m := |cands| - 1;
      var front := cands[..m];
      FrontPointsInto(cands, |arena|);
      SelectIsFirstMinimum(arena, front, test);
      var prior := Select(arena, front, test);
      var lay := Layover(Chain(arena, cands[m], test));
      if prior.route.Some? {
        var k :| FirstMinimumAt(arena, front, test, k)
                 && prior.route.value == Chain(arena, front[k], test)
                 && prior.wait == Layover(prior.route.value);
        if lay < prior.wait {
          FirstMinimumNew(arena, cands, test, k);
        } else {
          FirstMinimumKeep(arena, cands, test, k);
        }
      } else if lay < prior.wait {
        FirstMinimumFirst(arena, cands, test);
      } else {
        AllAtLeast(arena, cands, test);
      }
    }
  }

  lemma FrontPointsInto(cands: seq<Node>, bound: nat)
    requires AllPointInto(cands, bound) && cands != []
    ensures AllPointInto(cands[..|cands| - 1], bound)
  {
    forall n | n in cands[..|cands| - 1] ensures PointsInto(n, bound) { assert n in cands; }
  }

  /** A last candidate strictly below the first minimum of the others is the
      first minimum of all. */
  lemma FirstMinimumNew(arena: seq<Node>, cands: seq<Node>, test: PreviousTest, k: nat)
    requires BackLinked(arena) && AllPointInto(cands, |arena|) && cands != []
    requires AllPointInto(cands[..|cands| - 1], |arena|)
    requires FirstMinimumAt(arena, cands[..|cands| - 1], test, k)
    requires Layover(Chain(arena, cands[|cands| - 1], test)) < Layover(Chain(arena, cands[k], test))
    ensures FirstMinimumAt(arena, cands, test, |cands| - 1)
  {
    var front := cands[..|cands| - 1];
    assert forall j :: 0 <= j < |front| ==> front[j] == cands[j];
  }

  /** A last candidate not below the first minimum of the others leaves it
      the first minimum of all. */
  lemma FirstMinimumKeep(arena: seq<Node>, cands: seq<Node>, test: PreviousTest, k: nat)
    requires BackLinked(arena) && AllPointInto(cands, |arena|) && cands != []
    requires AllPointInto(cands[..|cands| - 1], |arena|)
    requires FirstMinimumAt(arena, cands[..|cands| - 1], test, k)
    requires Layover(Chain(arena, cands[k], test)) <= Layover(Chain(arena, cands[|cands| - 1], test))
    ensures FirstMinimumAt(arena, cands, test, k)
  {
    var front := cands[..|cands| - 1];
    assert forall j :: 0 <= j < |front| ==> front[j] == cands[j];
  }

  /** A last candidate below ten days, after others all at or above it, is
      the first minimum of all. */
  lemma FirstMinimumFirst(arena: seq<Node>, cands: seq<Node>, test: PreviousTest)
    requires BackLinked(arena) && AllPointInto(cands, |arena|) && cands != []
    requires AllPointInto(cands[..|cands| - 1], |arena|)
    requires AllWaitTenDays(arena, cands[..|cands| - 1], test)
    requires Layover(Chain(arena, cands[|cands| - 1], test)) < InitialMinWait
    ensures FirstMinimumAt(arena, cands, test, |cands| - 1)
  {
    var front := cands[..|cands| - 1];
    assert forall j :: 0 <= j < |front| ==> front[j] == cands[j];
  }

  lemma AllAtLeast(arena: seq<Node>, cands: seq<Node>, test: PreviousTest)
    requires BackLinked(arena) && AllPointInto(cands, |arena|) && cands != []
    requires AllPointInto(cands[..|cands| - 1], |arena|)
    requires AllWaitTenDays(arena, cands[..|cands| - 1], test)
    requires Layover(Chain(arena, cands[|cands| - 1], test)) >= InitialMinWait
    ensures AllWaitTenDays(arena, cands, test)
  {
    var front := cands[..|cands| - 1];
    assert forall j :: 0 <= j < |front| ==> front[j] == cands[j];
  }

  /** A candidate whose walk waits less than ten days makes the
      reconstruction choose a walk. */
  lemma SelectFindsShortWalk(arena: seq<Node>, cands: seq<Node>, test: PreviousTest, n: Node)
    requires BackLinked(arena) && AllPointInto(cands, |arena|)
    requires n in cands && Layover(Chain(arena, n, test)) < InitialMinWait
    ensures Select(arena, cands, test).route.Some?
  {
    SelectIsFirstMinimum(arena, cands, test);
    var j :| 0 <= j < |cands| && cands[j] == n;
  }

  /** The position of the chosen candidate, when a walk is chosen. */
  lemma PickFirstMinimum(arena: seq<Node>, cands: seq<Node>, test: PreviousTest) returns (m: nat)
    requires BackLinked(arena) && AllPointInto(cands, |arena|)
    requires Select(arena, cands, test).route.Some?
    ensures FirstMinimumAt(arena, cands, test, m)
    ensures Select(arena, cands, test).route == Some(Chain(arena, cands[m], test))
    ensures Select(arena, cands, test).wait == Layover(Chain(arena, cands[m], test))
  {
    SelectIsFirstMinimum(arena, cands, test);
    var s := Select(arena, cands, test);
    var k :| FirstMinimumAt(arena, cands, test, k)
             && s.route.value == Chain(arena, cands[k], test)
             && s.wait == Layover(s.route.value);
    m := k;
  }

  /** One leg of the route as returned: instants, codes and airport rows. */
  datatype Leg = Leg(
    departure: int,
    departureIata: string,
    departureAirport: Airport,
    arrival: int,
    arrivalIata: string,
    arrivalAirport: Airport)

  /** The result of search_route: a route, 'Not found', or the IndexError
      raised when a code of a chosen leg has no airport row. */
  datatype Outcome = Found(legs: seq<Leg>) | NotFound | UnknownAirport(code: string)

  function FlightOf(leg: Leg): Flight
  {
    Flight(leg.departure, leg.arrival, leg.departureIata, leg.arrivalIata)
  }

  predicate Resolvable(airports: seq<Airport>, f: Flight)
  {
    FirstAirport(airports, f.origin).Some? && FirstAirport(airports, f.dest).Some?
  }

  /** leg is flight f with both ends resolved to their first airport rows. */
  predicate Describes(airports: seq<Airport>, leg: Leg, f: Flight)
  {
    && FlightOf(leg) == f
    && FirstAirport(airports, f.origin) == Some(leg.departureAirport)
    && FirstAirport(airports, f.dest) == Some(leg.arrivalAirport)
  }

  /** The output loop: each flight in turn becomes a leg, its departure code
      looked up before its arrival code; the first code without an airport
      row ends the loop. */
  function Resolve(airports: seq<Airport>, flights: seq<Flight>): Outcome
  {
    if flights == [] then Found([])
    else
      var prior := Resolve(airports, flights[..|flights| - 1]);
      if !prior.Found? then prior
      else
        var f := flights[|flights| - 1];
        var dep := FirstAirport(airports, f.origin);
        var arr := FirstAirport(airports, f.dest);
        if dep.None? then UnknownAirport(f.origin)
        else if arr.None? then UnknownAirport(f.dest)
        else Found(prior.legs + [Leg(f.departure, f.origin, dep.value, f.arrival, f.dest, arr.value)])
  }

  /** Every flight has an airport row for both of its codes. */
  predicate AllResolvable(airports: seq<Airport>, flights: seq<Flight>)
  {
    forall i :: 0 <= i < |flights| ==> Resolvable(airports, flights[i])
  }

  /** legs are the flights, one for one and in order, with their rows. */
  predicate AllDescribed(airports: seq<Airport>, legs: seq<Leg>, flights: seq<Flight>)
  {
    && |legs| == |flights|
    && forall i :: 0 <= i < |flights| ==> Describes(airports, legs[i], flights[i])
  }

  lemma AllResolvableSnoc(airports: seq<Airport>, flights: seq<Flight>)
    requires flights != []
    ensures AllResolvable(airports, flights)
            <==> AllResolvable(airports, flights[..|flights| - 1]) && Resolvable(airports, flights[|flights| - 1])
  {
    var front := flights[..|flights| - 1];
    assert forall j :: 0 <= j < |front| ==> front[j] == flights[j];
  }

  lemma AllDescribedSnoc(airports: seq<Airport>, legs: seq<Leg>, leg: Leg, flights: seq<Flight>)
    requires flights != []
    requires AllDescribed(airports, legs, flights[..|flights| - 1])
    requires Describes(airports, leg, flights[|flights| - 1])
    ensures AllDescribed(airports, legs + [leg], flights)
  {
    var front := flights[..|flights| - 1];
    assert forall j :: 0 <= j < |front| ==> front[j] == flights[j];
    forall i | 0 <= i < |flights| ensures Describes(airports, (legs + [leg])[i], flights[i]) {
      if i < |front| { assert (legs + [leg])[i] == legs[i]; }
    }
  }

  /** Resolution never reports 'Not found'; it succeeds exactly when every
      flight has both airport rows, and then gives one leg per flight, in
      order, each with the first rows of its codes. */
  lemma {:induction false} ResolveMeaning(airports: seq<Airport>, flights: seq<Flight>)
    ensures var r := Resolve(airports, flights);
      && !r.NotFound?
      && (r.Found? <==> AllResolvable(airports, flights))
      && (r.Found? ==> AllDescribed(airports, r.legs, flights))
  {
    if flights != [] {
      var m := |flights| - 1;
      var front := flights[..m];
      ResolveMeaning(airports, front);
      AllResolvableSnoc(airports, flights);
      var prior := Resolve(airports, front);
      var r := Resolve(airports, flights);
      if prior.Found? && Resolvable(airports, flights[m]) {
        var f := flights[m];
        var leg := Leg(f.departure, f.origin, FirstAirport(airports, f.origin).value,
                       f.arrival, f.dest, FirstAirport(airports, f.dest).value);
        assert r == Found(prior.legs + [leg]);
        AllDescribedSnoc(airports, prior.legs, leg, flights);
      }
    }
  }

  /** The flights of a list of legs. */
  function LegFlights(legs: seq<Leg>): (fs: seq<Flight>)
    ensures |fs| == |legs| && forall i :: 0 <= i < |legs| ==> fs[i] == FlightOf(legs[i])
  {
    if legs == [] then [] else [FlightOf(legs[0])] + LegFlights(legs[1..])
  }

  /** A successful resolution lists exactly the given flights, in order. */
  lemma ResolvedFlights(airports: seq<Airport>, flights: seq<Flight>)
    requires Resolve(airports, flights).Found?
    ensures LegFlights(Resolve(airports, flights).legs) == flights
  {
    ResolveMeaning(airports, flights);
    var legs := Resolve(airports, flights).legs;
    forall i | 0 <= i < |legs| ensures LegFlights(legs)[i] == flights[i] {
      assert Describes(airports, legs[i], flights[i]);
    }
  }

  /** Flight i is the first without both airport rows, and code is its
      departure code if that one has no row, its arrival code otherwise. */
  predicate FailsFirstAt(airports: seq<Airport>, flights: seq<Flight>, i: int, code: string)
  {
    && 0 <= i < |flights|
    && AllResolvable(airports, flights[..i])
    && !Resolvable(airports, flights[i])
    && code == if FirstAirport(airports, flights[i].origin).None? then flights[i].origin else flights[i].dest
  }

  /** A failed resolution names the first missing code: that of the first
      flight with a missing airport, its departure code if that one is missing. */
  lemma {:induction false} ResolveFirstFailure(airports: seq<Airport>, flights: seq<Flight>)
    requires Resolve(airports, flights).UnknownAirport?
    ensures exists i :: FailsFirstAt(airports, flights, i, Resolve(airports, flights).code)
  {
    var m := |flights| - 1;
    var front := flights[..m];
    var code := Resolve(airports, flights).code;
    ResolveMeaning(airports, front);
    if Resolve(airports, front).UnknownAirport? {
      ResolveFirstFailure(airports, front);
      var i :| FailsFirstAt(airports, front, i, code);
      assert front[..i] == flights[..i] && front[i] == flights[i];
      assert FailsFirstAt(airports, flights, i, code);
    } else {
      assert FailsFirstAt(airports, flights, m, code);
    }
  }

  /** Once a prefix of the flights fails to resolve, the whole list fails
      with the same code. */
  lemma {:induction false} ResolveKeepsFirstError(airports: seq<Airport>, flights: seq<Flight>, m: nat)
    requires m <= |flights| && Resolve(airports, flights[..m]).UnknownAirport?
    ensures Resolve(airports, flights) == Resolve(airports, flights[..m])
    decreases |flights| - m
  {
    if m < |flights| {
      var front := flights[..|flights| - 1];
      assert front[..m] == flights[..m];
      ResolveKeepsFirstError(airports, front, m);
    } else {
      assert flights[..m] == flights;
    }
  }
}
