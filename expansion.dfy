/** The layered expansion of search_route as functions of the catalog: the
    consideration window, layer 0, the connections of one node, the next
    layer with its back-references, and the arena and frontier after k
    rounds of the expansion loop. */
module Expansion {
  import opened Schedule

  /** Every flight examined departs at most two days after the requested instant. */
  const SearchWindow: int := 2 * MinutesPerDay
  /** Layer-0 flights depart at most one day after it. */
  const FirstLegWindow: int := MinutesPerDay
  /** A connection departs between one hour and one day after the arrival. */
  const MinConnection: int := MinutesPerHour
  const MaxConnection: int := MinutesPerDay
  /** No frontier after this many rounds can be non-empty. */
  const LastLayer: nat := 48

  /** A search node: a flight and the arena position of its parent. */
  datatype Node = Node(flight: Flight, previous: Option<nat>)

  /** The arena (all_flights) and the frontier (last_flights) of one round. */
  datatype Stage = Stage(arena: seq<Node>, frontier: seq<Node>)

  /** Both ends inclusive, as the two comparisons with the Timedelta are. */
  predicate InWindow(f: Flight, date: int)
  {
    0 <= f.departure - date <= SearchWindow
  }

  predicate IsRootFlight(f: Flight, nearFrom: set<string>, date: int)
  {
    f.origin in nearFrom && 0 <= f.departure - date <= FirstLegWindow
  }

  /** child may follow parent: it leaves from where parent lands, between one
      hour and one day (both inclusive) after parent's arrival. */
  predicate Connects(parent: Flight, child: Flight)
  {
    child.origin == parent.dest
    && MinConnection <= child.departure - parent.arrival <= MaxConnection
  }

  /** The pre-filtered catalog (comming_flightes), in catalog order. */
  function Window(catalog: seq<Flight>, date: int): (w: seq<Flight>)
    ensures forall f :: f in w <==> f in catalog && InWindow(f, date)
  {
    if catalog == [] then []
    else (if InWindow(catalog[0], date) then [catalog[0]] else []) + Window(catalog[1..], date)
  }

  /** Layer 0: flights of the window from a near-origin airport departing
      within a day, each without a parent. */
  function Roots(w: seq<Flight>, nearFrom: set<string>, date: int): (r: seq<Node>)
    ensures forall n :: n in r <==> n.flight in w && IsRootFlight(n.flight, nearFrom, date) && n.previous == None
  {
    if w == [] then []
    else (if IsRootFlight(w[0], nearFrom, date) then [Node(w[0], None)] else []) + Roots(w[1..], nearFrom, date)
  }

  /** The children of one frontier node: flights of the window that connect
      from parent, each pointing back to position pos. */
  function Connections(w: seq<Flight>, parent: Flight, pos: nat): (r: seq<Node>)
    ensures forall n :: n in r <==> n.flight in w && Connects(parent, n.flight) && n.previous == Some(pos)
  {
    if w == [] then []
    else (if Connects(parent, w[0]) then [Node(w[0], Some(pos))] else []) + Connections(w[1..], parent, pos)
  }

  /** The children of all frontier nodes, in frontier order; the node at
      frontier index i is referred to as position base + i, where it will sit
      once the frontier is appended to an arena of length base. */
  function NextLayer(w: seq<Flight>, frontier: seq<Node>, base: nat): seq<Node>
  {
    if frontier == [] then []
    else NextLayer(w, frontier[..|frontier| - 1], base)
         + Connections(w, frontier[|frontier| - 1].flight, base + |frontier| - 1)
  }

  /** Every child names a frontier index, and connects from the node there. */
  lemma {:induction false} NextLayerSound(w: seq<Flight>, frontier: seq<Node>, base: nat, n: Node)
    requires n in NextLayer(w, frontier, base)
    ensures n.previous.Some? && base <= n.previous.value < base + |frontier|
    ensures n.flight in w && Connects(frontier[n.previous.value - base].flight, n.flight)
  {
    var k := |frontier| - 1;
    var here := Connections(w, frontier[k].flight, base + k);
    assert NextLayer(w, frontier, base) == NextLayer(w, frontier[..k], base) + here;
    if n !in here {
      assert n in NextLayer(w, frontier[..k], base);
      NextLayerSound(w, frontier[..k], base, n);
      assert frontier[..k][n.previous.value - base] == frontier[n.previous.value - base];
    }
  }

  /** Every flight of the window that connects from a frontier node is a
      child pointing back to that node's position. */
  lemma {:induction false} NextLayerComplete(w: seq<Flight>, frontier: seq<Node>, base: nat, i: nat, f: Flight)
    requires i < |frontier| && f in w && Connects(frontier[i].flight, f)
    ensures Node(f, Some(base + i)) in NextLayer(w, frontier, base)
  {
    var k := |frontier| - 1;
    if i < k {
      assert frontier[..k][i] == frontier[i];
      NextLayerComplete(w, frontier[..k], base, i, f);
    }
  }

  lemma NextLayerOfEmpty(w: seq<Flight>, base: nat)
    ensures NextLayer(w, [], base) == []
  {
  }

  /** The arena and frontier after k rounds of the loop body, ignoring the
      stopping test. */
  function StageAt(w: seq<Flight>, nearFrom: set<string>, date: int, k: nat): Stage
  {
    if k == 0 then Stage([], Roots(w, nearFrom, date))
    else
      var s := StageAt(w, nearFrom, date, k - 1);
      Stage(s.arena + s.frontier, NextLayer(w, s.frontier, |s.arena|))
  }

  /** Some frontier flight lands at a near-destination airport. */
  predicate Reaches(frontier: seq<Node>, nearTo: set<string>)
  {
    exists i :: 0 <= i < |frontier| && frontier[i].flight.dest in nearTo
  }

  /** The negation of the loop condition. */
  predicate Stops(frontier: seq<Node>, nearTo: set<string>)
  {
    frontier == [] || Reaches(frontier, nearTo)
  }

  /** n is a node of the window whose back-reference is well placed: a node
      without a parent is a layer-0 flight, and a parent sits at a position
      below bound and is a flight that n connects from. */
  predicate Linked(arena: seq<Node>, n: Node, bound: nat, w: seq<Flight>, nearFrom: set<string>, date: int)
  {
    && n.flight in w
    && match n.previous
       case None => IsRootFlight(n.flight, nearFrom, date)
       case Some(p) => p < bound <= |arena| && Connects(arena[p].flight, n.flight)
  }

  /** Every arena node points strictly backwards; every frontier node points
      into the arena. */
  predicate StageValid(s: Stage, w: seq<Flight>, nearFrom: set<string>, date: int)
  {
    && (forall j {:trigger Linked(s.arena, s.arena[j], j, w, nearFrom, date)} ::
          0 <= j < |s.arena| ==> Linked(s.arena, s.arena[j], j, w, nearFrom, date))
    && (forall i {:trigger Linked(s.arena, s.frontier[i], |s.arena|, w, nearFrom, date)} ::
          0 <= i < |s.frontier| ==> Linked(s.arena, s.frontier[i], |s.arena|, w, nearFrom, date))
  }

  /** One round of the loop body keeps the back-references well placed. */
  lemma StepValid(s: Stage, w: seq<Flight>, nearFrom: set<string>, date: int)
    requires StageValid(s, w, nearFrom, date)
    ensures StageValid(Stage(s.arena + s.frontier, NextLayer(w, s.frontier, |s.arena|)), w, nearFrom, date)
  {
    var a := s.arena + s.frontier;
    var next := NextLayer(w, s.frontier, |s.arena|);
    forall j | 0 <= j < |a| ensures Linked(a, a[j], j, w, nearFrom, date) {
      if j < |s.arena| {
        assert a[j] == s.arena[j];
        assert Linked(s.arena, s.arena[j], j, w, nearFrom, date);
        if s.arena[j].previous.Some? {
          assert a[s.arena[j].previous.value] == s.arena[s.arena[j].previous.value];
        }
      } else {
        assert a[j] == s.frontier[j - |s.arena|];
        assert Linked(s.arena, s.frontier[j - |s.arena|], |s.arena|, w, nearFrom, date);
        if a[j].previous.Some? {
          assert a[a[j].previous.value] == s.arena[a[j].previous.value];
        }
      }
    }
    forall i | 0 <= i < |next| ensures Linked(a, next[i], |a|, w, nearFrom, date) {
      assert next[i] in next;
      NextLayerSound(w, s.frontier, |s.arena|, next[i]);
      var q := next[i].previous.value - |s.arena|;
      assert a[|s.arena| + q] == s.frontier[q];
    }
  }

  /** The back-reference invariant holds after every round: each child's
      previous names the arena position of its parent, from whose destination
      it departs within the connection bounds; a node without a parent is a
      layer-0 flight. */
  lemma {:induction false} StageValidAt(w: seq<Flight>, nearFrom: set<string>, date: int, k: nat)
    ensures StageValid(StageAt(w, nearFrom, date, k), w, nearFrom, date)
  {
    if k == 0 {
      RootsValid(w, nearFrom, date);
    } else {
      StageValidAt(w, nearFrom, date, k - 1);
      var s := StageAt(w, nearFrom, date, k - 1);
      StepValid(s, w, nearFrom, date);
      assert StageAt(w, nearFrom, date, k) == Stage(s.arena + s.frontier, NextLayer(w, s.frontier, |s.arena|));
    }
  }

  /** The first round: the layer-0 flights, none with a parent. */
  lemma RootsValid(w: seq<Flight>, nearFrom: set<string>, date: int)
    ensures StageValid(StageAt(w, nearFrom, date, 0), w, nearFrom, date)
  {
    var s := StageAt(w, nearFrom, date, 0);
    forall i | 0 <= i < |s.frontier| ensures Linked(s.arena, s.frontier[i], |s.arena|, w, nearFrom, date) {
      assert s.frontier[i] in Roots(w, nearFrom, date);
    }
  }

  /** Every node ever placed in the arena or a frontier is a catalog flight
      departing inside the window, both ends inclusive. */
  lemma ExaminedFlightsInWindow(catalog: seq<Flight>, nearFrom: set<string>, date: int, k: nat)
    ensures var s := StageAt(Window(catalog, date), nearFrom, date, k);
      forall n :: n in s.arena + s.frontier ==> n.flight in catalog && InWindow(n.flight, date)
  {
    var w := Window(catalog, date);
    var s := StageAt(w, nearFrom, date, k);
    StageValidAt(w, nearFrom, date, k);
    forall n | n in s.arena + s.frontier ensures n.flight in catalog && InWindow(n.flight, date) {
      if n in s.arena {
        var j :| 0 <= j < |s.arena| && s.arena[j] == n;
        assert Linked(s.arena, s.arena[j], j, w, nearFrom, date);
      } else {
        var i :| 0 <= i < |s.frontier| && s.frontier[i] == n;
        assert Linked(s.arena, s.frontier[i], |s.arena|, w, nearFrom, date);
      }
    }
  }

  /** A child departs at least an hour after its parent departed. */
  lemma StepDepartures(s: Stage, w: seq<Flight>, nearFrom: set<string>, date: int, t: int)
    requires DepartsBeforeArrives(w)
    requires StageValid(s, w, nearFrom, date)
    requires forall n :: n in s.frontier ==> n.flight.departure >= t
    ensures forall n :: n in NextLayer(w, s.frontier, |s.arena|) ==> n.flight.departure >= t + MinConnection
  {
    forall n | n in NextLayer(w, s.frontier, |s.arena|) ensures n.flight.departure >= t + MinConnection {
      NextLayerSound(w, s.frontier, |s.arena|, n);
      var i := n.previous.value - |s.arena|;
      assert s.frontier[i] in s.frontier;
      assert Linked(s.arena, s.frontier[i], |s.arena|, w, nearFrom, date);
    }
  }

  /** Layer k departs no earlier than k hours after the requested instant. */
  lemma {:induction false} LayerDepartures(w: seq<Flight>, nearFrom: set<string>, date: int, k: nat)
    requires DepartsBeforeArrives(w)
    ensures forall n :: n in StageAt(w, nearFrom, date, k).frontier ==>
      n.flight.departure >= date + MinConnection * k
  {
    if k > 0 {
      LayerDepartures(w, nearFrom, date, k - 1);
      StageValidAt(w, nearFrom, date, k - 1);
      StepDepartures(StageAt(w, nearFrom, date, k - 1), w, nearFrom, date, date + MinConnection * (k - 1));
      assert MinConnection * k == MinConnection * (k - 1) + MinConnection;
    }
  }

  /** Only the first 49 layers (0 to 48) can be non-empty: each departs at
      least an hour after the one before, inside a window of 2880 minutes. */
  lemma FrontierBound(w: seq<Flight>, nearFrom: set<string>, date: int, k: nat)
    requires DepartsBeforeArrives(w)
    requires forall f :: f in w ==> InWindow(f, date)
    requires StageAt(w, nearFrom, date, k).frontier != []
    ensures k <= LastLayer
  {
    var n := StageAt(w, nearFrom, date, k).frontier[0];
    LayerDepartures(w, nearFrom, date, k);
    StageValidAt(w, nearFrom, date, k);
    assert Linked(StageAt(w, nearFrom, date, k).arena, n, |StageAt(w, nearFrom, date, k).arena|, w, nearFrom, date);
  }

  /** The round at which the loop of search_route stops, counting from k:
      the first round from k on whose frontier is empty or reaches a
      near-destination airport. */
  function FirstStop(w: seq<Flight>, nearFrom: set<string>, nearTo: set<string>, date: int, k: nat): (r: nat)
    requires DepartsBeforeArrives(w)
    requires forall f :: f in w ==> InWindow(f, date)
    requires k <= LastLayer + 1
    ensures k <= r <= LastLayer + 1
    ensures Stops(StageAt(w, nearFrom, date, r).frontier, nearTo)
    ensures forall j :: k <= j < r ==> !Stops(StageAt(w, nearFrom, date, j).frontier, nearTo)
    decreases LastLayer + 1 - k
  {
    if Stops(StageAt(w, nearFrom, date, k).frontier, nearTo) then k
    else
      FrontierBound(w, nearFrom, date, k);
      FirstStop(w, nearFrom, nearTo, date, k + 1)
  }

  /** Once a frontier is empty, every later one is too. */
  lemma {:induction false} EmptyStaysEmpty(w: seq<Flight>, nearFrom: set<string>, date: int, k: nat, j: nat)
    requires StageAt(w, nearFrom, date, k).frontier == []
    requires k <= j
    ensures StageAt(w, nearFrom, date, j).frontier == []
    decreases j - k
  {
    if k < j {
      EmptyStaysEmpty(w, nearFrom, date, k, j - 1);
      var s := StageAt(w, nearFrom, date, j - 1);
      NextLayerOfEmpty(w, |s.arena|);
    }
  }

  /** The loop ends on an empty frontier exactly when no round, however far
      the expansion is carried, reaches a near-destination airport. */
  lemma StopsEmptyIffNeverReaches(w: seq<Flight>, nearFrom: set<string>, nearTo: set<string>, date: int)
    requires DepartsBeforeArrives(w) && forall f :: f in w ==> InWindow(f, date)
    ensures StageAt(w, nearFrom, date, FirstStop(w, nearFrom, nearTo, date, 0)).frontier == []
            <==> forall j: nat :: !Reaches(StageAt(w, nearFrom, date, j).frontier, nearTo)
  {
    var k := FirstStop(w, nearFrom, nearTo, date, 0);
    if StageAt(w, nearFrom, date, k).frontier == [] {
      forall j: nat ensures !Reaches(StageAt(w, nearFrom, date, j).frontier, nearTo) {
        if k <= j { EmptyStaysEmpty(w, nearFrom, date, k, j); }
      }
    } else {
      assert Reaches(StageAt(w, nearFrom, date, k).frontier, nearTo);
    }
  }

  /** A loop that stops on a non-empty frontier stops at the first round
      that reaches a near-destination airport. */
  lemma StopsAtFirstReaching(w: seq<Flight>, nearFrom: set<string>, nearTo: set<string>, date: int)
    requires DepartsBeforeArrives(w) && forall f :: f in w ==> InWindow(f, date)
    requires StageAt(w, nearFrom, date, FirstStop(w, nearFrom, nearTo, date, 0)).frontier != []
    ensures var k := FirstStop(w, nearFrom, nearTo, date, 0);
      && Reaches(StageAt(w, nearFrom, date, k).frontier, nearTo)
      && forall j :: 0 <= j < k ==> !Reaches(StageAt(w, nearFrom, date, j).frontier, nearTo)
  {
  }

  /** No round before round k stops the loop. */
  predicate NoStopBefore(w: seq<Flight>, nearFrom: set<string>, nearTo: set<string>, date: int, k: nat)
  {
    forall j :: 0 <= j < k ==> !Stops(StageAt(w, nearFrom, date, j).frontier, nearTo)
  }

  /** A round that does not stop extends the rounds without a stop. */
  lemma NoStopBeforeNext(w: seq<Flight>, nearFrom: set<string>, nearTo: set<string>, date: int, k: nat)
    requires NoStopBefore(w, nearFrom, nearTo, date, k)
    requires !Stops(StageAt(w, nearFrom, date, k).frontier, nearTo)
    ensures NoStopBefore(w, nearFrom, nearTo, date, k + 1)
  {
  }

  /** The first round that stops, found by counting rounds from 0, is FirstStop. */
  lemma FirstStopIsFirst(w: seq<Flight>, nearFrom: set<string>, nearTo: set<string>, date: int, k: nat)
    requires DepartsBeforeArrives(w) && forall f :: f in w ==> InWindow(f, date)
    requires Stops(StageAt(w, nearFrom, date, k).frontier, nearTo)
    requires NoStopBefore(w, nearFrom, nearTo, date, k)
    ensures FirstStop(w, nearFrom, nearTo, date, 0) == k
  {
  }
}
