# Air route search, modelled in Dafny

This project models the route searcher of `airroutes_api` (class
`AirRouteSearcher` in `search.py`) and proves properties of the model.

The searcher keeps two tables:

- an airport table, keeping only rows that carry an IATA code;
- a catalog of flight records, each with a departure instant, an arrival
  instant, an origin code and a destination code.

Raw schedule rows are normalised into records when they are loaded. The
row's date is assembled as the integer year·10000 + month·100 + day and read
back as yyyymmdd. So a row whose fields are out of range but spell another
real date loads as that date: month 1, day 101 of 2024 is 2024-02-01. A row
that spells no real date fails to load, and so does its whole batch. The
scheduled `hhmm` readings are split with `div 100` and `mod 100`, and the
hour and minute are added to midnight of that date as durations. A reading
outside the clock range is therefore not rejected: 2400 is the next
midnight. An arrival that comes out before its departure is moved one day
later. New batches are appended to the catalog.

A search is given the codes of the airports near the origin and near the
destination, and a departure instant. It runs in three steps:

1. **Layered expansion.** Layer 0 holds the flights of the two-day window
   that leave a near-origin airport within one day. Each round appends the
   frontier to an arena. The next frontier holds, for every frontier
   flight, the flights leaving its destination between one hour and one
   day after it lands. Each new node points back to the arena position of
   its parent. The loop stops when the frontier is empty ("Not found") or
   when some frontier flight lands at a near-destination airport.
2. **Reconstruction.** Each frontier flight that reached the destination
   is walked back along its back-references, summing the layovers. The
   first walk with the least sum is kept.
3. **Output.** The kept walk is reversed into chronological order. Each of
   its codes is resolved to the first airport row with that code.

Model choices:

- Instants are integer minutes. A date becomes a day number of the
  proleptic Gregorian calendar.
- The near-airport sets are inputs.
- Airport names, kinds and coordinates are payload that nothing computes with.

Modules, one per file:

| module | file | contents |
|---|---|---|
| `Schedule` | `schedule.dfy` | records and time constants |
| `Loading` | `loading.dfy` | row normalisation |
| `Airports` | `airports.dfy` | the airport filter and lookup |
| `Expansion` | `expansion.dfy` | the layered expansion, as functions of the catalog |
| `Reconstruction` | `reconstruction.dfy` | walk, choice and output |
| `Searcher` | `searcher.dfy` | the class with its state and methods, the specification function `Search` and the end-to-end properties |
| `Findings` | `findings.dfy` | the concrete itinerary behind the finding below |

How the source tests whether a node has a parent is a parameter,
`PreviousTest`:

- `Truthiness` is the code as written: arena position 0 counts as no parent.
- `NotNone` is the evidently intended `is not None`.

The specification function `Search` and the class method `SearchRoute`
take the test as a parameter, and the end-to-end lemmas hold for both
tests. `Search` with `Truthiness` is the code as written; the finding below
exhibits a route it gets wrong. With `NotNone`, `SearchRoute` also promises
that a found route leaves from a near-origin airport.

Behaviours of the code that the model keeps:

- **Windows are closed intervals.** All the windows (the two-day search
  window, the one-day layer-0 window and the connection window of one hour
  to one day) include both ends (search.py:56-57, 62-63, 70-71).
- **Missing airports fail the search.** A chosen leg whose code has no
  airport row makes the positional lookup fail (search.py:96-97). The
  model returns `UnknownAirport(code)` for the first such code.
- **The first leg may not start near the origin.** Nothing in the walk
  (search.py:86) ensures that the first leg's origin is near the origin;
  see "## Findings".
- **The search runs on ordered records.** The expansion loop
  (search.py:66-76) keeps no visited set. It terminates because each round
  departs at least an hour later inside the two-day window, which holds when
  every record of the two-day window departs no later than it arrives.
  Records outside the window play no part. Loading guarantees this
  for every reading whose minute of the day lies in [0, 1440], 2400
  included.

## Model

| member | source | states |
|---|---|---|
| Loading.RowDate | search.py:34-35 | The date read from a row: year·10000 + month·100 + day decoded as yyyymmdd; RowDateOfRealDate and OverflowDayLoads characterise it. |
| Loading.RowDateOfRealDate | search.py:34-35 | A row whose fields already form a real date stands for exactly that date. |
| Loading.RealDateLoadable | search.py:34-35 | Every row whose fields form a real date loads, as that date. |
| Loading.OverflowDayLoads | search.py:34-40 | Month 1, day 101 of 2024 spells 20240201, and a batch holding that row loads as a flight on 2024-02-01 (day 19754). |
| Loading.OverflowMonthDate | search.py:34-35 | Month 0, day 1231 of 2024 spells 20241231, a loadable row for 2024-12-31. |
| Loading.ClockRoundTrip | search.py:32-37 | For an `hhmm` reading with hour 0..23 and minute at most 59 (hour = `t div 100`, minute = `t mod 100`), the minute of the day lies in [0, 1440) and encodes back to the same reading. |
| Loading.DayNumberEpoch | search.py:35 | The day number of 1970-01-01 is 0. |
| Loading.DayNumberLeapDay | search.py:35 | 2000-03-01 is the day after the leap day 2000-02-29. |
| Loading.DayNumberYearEnd | search.py:35 | 2024-01-01 is the day after 2023-12-31, and is day 19723. |
| Loading.Hour | search.py:32 | The hour of a reading, `t div 100`, rounding down as Python's `//` does; ClockRoundTrip is its partner. |
| Loading.Minute | search.py:33 | The minute of a reading, `t mod 100`, never negative as with Python's `%`; ClockRoundTrip is its partner. |
| Loading.MinuteOfDay | search.py:32-35 | The offset from midnight that the datetime assembly adds: hour times 60 plus minute, for any reading; ClockRoundTrip proves it decodes back for clock readings. |
| Loading.DayNumber | search.py:35 | Days from 1970-01-01 to a date, by March-based years of 400-year eras; DayNumberEpoch and DayNumberSuccessor prove it counts days. |
| Loading.DayNumberSuccessor | search.py:35 | For every valid date, the next calendar date (the next day, the first of the next month, or January 1 of the next year) is valid and has the next day number, across month ends, leap days and century years alike. |
| Loading.Instant | search.py:35-38 | The minute instant of a reading on a date: day number times 1440 plus the minute of the day; NormaliseRoundTrip decodes it back. |
| Loading.Normalise | search.py:30-41 | Origin and destination are the row's. When both readings lie within the day (minute of the day in [0, 1440], 2400 included), the record departs no later than it arrives and arrives at most a day later. When both are clock times, it arrives less than a day later. Other readings are accepted unchecked, as in the source. |
| Loading.NormaliseMidnight | search.py:36-38 | A 2400 arrival reading lands on midnight of the next calendar date. |
| Loading.MidnightRowLoads | search.py:32-40 | The row of 2024-01-01 scheduled from 2300 to 2400 loads as the record from 23:00 of that day to the following midnight. |
| Loading.NormaliseRoundTrip | search.py:32-40 | For clock readings, a loaded record decodes back to its row: the departure lies on the date the row spells, at its departure reading; the arrival lies at its arrival reading, on the next day exactly when that reading is earlier in the day than the departure's, on the same day otherwise. |
| Loading.LoadBatch | search.py:30-41 | A batch loads exactly when every row spells a real date through the yyyymmdd encoding, whatever its readings; it then yields one record per row, in row order, each the normalisation of its row. |
| Loading.LoadedBatchOrdered | search.py:40 | When every reading of a loaded batch lies within the day, every record departs no later than it arrives. |
| Loading.LoadAll | search.py:21-27 | The catalog loaded at start-up from the stored files, in order; when every reading lies within the day, every record departs no later than it arrives. |
| Airports.KnownAirports | search.py:16 | The filtered table holds exactly the rows whose IATA code is present, and is no longer than the original. |
| Airports.FirstAirport | search.py:96-97 | The lookup returns nothing exactly when no row has the code; otherwise it returns a row with that code no row before which has it. |
| Airports.FirstAirportIgnoresNulls | search.py:16 | Looking a code up in the filtered table gives the same row as looking it up in the original table in load order. |
| Expansion.Window | search.py:56-57 | The window holds exactly the catalog flights departing between the requested instant and two days later, both ends included. |
| Expansion.Roots | search.py:61-64 | Layer 0 holds exactly the window's flights from a near-origin airport departing within one day of the requested instant, each without a parent. |
| Expansion.Connections | search.py:69-72 | The children of a flight are exactly the window's flights leaving its destination between one hour and one day after it lands, each pointing back to the given position. |
| Expansion.NextLayer | search.py:67-76 | The next frontier: the connections of each frontier node in turn; NextLayerSound and NextLayerComplete characterise it. |
| Expansion.StageAt | search.py:59-76 | The arena and frontier after k rounds of the loop, started from layer 0; StageValidAt, LayerDepartures and FrontierBound state what every stage satisfies. |
| Expansion.NextLayerSound | search.py:68-73 | Every child of a round points to a position base + i of the frontier and connects from the flight of frontier node i. |
| Expansion.NextLayerComplete | search.py:68-73 | Every window flight that connects from frontier node i is a child pointing back to position base + i. |
| Expansion.StageValidAt | search.py:66-76 | After every round, each node's back-reference names an earlier arena position holding a flight it connects from (destination equals origin, gap of 60 to 1440 minutes), and a node without a parent is a layer-0 flight. |
| Expansion.RootsValid | search.py:61-64 | In the first round no node has a parent and every node is a layer-0 flight. |
| Expansion.ExaminedFlightsInWindow | search.py:56-76 | Every node that ever enters the arena or a frontier is a catalog flight departing in the two-day window, both ends included. |
| Expansion.LayerDepartures | search.py:66-76 | Every flight of layer k departs at least 60·k minutes after the requested instant. |
| Expansion.FrontierBound | search.py:66-76 | A non-empty frontier can only occur in rounds 0 to 48, so the loop runs at most 49 times. |
| Expansion.FirstStop | search.py:66 | The round at which the loop stops is at most 49; its frontier is empty or reaches a near-destination airport, and no earlier round stops. |
| Expansion.EmptyStaysEmpty | search.py:66-76 | Once a frontier is empty, every later frontier is empty too. |
| Expansion.StopsEmptyIffNeverReaches | search.py:66-79 | The loop stops on an empty frontier exactly when no round, however far the expansion is carried, reaches a near-destination airport. |
| Expansion.StopsAtFirstReaching | search.py:66 | When the loop stops on a non-empty frontier, that frontier reaches a near-destination airport and no earlier one did. |
| Expansion.FirstStopIsFirst | search.py:66 | A round that stops, with no stop before it, is the round FirstStop names. |
| Reconstruction.ChainFrom | search.py:84-89 | The flights met walking back from arena position j while the parent test holds, newest first; ChainFromFacts states what every walk satisfies. |
| Reconstruction.Chain | search.py:83-89 | The walk of a frontier node: the node's flight followed by the walk from its parent; ChainFacts is its partner. |
| Reconstruction.Layover | search.py:85-87 | The wait summed along a walk, newest flight first; LayoverReversed equates it with the route's total layover. |
| Reconstruction.Select | search.py:81-92 | The candidate loop as a fold over the candidates, keeping the first walk with a wait strictly below the best so far; SelectIsFirstMinimum and PickFirstMinimum characterise it. |
| Reconstruction.Resolve | search.py:94-97 | The output: one leg per flight with the first airport row of each code, failing at the first missing code; ResolveMeaning, ResolvedFlights and ResolveFirstFailure characterise it. |
| Searcher.Search | search.py:52-111 | The whole search as a function of the catalog, the airport table, the near sets, the instant and the parent test; FoundRouteShape, FoundRouteIsFirstMinimum, NotFoundIffNoLayerReaches and the class method SearchRoute are proved against it. |
| Reconstruction.Reverse | search.py:95 | The reversal has the same length and lists the elements back to front. |
| Reconstruction.LayoverReversed | search.py:85-95 | The layover summed along the walk, newest flight first, equals the total layover of the route in chronological order. |
| Reconstruction.ChainFromFacts | search.py:84-89 | A walk from a valid arena starts at its node and is well chained: window flights, each connecting into the one before it, ending at a layer-0 flight (or, with the truthiness test, one step after one); its layover is at least 60 minutes per connection and at most the span of its departures. |
| Reconstruction.ChainFromStep | search.py:86-89 | One step of the walk moves the parent's flight from the rest of the walk to the walk so far. |
| Reconstruction.ChainFromEnd | search.py:86 | At a node the test reads as having no parent, the walk so far is the whole walk. |
| Reconstruction.WalkCons | search.py:70-89 | Putting a connecting window flight in front of a well-chained walk keeps it well chained and within its layover bounds. |
| Reconstruction.ChainFacts | search.py:83-89 | The same for the walk from any frontier node of a valid stage. |
| Reconstruction.Candidates | search.py:83 | The candidates are exactly the frontier nodes landing at a near-destination airport. |
| Reconstruction.SelectIsFirstMinimum | search.py:81-92 | The reconstruction chooses nothing exactly when every walk waits at least ten days; otherwise it chooses the walk of a candidate whose layover is the least of all, and strictly less than that of every earlier candidate. |
| Reconstruction.SelectFindsShortWalk | search.py:81-92 | If some candidate's walk waits less than ten days, a walk is chosen. |
| Reconstruction.PickFirstMinimum | search.py:90-92 | When a walk is chosen, it is the walk of a first-minimum candidate, and the kept wait is its layover. |
| Reconstruction.ResolveMeaning | search.py:95-97 | Resolution never reports 'Not found'; it succeeds exactly when every flight has both airport rows, and then gives one leg per flight, in order, with the first row of each code. |
| Reconstruction.ResolvedFlights | search.py:95-100 | The legs of a successful resolution are exactly the given flights, in order. |
| Reconstruction.ResolveFirstFailure | search.py:96-97 | A failed resolution names the missing code of the first flight lacking a row: its departure code if that is missing, its arrival code otherwise. |
| Reconstruction.ResolveKeepsFirstError | search.py:95-97 | Once a prefix fails to resolve, the whole route fails with the same code. |
| Searcher.FinalChoice | search.py:81-92 | When the loop stops on a non-empty frontier, there is a candidate and a walk is always chosen, since every walk waits at most two days, below the ten-day start. |
| Searcher.FoundRouteWalk | search.py:83-95 | A found route is the reversal of the walk of a first-minimum candidate of the stopping round. |
| Searcher.FoundRouteLegs | search.py:78-97 | A found route is the resolution of a well-chained walk of window flights that ends at a near-destination airport. |
| Searcher.WalkStartsNear | search.py:61-86 | The oldest flight of a well-chained walk is a layer-0 flight, or with the truthiness test a connection out of one. |
| Searcher.WalkLayover | search.py:85-95 | The layover bounds of a walk carry over to the legs resolved from it. |
| Searcher.WalkLegs | search.py:83-97 | The legs resolved from a well-chained walk are chronological, chain with gaps of one hour to one day, use the first airport rows, and end at a near-destination airport. |
| Searcher.FoundRouteShape | search.py:52-111 | A found route has at least one leg. Its legs are catalog flights in the window. Consecutive legs chain, each leaving where the previous one landed 60 to 1440 minutes later. Its last leg lands at a near-destination airport. Each end is the first airport row with that code. Its total layover is at least an hour per connection and at most two days. Its first leg is a layer-0 flight, except that with the truthiness test it may be one step after a layer-0 flight. |
| Searcher.FoundRouteIsFirstMinimum | search.py:66-92 | A found route comes from the first round that reaches a near-destination airport; its total layover is the least among that round's candidates and strictly less than that of every earlier candidate. |
| Searcher.NotFoundIffStopsEmpty | search.py:78-79 | The search says 'Not found' exactly when the loop stops on an empty frontier. |
| Searcher.NotFoundIffNoLayerReaches | search.py:66-79 | The search says 'Not found' exactly when no round of the expansion, however far carried, reaches a near-destination airport. |
| Searcher.IntendedRouteStartsNearOrigin | search.py:86 | With the intended `is not None` test, every found route starts at a near-origin airport within a day of the requested instant. |
| Searcher.AirRouteSearcher.constructor | search.py:10-27 | Start-up keeps the airport rows with a code and the concatenation of the stored files in order; when every stored reading lies within the day, the catalog is ordered. |
| Searcher.AirRouteSearcher.AddFlightData | search.py:43-46 | A batch that loads is appended after the stored records, which keep their places; one that fails leaves the catalog as it was; an empty batch changes nothing; an ordered catalog stays ordered after a batch whose readings lie within the day; the airport table is untouched. |
| Searcher.AirRouteSearcher.SearchRoute | search.py:52-111 | The imperative search returns exactly what the specification function `Search` gives with the same parent test; with the corrected `is not None` test, a route it finds leaves from a near-origin airport. |
| Searcher.Expand | search.py:59-76 | The expansion loop ends with the arena and frontier of the round at which the loop stops. |
| Searcher.ExpandLayer | search.py:67-73 | The inner loop builds the next layer, children in frontier order, each pointing to its parent's future arena position. |
| Searcher.WalkBack | search.py:84-89 | The walk loop collects the flights met along the back-references and their summed layover. |
| Searcher.ChooseRoute | search.py:81-92 | The candidate loop keeps the same route and wait as the first-minimum choice. |
| Searcher.Describe | search.py:94-111 | The output loop gives the resolution of the chronological route, failing at the first code without an airport row. |
| Findings.TwoRounds | search.py:61-76 | On the catalog of the finding, layer 0 is the LAX flight alone and round 1 holds the ORD flight pointing to position 0, where the loop stops. |
| Findings.ResolveTwoLegs | search.py:94-111 | The two-leg route LAX to ORD to JFK resolves to both legs with their airport rows. |
| Findings.SearchOnCatalog | search.py:52-95 | On the catalog of the finding, the search resolves the reversed walk chosen from the ORD flight of round 1, under either test. |
| Findings.AsWrittenDropsFirstLeg | search.py:86 | As written, the search from LAX to JFK returns the ORD to JFK leg alone, which does not leave a near-origin airport. |
| Findings.IntendedKeepsFirstLeg | search.py:86 | With the intended test, the same search returns both legs, LAX to ORD and ORD to JFK. |

## Left out

- Nearest-airport resolution (search.py:28, 48-50) is a foreign library call on float coordinates. The near-origin and near-destination code sets are inputs. The stored neighbour count is carried but unused.
- File and CSV I/O (search.py:14, 18-23, 31, 44-45) is left out. The stored files and new batches are given as sequences of rows. Saving a new batch to disk is not modelled.
- Date formatting of the output legs (search.py:99, 104) is left out. Legs carry integer minute instants.
- Airport latitude, longitude and name in the output (search.py:101-103, 106-108) are carried inside the airport row of each leg.
- Missing values and dtype coercion of the data frames are not modelled. Every row field is present and integral.
- Concurrent appends and searches are not modelled. The source has no concurrency.
- Adding flights is not claimed to make routes no worse. The code does not promise it: an added flight can make an earlier round reach the destination. The search then stops at that round and may return a route with a larger layover.
- Loading.LoadBatch: a row loads whenever its fields spell a real date through the yyyymmdd encoding, whatever its readings, as in the source. Dates and instants outside the range the source's datetime type can represent (before 1677 or after 2262) are not rejected, and neither are years without four digits.
- Searcher.AirRouteSearcher.constructor: requires every stored file to load, that is, every row to spell a real date. The source's start-up raises otherwise.
- Searcher.AirRouteSearcher.AddFlightData: a batch with a row that spells no real date makes the method return false. The source raises instead. In both, the catalog is unchanged.
- Searcher.Search: requires every record of the two-day window to depart no later than it arrives, the termination argument of the expansion loop. Records outside the window are unconstrained. Without it the loop need not end: a record from X to X arriving 60 to 1440 minutes before it departs connects to itself forever. Loading guarantees the requirement for readings whose minute of the day lies in [0, 1440]; readings further out, such as an hour of 99, are not covered.
- Searcher.AirRouteSearcher.SearchRoute: requires the records of the requested window to be ordered, for the same reason as Search.

## Findings

| source | as written | input that shows it | evidently intended | confidence | as-written member | corrected member |
|---|---|---|---|---|---|---|
| search.py:86 | The walk treats a parent at arena position 0 as no parent, because it tests the parent position for truthiness. | Catalog LAX→ORD departing 08:00 and landing 14:00 on day 0, and ORD→JFK departing 15:30 and landing 19:00. Request at 00:00 of day 0, near-origin {LAX}, near-destination {JFK}: the route returned is ORD→JFK alone. | Test the parent position with `is not None`. The route is then LAX→ORD→JFK and always starts at a near-origin airport. | not executed | Findings.AsWrittenDropsFirstLeg | Searcher.IntendedRouteStartsNearOrigin |
