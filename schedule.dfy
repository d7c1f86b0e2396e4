/** Entities shared by the route search: flights, airports and time constants.
    Instants and durations are whole minutes. */
module Schedule {

  datatype Option<T> = None | Some(value: T)

  const MinutesPerHour: int := 60
  const MinutesPerDay: int := 24 * MinutesPerHour

  /** One row of the flight catalog once its scheduled times became instants
      (the columns dep_date, arr_date, Origin and Dest). */
  datatype Flight = Flight(departure: int, arrival: int, origin: string, dest: string)

  /** What loading guarantees of a record whose readings are clock times:
      it arrives no earlier than it departs and less than a day later. */
  predicate WellFormed(f: Flight)
  {
    f.departure <= f.arrival < f.departure + MinutesPerDay
  }

  /** The weaker fact the search needs for its termination argument, which
      loading guarantees whenever the readings lie within their day. */
  predicate DepartsBeforeArrives(flights: seq<Flight>)
  {
    forall f :: f in flights ==> f.departure <= f.arrival
  }

  /** One row of the airport table. Names, kind and coordinates are carried
      as payload; only the IATA code, which may be missing, drives the logic. */
  datatype Airport = Airport(
    ident: string,
    name: string,
    kind: string,
    latitude: real,
    longitude: real,
    municipality: string,
    iataCode: Option<string>)
}
