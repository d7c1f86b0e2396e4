/** Normalisation of raw schedule rows into catalog records: the date and the
    scheduled hhmm clock readings become minute instants, and an arrival that
    comes out before its departure is moved one day later. */
module Loading {
  import opened Schedule

  /** A raw schedule row: the columns Year, Month, DayofMonth, CRSDepTime,
      CRSArrTime, Origin and Dest. Clock readings are hhmm integers. */
  datatype RawFlight = RawFlight(
    year: int,
    month: int,
    dayOfMonth: int,
    crsDepTime: int,
    crsArrTime: int,
    origin: string,
    dest: string)

  /** Floor division and modulo, as Python's `//` and `%` on a positive divisor. */
  function Hour(hhmm: int): int { hhmm / 100 }

  function Minute(hhmm: int): int { hhmm % 100 }

  /** A reading that is a clock time: hour 0..23, minute 0..59. */
  predicate ValidClock(hhmm: int)
  {
    0 <= Hour(hhmm) <= 23 && Minute(hhmm) <= 59
  }

  /** A reading that falls within its own day, both ends included: every
      clock time, and 2400, the usual encoding of the following midnight. */
  predicate InDay(hhmm: int)
  {
    0 <= MinuteOfDay(hhmm) <= MinutesPerDay
  }

  function MinuteOfDay(hhmm: int): int
  {
    Hour(hhmm) * MinutesPerHour + Minute(hhmm)
  }

  /** The hhmm reading of a minute of the day: the inverse of MinuteOfDay. */
  function ClockOf(m: int): int
  {
    (m / MinutesPerHour) * 100 + m % MinutesPerHour
  }

  lemma ClockRoundTrip(hhmm: int)
    requires ValidClock(hhmm)
    ensures 0 <= MinuteOfDay(hhmm) < MinutesPerDay
    ensures ClockOf(MinuteOfDay(hhmm)) == hhmm
  {
    var h, m := Hour(hhmm), Minute(hhmm);
    assert hhmm == 100 * h + m;
    var q := h * 60 + m;
    assert q / 60 == h && q % 60 == m by {
      assert 0 <= m < 60;
    }
  }

  predicate IsLeapYear(y: int)
  {
    y % 4 == 0 && (y % 100 != 0 || y % 400 == 0)
  }

  function DaysInMonth(y: int, m: int): int
    requires 1 <= m <= 12
  {
    if m == 2 then (if IsLeapYear(y) then 29 else 28)
    else if m == 4 || m == 6 || m == 9 || m == 11 then 30
    else 31
  }

  predicate ValidDate(y: int, m: int, d: int)
  {
    1 <= m <= 12 && 1 <= d <= DaysInMonth(y, m)
  }

  /** Days from the start of era 0 (March 1 of year 0) to March 1 of the
      March-based year y, which runs from March of y to February of y + 1. */
  function MarchStart(y: int): int
  {
    var era := y / 400;
    var yoe := y - era * 400;
    era * 146097 + yoe * 365 + yoe / 4 - yoe / 100
  }

  /** Days from March 1 to day d of month m, within a March-based year. */
  function DayOfMarchYear(m: int, d: int): int
  {
    (153 * ((m + 9) % 12) + 2) / 5 + d - 1
  }

  /** Days from 1970-01-01 to the given date of the proleptic Gregorian
      calendar (March-based years of 400-year eras). */
  function DayNumber(y: int, m: int, d: int): int
  {
    MarchStart(if m <= 2 then y - 1 else y) + DayOfMarchYear(m, d) - 719468
  }

  /** The epoch is day 0. */
  lemma DayNumberEpoch()
    ensures DayNumber(1970, 1, 1) == 0
  {
  }

  /** The numbering runs on across a leap day into March. */
  lemma DayNumberLeapDay()
    ensures DayNumber(2000, 3, 1) == DayNumber(2000, 2, 29) + 1
  {
    assert DayNumber(2000, 2, 29) == 11016;
    assert DayNumber(2000, 3, 1) == 11017;
  }

  /** The numbering runs on across the turn of a year. */
  lemma DayNumberYearEnd()
    ensures DayNumber(2024, 1, 1) == DayNumber(2023, 12, 31) + 1 == 19723
  {
  }

  /** The calendar date after a valid date. */
  function NextDate(y: int, m: int, d: int): (int, int, int)
    requires ValidDate(y, m, d)
  {
    if d < DaysInMonth(y, m) then (y, m, d + 1)
    else if m < 12 then (y, m + 1, 1)
    else (y + 1, 1, 1)
  }

  /** The numbering counts days: the date after any valid date is valid and
      has the next day number. With DayNumberEpoch this fixes DayNumber as
      the count of days since 1970-01-01 on every valid date. */
  lemma DayNumberSuccessor(y: int, m: int, d: int)
    requires ValidDate(y, m, d)
    ensures var (y2, m2, d2) := NextDate(y, m, d);
      ValidDate(y2, m2, d2) && DayNumber(y2, m2, d2) == DayNumber(y, m, d) + 1
  {
    if d == DaysInMonth(y, m) {
      if m == 2 {
        MarchYearLength(y - 1);
      } else {
        MonthLength(m);
      }
    }
  }

  /** Outside February, the March-based offset of the next month's first day
      is the offset of this month's last day plus one. */
  lemma MonthLength(m: int)
    requires 1 <= m <= 12 && m != 2
    ensures DayOfMarchYear(if m < 12 then m + 1 else 1, 1) == DayOfMarchYear(m, DaysInMonth(0, m)) + 1
  {
  }

  /** A March-based year that ends in the February of a leap year has 366
      days, every other one 365. */
  lemma MarchYearLength(y: int)
    ensures MarchStart(y + 1) == MarchStart(y) + 365 + (if IsLeapYear(y + 1) then 1 else 0)
  {
    var era, yoe := y / 400, y % 400;
    assert y == 400 * era + yoe;
    if yoe < 399 {
      WithinEra(era, yoe);
    } else {
      EraEnd(era);
    }
  }

  /** The year after year yoe of an era, inside the same era. */
  lemma WithinEra(era: int, yoe: int)
    requires 0 <= yoe < 399
    ensures MarchStart(400 * era + yoe + 1)
      == MarchStart(400 * era + yoe) + 365 + (if IsLeapYear(400 * era + yoe + 1) then 1 else 0)
  {
    MarchStartOf(era, yoe);
    MarchStartOf(era, yoe + 1);
    EraYearLength(yoe);
    ShiftedRemainders(era, yoe + 1);
  }

  /** The year after the last year of an era opens the next era, and is a
      leap year. */
  lemma EraEnd(era: int)
    ensures MarchStart(400 * era + 400) == MarchStart(400 * era + 399) + 366
    ensures IsLeapYear(400 * era + 400)
  {
    MarchStartOf(era, 399);
    MarchStartOf(era + 1, 0);
    Split4(100 * era + 100, 0);
    Split400(era + 1, 0);
  }

  /** MarchStart of year yoe of an era, with the era and year of era given. */
  lemma MarchStartOf(era: int, yoe: int)
    requires 0 <= yoe < 400
    ensures MarchStart(400 * era + yoe) == era * 146097 + yoe * 365 + yoe / 4 - yoe / 100
  {
    Split400(era, yoe);
  }

  /** Within an era, one more year adds a leap day when the new year of the
      era is a multiple of 4 but not of 100. */
  lemma EraYearLength(yoe: int)
    requires 0 <= yoe < 399
    ensures (yoe + 1) / 4 - (yoe + 1) / 100 - (yoe / 4 - yoe / 100)
      == if (yoe + 1) % 4 == 0 && (yoe + 1) % 100 != 0 then 1 else 0
  {
    NextQuotient4(yoe);
    NextQuotient100(yoe);
  }

  /** Counting on by one passes a multiple of 4 exactly when it lands on one. */
  lemma NextQuotient4(n: int)
    ensures (n + 1) / 4 == n / 4 + (if (n + 1) % 4 == 0 then 1 else 0)
  {
    var q, r := n / 4, n % 4;
    assert n == 4 * q + r;
    if r == 3 {
      Split4(q + 1, 0);
    } else {
      Split4(q, r + 1);
    }
  }

  /** Counting on by one passes a multiple of 100 exactly when it lands on one. */
  lemma NextQuotient100(n: int)
    ensures (n + 1) / 100 == n / 100 + (if (n + 1) % 100 == 0 then 1 else 0)
  {
    var q, r := n / 100, n % 100;
    assert n == 100 * q + r;
    if r == 99 {
      Split100(q + 1, 0);
    } else {
      Split100(q, r + 1);
    }
  }

  /** Whole eras do not change a year's remainders by 4, 100 and 400. */
  lemma ShiftedRemainders(era: int, n: int)
    requires 1 <= n < 400
    ensures (era * 400 + n) % 4 == n % 4
    ensures (era * 400 + n) % 100 == n % 100
    ensures (era * 400 + n) % 400 == n
  {
    assert n == 4 * (n / 4) + n % 4;
    Split4(era * 100 + n / 4, n % 4);
    assert n == 100 * (n / 100) + n % 100;
    Split100(era * 4 + n / 100, n % 100);
    Split400(era, n);
  }

  /** Division by a constant of a number given by quotient and remainder. */
  lemma Split4(q: int, r: int)
    requires 0 <= r < 4
    ensures (4 * q + r) / 4 == q && (4 * q + r) % 4 == r
  {
  }

  lemma Split100(q: int, r: int)
    requires 0 <= r < 100
    ensures (100 * q + r) / 100 == q && (100 * q + r) % 100 == r
  {
  }

  lemma Split10000(q: int, r: int)
    requires 0 <= r < 10000
    ensures (10000 * q + r) / 10000 == q && (10000 * q + r) % 10000 == r
  {
  }

  lemma Split400(q: int, r: int)
    requires 0 <= r < 400
    ensures (400 * q + r) / 400 == q && (400 * q + r) % 400 == r
  {
  }

  /** The instant of a clock reading on a given date. */
  function Instant(y: int, m: int, d: int, hhmm: int): int
  {
    DayNumber(y, m, d) * MinutesPerDay + MinuteOfDay(hhmm)
  }

  /** A calendar date: year, month and day of month. */
  datatype Date = Date(year: int, month: int, day: int)

  /** The date the datetime assembly reads from a row: it encodes the three
      fields as the integer year·10000 + month·100 + day and decodes that as
      yyyymmdd, so fields out of their range can spell another date. */
  function RowDate(r: RawFlight): Date
  {
    var n := r.year * 10000 + r.month * 100 + r.dayOfMonth;
    Date(n / 10000, n / 100 % 100, n % 100)
  }

  /** A row whose fields already form a real date stands for that date. */
  lemma RowDateOfRealDate(r: RawFlight)
    requires ValidDate(r.year, r.month, r.dayOfMonth)
    ensures RowDate(r) == Date(r.year, r.month, r.dayOfMonth)
  {
    var n := r.year * 10000 + r.month * 100 + r.dayOfMonth;
    assert n == 10000 * r.year + (r.month * 100 + r.dayOfMonth);
    Split10000(r.year, r.month * 100 + r.dayOfMonth);
    assert n == 100 * (100 * r.year + r.month) + r.dayOfMonth;
    Split100(100 * r.year + r.month, r.dayOfMonth);
    Split100(r.year, r.month);
  }

  /** A row the datetime assembly accepts: it spells a real date. Hour and
      minute are added to that date as durations, whatever their range. */
  predicate Loadable(r: RawFlight)
  {
    var dt := RowDate(r);
    ValidDate(dt.year, dt.month, dt.day)
  }

  /** Every row whose fields form a real date loads, as that date. */
  lemma RealDateLoadable(r: RawFlight)
    requires ValidDate(r.year, r.month, r.dayOfMonth)
    ensures Loadable(r) && RowDate(r) == Date(r.year, r.month, r.dayOfMonth)
  {
    RowDateOfRealDate(r);
  }

  /** Both times are taken on the date the row spells; an arrival before the
      departure is shifted one day later. Readings within the day give a
      record that departs no later than it arrives and arrives at most a day
      later; clock times give one that arrives less than a day later. */
  function Normalise(r: RawFlight): (f: Flight)
    requires Loadable(r)
    ensures f.origin == r.origin && f.dest == r.dest
    ensures InDay(r.crsDepTime) && InDay(r.crsArrTime) ==> f.departure <= f.arrival <= f.departure + MinutesPerDay
    ensures ValidClock(r.crsDepTime) && ValidClock(r.crsArrTime) ==> WellFormed(f)
  {
    var dt := RowDate(r);
    var dep := Instant(dt.year, dt.month, dt.day, r.crsDepTime);
    var arr := Instant(dt.year, dt.month, dt.day, r.crsArrTime);
    Flight(dep, if arr < dep then arr + MinutesPerDay else arr, r.origin, r.dest)
  }

  /** A loaded record decodes back to its row: the departure lies on the
      date the row spells, at its departure reading; the arrival lies at its arrival reading,
      on the same date or, exactly when that reading is earlier in the day
      than the departure's, on the next one. */
  lemma NormaliseRoundTrip(r: RawFlight)
    requires Loadable(r) && ValidClock(r.crsDepTime) && ValidClock(r.crsArrTime)
    ensures var f, dt := Normalise(r), RowDate(r);
      && f.departure / MinutesPerDay == DayNumber(dt.year, dt.month, dt.day)
      && ClockOf(f.departure % MinutesPerDay) == r.crsDepTime
      && f.arrival / MinutesPerDay
         == DayNumber(dt.year, dt.month, dt.day)
            + (if MinuteOfDay(r.crsArrTime) < MinuteOfDay(r.crsDepTime) then 1 else 0)
      && ClockOf(f.arrival % MinutesPerDay) == r.crsArrTime
  {
    var dt := RowDate(r);
    var day := DayNumber(dt.year, dt.month, dt.day);
    var md, ma := MinuteOfDay(r.crsDepTime), MinuteOfDay(r.crsArrTime);
    var shift := if ma < md then 1 else 0;
    NormaliseInstants(r, day, shift);
    InstantDecodes(day, r.crsDepTime);
    InstantDecodes(day + shift, r.crsArrTime);
  }

  /** The two instants of a record, as day and minute of the day. */
  lemma NormaliseInstants(r: RawFlight, day: int, shift: int)
    requires Loadable(r) && ValidClock(r.crsDepTime) && ValidClock(r.crsArrTime)
    requires day == DayNumber(RowDate(r).year, RowDate(r).month, RowDate(r).day)
    requires shift == if MinuteOfDay(r.crsArrTime) < MinuteOfDay(r.crsDepTime) then 1 else 0
    ensures Normalise(r).departure == day * MinutesPerDay + MinuteOfDay(r.crsDepTime)
    ensures Normalise(r).arrival == (day + shift) * MinutesPerDay + MinuteOfDay(r.crsArrTime)
  {
    ClockRoundTrip(r.crsDepTime);
    ClockRoundTrip(r.crsArrTime);
  }

  /** A 2400 arrival reading, which the datetime assembly accepts as 24
      hours, is the midnight that starts the next calendar date. */
  lemma NormaliseMidnight(r: RawFlight)
    requires Loadable(r) && InDay(r.crsDepTime) && r.crsArrTime == 2400
    ensures var dt := RowDate(r);
      var (y2, m2, d2) := NextDate(dt.year, dt.month, dt.day);
      Normalise(r).arrival == Instant(y2, m2, d2, 0)
  {
    var dt := RowDate(r);
    DayNumberSuccessor(dt.year, dt.month, dt.day);
  }

  /** A row of 2024-01-01 scheduled from 2300 to 2400 loads, as the record
      from 23:00 of that day to the midnight that ends it. */
  lemma MidnightRowLoads()
    ensures LoadBatch([RawFlight(2024, 1, 1, 2300, 2400, "LAX", "SFO")])
      == Some([Flight(19723 * MinutesPerDay + 23 * 60, 19724 * MinutesPerDay, "LAX", "SFO")])
  {
    var row := RawFlight(2024, 1, 1, 2300, 2400, "LAX", "SFO");
    DayNumberYearEnd();
    RealDateLoadable(row);
    assert Normalise(row) == Flight(19723 * MinutesPerDay + 23 * 60, 19724 * MinutesPerDay, "LAX", "SFO");
    assert [row][1..] == [];
    assert LoadBatch([row][1..]) == Some([]);
    assert [Normalise(row)] + [] == [Normalise(row)];
  }

  /** A row of 2024, month 0, day 1231 encodes as 20241231 and so stands
      for 2024-12-31. */
  lemma OverflowMonthDate()
    ensures RowDate(RawFlight(2024, 0, 1231, 800, 900, "A", "B")) == Date(2024, 12, 31)
    ensures Loadable(RawFlight(2024, 0, 1231, 800, 900, "A", "B"))
  {
    Split10000(2024, 1231);
    Split100(202412, 31);
    Split100(2024, 12);
  }

  /** A row of 2024, month 1, day 101 encodes as 20240201 and so loads as a
      flight of 2024-02-01, day 19754. */
  lemma OverflowDayLoads()
    ensures RowDate(RawFlight(2024, 1, 101, 800, 900, "A", "B")) == Date(2024, 2, 1)
    ensures LoadBatch([RawFlight(2024, 1, 101, 800, 900, "A", "B")])
      == Some([Flight(19754 * MinutesPerDay + 8 * 60, 19754 * MinutesPerDay + 9 * 60, "A", "B")])
  {
    var row := RawFlight(2024, 1, 101, 800, 900, "A", "B");
    Split10000(2024, 201);
    Split100(202402, 1);
    Split100(2024, 2);
    assert RowDate(row) == Date(2024, 2, 1);
    assert DayNumber(2024, 2, 1) == 19754;
    assert Normalise(row) == Flight(19754 * MinutesPerDay + 8 * 60, 19754 * MinutesPerDay + 9 * 60, "A", "B");
    assert [row][1..] == [];
    assert LoadBatch([row][1..]) == Some([]);
    assert [Normalise(row)] + [] == [Normalise(row)];
  }

  /** The instant of a reading on a day decodes back to that day and reading. */
  lemma InstantDecodes(day: int, hhmm: int)
    requires ValidClock(hhmm)
    ensures (day * MinutesPerDay + MinuteOfDay(hhmm)) / MinutesPerDay == day
    ensures ClockOf((day * MinutesPerDay + MinuteOfDay(hhmm)) % MinutesPerDay) == hhmm
  {
    ClockRoundTrip(hhmm);
    DivModOf(day, MinuteOfDay(hhmm));
  }

  lemma DivModOf(day: int, m: int)
    requires 0 <= m < MinutesPerDay
    ensures (day * MinutesPerDay + m) / MinutesPerDay == day
    ensures (day * MinutesPerDay + m) % MinutesPerDay == m
  {
  }

  /** __load_data on one batch: all or nothing, since one bad row makes the
      datetime assembly of the whole frame fail. */
  function LoadBatch(batch: seq<RawFlight>): (r: Option<seq<Flight>>)
    ensures r.Some? <==> forall i :: 0 <= i < |batch| ==> Loadable(batch[i])
    ensures r.Some? ==> |r.value| == |batch|
    ensures r.Some? ==> forall i :: 0 <= i < |batch| ==> Loadable(batch[i]) && r.value[i] == Normalise(batch[i])
  {
    if batch == [] then Some([])
    else if !Loadable(batch[0]) then None
    else match LoadBatch(batch[1..])
      case None => None
      case Some(rest) => Some([Normalise(batch[0])] + rest)
  }

  /** Every reading of the batch falls within its own day. */
  predicate ReadingsInDay(batch: seq<RawFlight>)
  {
    forall i :: 0 <= i < |batch| ==> InDay(batch[i].crsDepTime) && InDay(batch[i].crsArrTime)
  }

  /** A loaded batch whose readings fall within their day holds only records
      that depart no later than they arrive. */
  lemma LoadedBatchOrdered(batch: seq<RawFlight>)
    requires LoadBatch(batch).Some?
    ensures ReadingsInDay(batch) ==> DepartsBeforeArrives(LoadBatch(batch).value)
  {
    forall f | ReadingsInDay(batch) && f in LoadBatch(batch).value ensures f.departure <= f.arrival {
      var i :| 0 <= i < |batch| && LoadBatch(batch).value[i] == f;
    }
  }

  /** Every reading of every file falls within its own day. */
  predicate AllReadingsInDay(files: seq<seq<RawFlight>>)
  {
    forall i :: 0 <= i < |files| ==> ReadingsInDay(files[i])
  }

  /** Every stored file loads. */
  predicate AllLoad(files: seq<seq<RawFlight>>)
  {
    forall i :: 0 <= i < |files| ==> LoadBatch(files[i]).Some?
  }

  /** The stored files loaded one after another and concatenated; files
      whose readings fall within their day give an ordered catalog. */
  function LoadAll(files: seq<seq<RawFlight>>): (r: seq<Flight>)
    requires AllLoad(files)
    ensures AllReadingsInDay(files) ==> DepartsBeforeArrives(r)
  {
    if files == [] then []
    else
      var front := files[..|files| - 1];
      assert forall i :: 0 <= i < |front| ==> front[i] == files[i];
      LoadedBatchOrdered(files[|files| - 1]);
      LoadAll(front) + LoadBatch(files[|files| - 1]).value
  }

  /** Loading one more stored file appends its records to the catalog. */
  lemma LoadAllStep(files: seq<seq<RawFlight>>, i: nat)
    requires AllLoad(files) && i < |files|
    ensures AllLoad(files[..i]) && AllLoad(files[..i + 1])
    ensures LoadAll(files[..i + 1]) == LoadAll(files[..i]) + LoadBatch(files[i]).value
  {
    assert forall j :: 0 <= j < i + 1 ==> files[..i + 1][j] == files[j];
    assert files[..i + 1][..i] == files[..i];
  }
}
