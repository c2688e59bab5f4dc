/**
 * nfl/tz.py: fixed-offset zones, the "standard American" zones whose daylight saving
 * runs from midnight on the second Sunday of March to midnight on the first Sunday of
 * November, and the `M/D/Y` date parser. Offsets and DST amounts are in microseconds.
 */
module Tz {

  import opened Results
  import opened Calendar
  import opened Text

  const Sunday := 6

  /** `Zone` (never observes DST) and its subclass `StandardAmericanZone`. */
  datatype Zone =
    | Fixed(offset: int, name: string)
    | StandardAmerican(offset: int, name: string)

  const UTC: Zone := Fixed(0, "UTC")
  const EASTERN: Zone := StandardAmerican(-5, "America/New_York")
  const CENTRAL: Zone := StandardAmerican(-6, "America/Chicago")
  const MOUNTAIN: Zone := StandardAmerican(-7, "America/Denver")
  const PACIFIC: Zone := StandardAmerican(-8, "America/Los_Angeles")

  /** Python's OverflowError when date arithmetic leaves years 1..9999. */
  datatype DateError = Overflow

  /** The `6 - weekday` step of `_get_next_sunday`: how far the nearest Sunday on or after `d` is. */
  function DaysToSunday(d: Date): (n: int)
    requires WellFormed(d)
    ensures 0 <= n <= 6
    ensures Weekday(d) + n == Sunday
  {
    if Weekday(d) != Sunday then 6 - Weekday(d) else 0
  }

  /**
   * `_get_next_sunday(dt, days_to_add)`: the nearest Sunday on or after `dt`, then
   * `days_to_add` days further, at the same time of day; OverflowError when that day's
   * ordinal leaves `1..MaxOrdinal`. (Ordinals are injective, so this fixes the result.)
   */
  function NextSunday(dt: DateTime, daysToAdd: int): (r: Result<DateTime, DateError>)
    requires ValidDateTime(dt)
    ensures var ord := Ordinal(dt.date) + DaysToSunday(dt.date) + daysToAdd;
            (r.Ok? <==> 1 <= ord <= MaxOrdinal)
            && (r.Ok? ==> ValidDateTime(r.value) && r.value.time == dt.time && Ordinal(r.value.date) == ord)
  {
    var target := AddDays(dt.date, DaysToSunday(dt.date) + daysToAdd);
    ValidByOrdinal(target);
    if ValidDate(target) then Ok(DateTime(target, dt.time)) else Err(Overflow)
  }

  /** The result lands `days_to_add` days after a Sunday: on a Sunday when that is a whole number of weeks. */
  lemma NextSundayLands(dt: DateTime, k: int)
    requires ValidDateTime(dt)
    requires NextSunday(dt, k).Ok?
    ensures var r := NextSunday(dt, k).value;
            ValidDateTime(r) && r.time == dt.time
            && Weekday(r.date) == (Sunday + k) % 7
            && Ordinal(dt.date) + k <= Ordinal(r.date) <= Ordinal(dt.date) + k + 6
  {
    var r := NextSunday(dt, k).value;
    WeekdayShiftBy(dt.date, r.date, DaysToSunday(dt.date) + k, (Sunday + k) / 7);
  }

  /** With nothing added, the result is the earliest Sunday on or after `dt`: `dt` itself if it is one. */
  lemma NextSundayIsEarliest(dt: DateTime)
    requires ValidDateTime(dt)
    requires NextSunday(dt, 0).Ok?
    ensures var s := NextSunday(dt, 0).value;
            Weekday(s.date) == Sunday && Ordinal(dt.date) <= Ordinal(s.date)
            && (forall x :: WellFormed(x) && Ordinal(dt.date) <= Ordinal(x) < Ordinal(s.date) ==> Weekday(x) != Sunday)
            && (Weekday(dt.date) == Sunday ==> s == dt)
  {
    var s := NextSunday(dt, 0).value;
    WeekdayShiftBy(dt.date, s.date, DaysToSunday(dt.date), 0);
    forall x | WellFormed(x) && Ordinal(dt.date) <= Ordinal(x) < Ordinal(s.date)
      ensures Weekday(x) != Sunday
    {
      NoSundayBefore(dt.date, x);
    }
    if Weekday(dt.date) == Sunday {
      OrdinalInjective(s.date, dt.date);
    }
  }

  lemma NoSundayBefore(d: Date, x: Date)
    requires WellFormed(d) && WellFormed(x)
    requires Ordinal(d) <= Ordinal(x) < Ordinal(d) + DaysToSunday(d)
    ensures Weekday(x) != Sunday
  {
    WeekdayShiftBy(d, x, Ordinal(x) - Ordinal(d), 0);
  }

  /** Adding `k` days to the nearest Sunday is what `days_to_add = k` does. */
  lemma NextSundayShift(dt: DateTime, k: int)
    requires ValidDateTime(dt)
    requires NextSunday(dt, 0).Ok? && NextSunday(dt, k).Ok?
    ensures NextSunday(dt, k).value == DateTime(AddDays(NextSunday(dt, 0).value.date, k), dt.time)
  {
    var s := NextSunday(dt, 0).value;
    OrdinalInjective(NextSunday(dt, k).value.date, AddDays(s.date, k));
  }

  /** `get_dst_start(dt)`: midnight at the start of the second Sunday of March in `dt`'s year. */
  function GetDstStart(dt: DateTime): (r: DateTime)
    requires ValidDateTime(dt)
    ensures r.time == 0 && r.date.year == dt.date.year && r.date.month == 3
    ensures 8 <= r.date.day <= 14 && Weekday(r.date) == Sunday
    ensures forall j :: 1 <= j < r.date.day ==>
              (Weekday(Date(r.date.year, 3, j)) == Sunday <==> j == r.date.day - 7)
  {
    var march1 := Date(dt.date.year, 3, 1);
    StaysInMonth(march1, 7);
    var r := NextSunday(Midnight(march1), 7).value;
    SecondSundayOnly(r.date);
    r
  }

  /** From the first of a month, `_get_next_sunday` with 0 or 7 extra days stays in that month, on a Sunday. */
  lemma StaysInMonth(first: Date, k: nat)
    requires ValidDate(first) && first.day == 1 && (k == 0 || k == 7)
    ensures var n := DaysToSunday(first);
            NextSunday(Midnight(first), k) == Ok(Midnight(first.(day := 1 + n + k)))
            && Weekday(first.(day := 1 + n + k)) == Sunday
  {
    var n := DaysToSunday(first);
    var target := first.(day := 1 + n + k);
    assert WellFormed(target) && Ordinal(target) == Ordinal(first) + n + k;
    ValidByOrdinal(target);
    var r := NextSunday(Midnight(first), k);
    assert r.Ok?;
    OrdinalInjective(r.value.date, target);
    WeekdayShiftBy(first, target, n + k, k / 7);
  }

  lemma SecondSundayOnly(s: Date)
    requires WellFormed(s) && 8 <= s.day <= 14 && Weekday(s) == Sunday
    ensures forall j :: 1 <= j < s.day ==> (Weekday(Date(s.year, s.month, j)) == Sunday <==> j == s.day - 7)
  {
    forall j | 1 <= j < s.day
      ensures Weekday(Date(s.year, s.month, j)) == Sunday <==> j == s.day - 7
    {
      SundayWithinTwoWeeks(s, Date(s.year, s.month, j), j - s.day);
    }
  }

  /** Of the thirteen days before a Sunday, only the one a week earlier is a Sunday. */
  lemma SundayWithinTwoWeeks(s: Date, x: Date, n: int)
    requires WellFormed(s) && WellFormed(x) && Weekday(s) == Sunday
    requires Ordinal(x) == Ordinal(s) + n && -13 <= n <= 0
    ensures Weekday(x) == Sunday <==> n == 0 || n == -7
  {
    if n >= -6 {
      WeekdayShiftBy(s, x, n, 0);
    } else {
      WeekdayShiftBy(s, x, n, -1);
    }
  }

  /** `get_dst_end(dt)`: midnight at the start of the first Sunday of November in `dt`'s year. */
  function GetDstEnd(dt: DateTime): (r: DateTime)
    requires ValidDateTime(dt)
    ensures r.time == 0 && r.date.year == dt.date.year && r.date.month == 11
    ensures 1 <= r.date.day <= 7 && Weekday(r.date) == Sunday
    ensures forall j :: 1 <= j < r.date.day ==> Weekday(Date(r.date.year, 11, j)) != Sunday
  {
    var november1 := Date(dt.date.year, 11, 1);
    StaysInMonth(november1, 0);
    var r := NextSunday(Midnight(november1), 0).value;
    FirstSundayOnly(r.date);
    r
  }

  lemma FirstSundayOnly(s: Date)
    requires WellFormed(s) && 1 <= s.day <= 7 && Weekday(s) == Sunday
    ensures forall j :: 1 <= j < s.day ==> Weekday(Date(s.year, s.month, j)) != Sunday
  {
    forall j | 1 <= j < s.day
      ensures Weekday(Date(s.year, s.month, j)) != Sunday
    {
      SundayWithinTwoWeeks(s, Date(s.year, s.month, j), j - s.day);
    }
  }

  /**
   * `dst(dt)` of either zone class: an hour inside `[get_dst_start, get_dst_end)`, else
   * nothing. For an American zone that is exactly the calendar rule `InDstCalendar`; the
   * half-open interval makes midnight of the start day daylight time and midnight of the
   * end day not.
   */
  function Dst(zone: Zone, dt: DateTime): (r: int)
    requires ValidDateTime(dt)
    ensures r == 0 || r == MicrosPerHour
    ensures zone.Fixed? ==> r == 0
    ensures zone.StandardAmerican? ==> (r == MicrosPerHour <==> InDstCalendar(dt))
  {
    match zone
    case Fixed(_, _) => 0
    case StandardAmerican(_, _) =>
      var start, end := GetDstStart(dt), GetDstEnd(dt);
      SundaysThroughSecond(dt.date.year, 3, start.date.day, dt.date.day);
      SundaysThroughFirst(dt.date.year, 11, end.date.day, dt.date.day);
      if AtOrBefore(start, dt) && Before(dt, end) then MicrosPerHour else 0
  }

  /** How many of days `1..n` of a month are Sundays. */
  function SundaysThrough(y: int, m: int, n: int): nat
    requires 1 <= m <= 12 && 0 <= n
    decreases n
  {
    if n == 0 then 0
    else SundaysThrough(y, m, n - 1) + (if Weekday(Date(y, m, n)) == Sunday then 1 else 0)
  }

  /**
   * The US rule the module docstring states, read off the calendar: daylight time holds
   * from the day March's second Sunday has been reached until the day November's first
   * Sunday is reached.
   */
  predicate InDstCalendar(dt: DateTime)
    requires ValidDateTime(dt)
  {
    var d := dt.date;
    (d.month > 3 || (d.month == 3 && SundaysThrough(d.year, 3, d.day) >= 2))
    && (d.month < 11 || (d.month == 11 && SundaysThrough(d.year, 11, d.day) == 0))
  }

  /** Counting March's Sundays: the second one is reached exactly on day `s`. */
  lemma {:induction false} SundaysThroughSecond(y: int, m: int, s: int, n: int)
    requires 1 <= m <= 12 && 8 <= s <= 14 && 0 <= n
    requires Weekday(Date(y, m, s)) == Sunday
    requires forall j :: 1 <= j < s ==> (Weekday(Date(y, m, j)) == Sunday <==> j == s - 7)
    ensures n < s - 7 ==> SundaysThrough(y, m, n) == 0
    ensures s - 7 <= n < s ==> SundaysThrough(y, m, n) == 1
    ensures s <= n ==> SundaysThrough(y, m, n) >= 2
    decreases n
  {
    if n > 0 {
      SundaysThroughSecond(y, m, s, n - 1);
    }
  }

  /** Counting November's Sundays: none is reached before day `e`, the first one. */
  lemma {:induction false} SundaysThroughFirst(y: int, m: int, e: int, n: int)
    requires 1 <= m <= 12 && 1 <= e <= 7 && 0 <= n
    requires Weekday(Date(y, m, e)) == Sunday
    requires forall j :: 1 <= j < e ==> Weekday(Date(y, m, j)) != Sunday
    ensures SundaysThrough(y, m, n) == 0 <==> n < e
    decreases n
  {
    if n > 0 {
      SundaysThroughFirst(y, m, e, n - 1);
    }
  }

  /** The instants at and around the two transitions. */
  lemma DstBoundaries(zone: Zone, dt: DateTime)
    requires ValidDateTime(dt) && zone.StandardAmerican?
    ensures Dst(zone, GetDstStart(dt)) == MicrosPerHour
    ensures Dst(zone, GetDstEnd(dt)) == 0
    ensures var s := GetDstStart(dt);
            Dst(zone, DateTime(s.date.(day := s.date.day - 1), MicrosPerDay - 1)) == 0
    ensures var e := GetDstEnd(dt);
            e.date.day > 1 ==> Dst(zone, DateTime(e.date.(day := e.date.day - 1), MicrosPerDay - 1)) == MicrosPerHour
  {
  }

  /** `utcoffset(dt)`: the zone's hour offset plus its DST hour, in microseconds. */
  function UtcOffset(zone: Zone, dt: DateTime): (r: int)
    requires ValidDateTime(dt)
    ensures zone.Fixed? ==> r == zone.offset * MicrosPerHour
    ensures zone.StandardAmerican? ==>
              r == if InDstCalendar(dt) then (zone.offset + 1) * MicrosPerHour else zone.offset * MicrosPerHour
  {
    if zone.StandardAmerican? then zone.offset * MicrosPerHour + Dst(zone, dt)
    else zone.offset * MicrosPerHour + Dst(zone, dt)
  }

  /** The module's zone constants: UTC never shifts; Eastern is five hours behind, four in DST. */
  lemma ZoneConstants(dt: DateTime)
    requires ValidDateTime(dt)
    ensures UtcOffset(UTC, dt) == 0
    ensures UtcOffset(EASTERN, dt) == if InDstCalendar(dt) then -4 * MicrosPerHour else -5 * MicrosPerHour
    ensures UtcOffset(CENTRAL, dt) == if InDstCalendar(dt) then -5 * MicrosPerHour else -6 * MicrosPerHour
    ensures UtcOffset(MOUNTAIN, dt) == if InDstCalendar(dt) then -6 * MicrosPerHour else -7 * MicrosPerHour
    ensures UtcOffset(PACIFIC, dt) == if InDstCalendar(dt) then -7 * MicrosPerHour else -8 * MicrosPerHour
  {
  }

  /** The transition dates depend on the year of `dt` alone. */
  lemma TransitionsDependOnYear(dt: DateTime)
    requires ValidDateTime(dt)
    ensures GetDstStart(dt) == GetDstStart(Midnight(Date(dt.date.year, 1, 1)))
    ensures GetDstEnd(dt) == GetDstEnd(Midnight(Date(dt.date.year, 1, 1)))
  {
  }

  /** In 2011 daylight time began on 13 March... */
  lemma DstStart2011(dt: DateTime)
    requires ValidDateTime(dt) && dt.date.year == 2011
    ensures GetDstStart(dt) == Midnight(Date(2011, 3, 13))
  {
    assert Ordinal(Date(2011, 3, 1)) == 734197;
    ModOf(734197 + 6, 104886, 1);
    StaysInMonth(Date(2011, 3, 1), 7);
  }

  /** ...and ended on 6 November. */
  lemma DstEnd2011(dt: DateTime)
    requires ValidDateTime(dt) && dt.date.year == 2011
    ensures GetDstEnd(dt) == Midnight(Date(2011, 11, 6))
  {
    assert Ordinal(Date(2011, 11, 1)) == 734442;
    ModOf(734442 + 6, 104921, 1);
    StaysInMonth(Date(2011, 11, 1), 0);
  }

  /** 12 March 2011, the day before the change, was standard time in New York... */
  lemma Eastern2011Standard()
    ensures Dst(EASTERN, Midnight(Date(2011, 3, 12))) == 0
  {
    DstStart2011(Midnight(Date(2011, 3, 12)));
  }

  /** ...and 14 March, the day after, was daylight time. */
  lemma Eastern2011Daylight()
    ensures Dst(EASTERN, Midnight(Date(2011, 3, 14))) == MicrosPerHour
  {
    DstStart2011(Midnight(Date(2011, 3, 14)));
    DstEnd2011(Midnight(Date(2011, 3, 14)));
  }

  /** The exceptions `get_datetime_from_string` can raise, by the step that raises them. */
  datatype ParseError =
    | NotAnInteger      // ValueError: `int(v)` refused a field
    | WrongFieldCount   // ValueError: `month, day, year = ...` did not get exactly three values
    | IntOverflow       // OverflowError: `datetime()` could not read a value as a C `int`
    | InvalidDate       // ValueError: `datetime(year, month, day)` refused the values

  /** The largest value of a C `int`, which `datetime()` reads each of its arguments as before any range check. */
  const IntMax := 2147483647

  /** The three values fit the C `int`s `datetime()` reads them into. */
  predicate FitInts(month: int, day: int, year: int) {
    month <= IntMax && day <= IntMax && year <= IntMax
  }

  /** `[int(v) for v in fields]`: fails on the first field that is not a decimal numeral. */
  function ParseInts(fields: seq<string>): (r: Result<seq<int>, ParseError>)
    ensures r.Ok? <==> forall i :: 0 <= i < |fields| ==> IsDigits(fields[i])
    ensures r.Err? ==> r.error == NotAnInteger
    ensures r.Ok? ==> |r.value| == |fields|
                      && forall i :: 0 <= i < |fields| ==> r.value[i] == DigitsValue(fields[i])
  {
    if fields == [] then Ok([])
    else if !IsDigits(fields[0]) then Err(NotAnInteger)
    else
      match ParseInts(fields[1..])
      case Err(e) => Err(e)
      case Ok(rest) =>
        assert forall i :: 1 <= i < |fields| ==> fields[i] == fields[1..][i - 1];
        Ok([DigitsValue(fields[0]) as int] + rest)
  }

  /**
   * `get_datetime_from_string(s)`: splits `M/D/Y` at every `/`, converts every field,
   * unpacks exactly three, and builds midnight of that date. `datetime()` first reads its
   * arguments as C `int`s (OverflowError for a value above `IntMax`, whatever the others
   * are), then checks the date (ValueError).
   */
  function GetDatetimeFromString(s: string): (r: Result<DateTime, ParseError>)
    ensures r.Ok? ==> ValidDateTime(r.value) && r.value.time == 0
    ensures r.Ok? ==> var f := Split(s, '/');
                      |f| == 3 && IsDigits(f[0]) && IsDigits(f[1]) && IsDigits(f[2])
                      && r.value.date == Date(DigitsValue(f[2]), DigitsValue(f[0]), DigitsValue(f[1]))
  {
    match ParseInts(Split(s, '/'))
    case Err(e) => Err(e)
    case Ok(values) =>
      if |values| != 3 then Err(WrongFieldCount)
      else
        var month, day, year := values[0], values[1], values[2];
        var d := Date(year, month, day);
        if !FitInts(month, day, year) then Err(IntOverflow)
        else if ValidDate(d) then Ok(Midnight(d)) else Err(InvalidDate)
  }

  /**
   * Which exception the parser raises: conversion is checked before the field count, the
   * count before the C `int` width, and the width before the date.
   */
  lemma ParseErrorOrder(s: string)
    ensures var f := Split(s, '/');
            var allDigits := forall i :: 0 <= i < |f| ==> IsDigits(f[i]);
            && (GetDatetimeFromString(s) == Err(NotAnInteger) <==> !allDigits)
            && (GetDatetimeFromString(s) == Err(WrongFieldCount) <==> allDigits && |f| != 3)
            && (GetDatetimeFromString(s) == Err(IntOverflow) <==>
                  allDigits && |f| == 3
                  && !FitInts(DigitsValue(f[0]), DigitsValue(f[1]), DigitsValue(f[2])))
            && (GetDatetimeFromString(s) == Err(InvalidDate) <==>
                  allDigits && |f| == 3
                  && FitInts(DigitsValue(f[0]), DigitsValue(f[1]), DigitsValue(f[2]))
                  && !ValidDate(Date(DigitsValue(f[2]), DigitsValue(f[0]), DigitsValue(f[1]))))
  {
    var f := Split(s, '/');
    var p := ParseInts(f);
    if p.Ok? && |p.value| == 3 {
      assert p.value == [DigitsValue(f[0]), DigitsValue(f[1]), DigitsValue(f[2])];
    }
  }

  /** `M/D/Y` with each number written in decimal, the inverse of the parser. */
  function FormatDate(d: Date): (s: string)
    requires ValidDate(d)
  {
    Join([NatToDigits(d.month), NatToDigits(d.day), NatToDigits(d.year)], '/')
  }

  lemma DigitsHaveNoSlash(s: string)
    requires IsDigits(s)
    ensures '/' !in s
  {
  }

  /**
   * Three decimal fields joined by `/` (leading zeros allowed) are read as month, day and
   * year; a value too wide for a C `int` is OverflowError even when the date is also wrong.
   */
  lemma ParseFields(m: string, d: string, y: string)
    requires IsDigits(m) && IsDigits(d) && IsDigits(y)
    ensures var date := Date(DigitsValue(y), DigitsValue(m), DigitsValue(d));
            GetDatetimeFromString(Join([m, d, y], '/'))
              == if !FitInts(date.month, date.day, date.year) then Err(IntOverflow)
                 else if ValidDate(date) then Ok(Midnight(date)) else Err(InvalidDate)
  {
    DigitsHaveNoSlash(m);
    DigitsHaveNoSlash(d);
    DigitsHaveNoSlash(y);
    SplitJoin([m, d, y], '/');
  }

  /** `13/1/3000000000`: a year too wide for a C `int` is OverflowError, although month 13 is also wrong. */
  lemma OverflowBeforeDateCheck()
    ensures GetDatetimeFromString(Join([NatToDigits(13), NatToDigits(1), NatToDigits(3000000000)], '/'))
              == Err(IntOverflow)
  {
    DigitsRoundTrip(13);
    DigitsRoundTrip(1);
    DigitsRoundTrip(3000000000);
    ParseFields(NatToDigits(13), NatToDigits(1), NatToDigits(3000000000));
  }

  /** Every valid date written as `M/D/Y` parses back to midnight of that date. */
  lemma ParseFormatRoundTrip(d: Date)
    requires ValidDate(d)
    ensures GetDatetimeFromString(FormatDate(d)) == Ok(Midnight(d))
  {
    ParseFields(NatToDigits(d.month), NatToDigits(d.day), NatToDigits(d.year));
    DigitsRoundTrip(d.month);
    DigitsRoundTrip(d.day);
    DigitsRoundTrip(d.year);
  }

  /** Without a `/` there is one field: a numeral is then too few values, anything else no integer. */
  lemma ParseWithoutSlash(s: string)
    requires '/' !in s
    ensures GetDatetimeFromString(s) == if IsDigits(s) then Err(WrongFieldCount) else Err(NotAnInteger)
  {
    var f := Split(s, '/');
    assert |f| == 1 && Join(f, '/') == f[0];
    ParseErrorOrder(s);
  }
}
