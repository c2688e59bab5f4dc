/**
 * The slice of Python's `datetime` arithmetic that nfl/tz.py relies on:
 * proleptic Gregorian dates, their ordinals (day 1 is Monday, 1 January of year 1),
 * `weekday()` with Monday = 0 and Sunday = 6, adding whole days, and the ordering of
 * naive datetimes.
 */
module Calendar {

  const MinYear := 1
  const MaxYear := 9999
  const MicrosPerHour := 3_600_000_000
  const MicrosPerDay := 24 * MicrosPerHour
  /** `date.max.toordinal()`: the ordinal of 31 December 9999. */
  const MaxOrdinal := 3_652_059

  datatype Date = Date(year: int, month: int, day: int)

  /** A naive (zone-less) datetime: a date and the microseconds elapsed since its midnight. */
  datatype DateTime = DateTime(date: Date, time: int)

  predicate IsLeap(y: int) {
    y % 4 == 0 && (y % 100 != 0 || y % 400 == 0)
  }

  function DaysInMonth(y: int, m: int): int
    requires 1 <= m <= 12
  {
    if m == 2 then (if IsLeap(y) then 29 else 28)
    else if m == 4 || m == 6 || m == 9 || m == 11 then 30
    else 31
  }

  /** Month and day exist; the year is unbounded (the proleptic calendar). */
  predicate WellFormed(d: Date) {
    1 <= d.month <= 12 && 1 <= d.day <= DaysInMonth(d.year, d.month)
  }

  /** A date that `datetime(year, month, day)` accepts. */
  predicate ValidDate(d: Date) {
    MinYear <= d.year <= MaxYear && WellFormed(d)
  }

  predicate ValidDateTime(dt: DateTime) {
    ValidDate(dt.date) && 0 <= dt.time < MicrosPerDay
  }

  function Midnight(d: Date): DateTime {
    DateTime(d, 0)
  }

  /** Days in the years before `y`, as Python's `_days_before_year`. */
  function DaysBeforeYear(y: int): int {
    var z := y - 1;
    z * 365 + z / 4 - z / 100 + z / 400
  }

  /** Days in the months of year `y` before month `m`, as Python's `_days_before_month`. */
  function DaysBeforeMonth(y: int, m: int): int
    requires 1 <= m <= 12
  {
    var table := [0, 31, 59, 90, 120, 151, 181, 212, 243, 273, 304, 334];
    table[m - 1] + (if m > 2 && IsLeap(y) then 1 else 0)
  }

  /** Python's `date.toordinal()`. */
  function Ordinal(d: Date): int
    requires 1 <= d.month <= 12
  {
    DaysBeforeYear(d.year) + DaysBeforeMonth(d.year, d.month) + d.day
  }

  /** Python's `date.weekday()`: Monday is 0 and Sunday is 6. */
  function Weekday(d: Date): (w: int)
    requires 1 <= d.month <= 12
    ensures 0 <= w < 7
  {
    (Ordinal(d) + 6) % 7
  }

  lemma MulAtLeast(m: int, k: int)
    requires m > 0 && k >= 1
    ensures m * k >= m
  {
  }

  /** `b == m * q + r` with `0 <= r < m` fixes quotient and remainder. */
  lemma DivModOf(b: int, m: int, q: int, r: int)
    requires 0 < m && b == m * q + r && 0 <= r < m
    ensures b / m == q && b % m == r
  {
    var q' := b / m;
    if q' > q {
      MulAtLeast(m, q' - q);
      assert false;
    } else if q' < q {
      MulAtLeast(m, q - q');
      assert false;
    }
  }

  /** Crossing from `y - 1` to `y` adds one to `y / m` exactly when `m` divides `y`. */
  lemma DivStep(y: int, m: int)
    requires 0 < m
    ensures y / m - (y - 1) / m == if y % m == 0 then 1 else 0
  {
    var q, r := (y - 1) / m, (y - 1) % m;
    if r == m - 1 {
      DivModOf(y, m, q + 1, 0);
    } else {
      DivModOf(y, m, q, r + 1);
    }
  }

  /** A multiple of 400 is a multiple of 100, and a multiple of 100 one of 4. */
  lemma CenturyMultiples(y: int)
    ensures y % 400 == 0 ==> y % 100 == 0
    ensures y % 100 == 0 ==> y % 4 == 0
  {
    if y % 400 == 0 {
      DivModOf(y, 400, y / 400, 0);
      DivModOf(y, 100, 4 * (y / 400), 0);
    }
    if y % 100 == 0 {
      DivModOf(y, 100, y / 100, 0);
      DivModOf(y, 4, 25 * (y / 100), 0);
    }
  }

  /** The four-, hundred- and four-hundred-year rules give a year of 365 or 366 days. */
  lemma YearLength(y: int)
    ensures DaysBeforeYear(y + 1) == DaysBeforeYear(y) + (if IsLeap(y) then 366 else 365)
  {
    DivStep(y, 4);
    DivStep(y, 100);
    DivStep(y, 400);
    CenturyMultiples(y);
  }

  /** Each month starts where the one before it ends... */
  lemma MonthStep(y: int, m: int)
    requires 1 <= m < 12
    ensures DaysBeforeMonth(y, m + 1) == DaysBeforeMonth(y, m) + DaysInMonth(y, m)
  {
  }

  /** ...and December ends the year. */
  lemma DecemberEnds(y: int)
    ensures DaysBeforeMonth(y, 12) + DaysInMonth(y, 12) == if IsLeap(y) then 366 else 365
  {
  }

  /** The first of month `m + 1` directly follows the last of month `m`. */
  lemma MonthBoundary(y: int, m: int)
    requires 1 <= m < 12
    ensures WellFormed(Date(y, m, DaysInMonth(y, m))) && WellFormed(Date(y, m + 1, 1))
    ensures Ordinal(Date(y, m + 1, 1)) == Ordinal(Date(y, m, DaysInMonth(y, m))) + 1
  {
    MonthStep(y, m);
  }

  /** 1 January of `y + 1` directly follows 31 December of `y`. */
  lemma YearBoundary(y: int)
    ensures WellFormed(Date(y, 12, 31)) && WellFormed(Date(y + 1, 1, 1))
    ensures Ordinal(Date(y + 1, 1, 1)) == Ordinal(Date(y, 12, 31)) + 1
  {
    YearLength(y);
    DecemberEnds(y);
  }

  /** The day after `d`. */
  function NextDay(d: Date): (r: Date)
    requires WellFormed(d)
    ensures WellFormed(r)
    ensures Ordinal(r) == Ordinal(d) + 1
  {
    if d.day < DaysInMonth(d.year, d.month) then d.(day := d.day + 1)
    else if d.month < 12 then MonthBoundary(d.year, d.month); Date(d.year, d.month + 1, 1)
    else YearBoundary(d.year); Date(d.year + 1, 1, 1)
  }

  /** The day before `d`. */
  function PrevDay(d: Date): (r: Date)
    requires WellFormed(d)
    ensures WellFormed(r)
    ensures Ordinal(r) == Ordinal(d) - 1
  {
    if d.day > 1 then d.(day := d.day - 1)
    else if d.month > 1 then
      MonthBoundary(d.year, d.month - 1); Date(d.year, d.month - 1, DaysInMonth(d.year, d.month - 1))
    else YearBoundary(d.year - 1); Date(d.year - 1, 12, 31)
  }

  /** `d + timedelta(days=n)`, one day at a time: the ordinal moves by exactly `n`. */
  function AddDays(d: Date, n: int): (r: Date)
    requires WellFormed(d)
    ensures WellFormed(r)
    ensures Ordinal(r) == Ordinal(d) + n
    decreases if n >= 0 then n else -n
  {
    if n == 0 then d
    else if n > 0 then AddDays(NextDay(d), n - 1)
    else AddDays(PrevDay(d), n + 1)
  }

  /** A number `7q + r` with `0 <= r < 7` leaves remainder `r`. */
  lemma ModOf(b: int, q: int, r: int)
    requires b == 7 * q + r && 0 <= r < 7
    ensures b % 7 == r
  {
    var q' := b / 7;
    assert 7 * (q' - q) == r - b % 7;
  }

  /** A date `n` days after `d` falls `n` places further round the week. */
  lemma WeekdayShift(d: Date, x: Date, n: int)
    requires 1 <= d.month <= 12 && 1 <= x.month <= 12
    requires Ordinal(x) == Ordinal(d) + n
    ensures Weekday(x) == (Weekday(d) + n) % 7
  {
    WeekdayShiftBy(d, x, n, (Weekday(d) + n) / 7);
  }

  /**
   * `WeekdayShift` with the number `k` of whole weeks to take off given explicitly, which
   * keeps the remainder out of the proofs that use it.
   */
  lemma WeekdayShiftBy(d: Date, x: Date, n: int, k: int)
    requires 1 <= d.month <= 12 && 1 <= x.month <= 12
    requires Ordinal(x) == Ordinal(d) + n
    requires 0 <= Weekday(d) + n - 7 * k < 7
    ensures Weekday(x) == Weekday(d) + n - 7 * k
  {
    var a := Ordinal(d) + 6;
    var q := a / 7;
    assert a == 7 * q + Weekday(d);
    ModOf(Ordinal(x) + 6, q + k, Weekday(d) + n - 7 * k);
  }

  /** Later years start later. */
  lemma {:induction false} DaysBeforeYearMonotone(y1: int, y2: int)
    requires y1 <= y2
    ensures DaysBeforeYear(y1) <= DaysBeforeYear(y2)
    decreases y2 - y1
  {
    if y1 < y2 {
      YearLength(y1);
      DaysBeforeYearMonotone(y1 + 1, y2);
    }
  }

  /** Later months of a year start after the end of earlier ones. */
  lemma DaysBeforeMonthMonotone(y: int, m1: int, m2: int)
    requires 1 <= m1 < m2 <= 12
    ensures DaysBeforeMonth(y, m1) + DaysInMonth(y, m1) <= DaysBeforeMonth(y, m2)
  {
  }

  /** A well-formed date's ordinal lies inside its own year. */
  lemma OrdinalWithinYear(d: Date)
    requires WellFormed(d)
    ensures DaysBeforeYear(d.year) < Ordinal(d) <= DaysBeforeYear(d.year + 1)
  {
    YearLength(d.year);
    DecemberEnds(d.year);
    if d.month < 12 {
      DaysBeforeMonthMonotone(d.year, d.month, 12);
    }
  }

  /** A well-formed date is inside years 1..9999 exactly when its ordinal is in `1..MaxOrdinal`. */
  lemma ValidByOrdinal(d: Date)
    requires WellFormed(d)
    ensures ValidDate(d) <==> 1 <= Ordinal(d) <= MaxOrdinal
  {
    OrdinalWithinYear(d);
    assert DaysBeforeYear(MinYear) == 0;
    assert DaysBeforeYear(MaxYear + 1) == MaxOrdinal;
    if d.year < MinYear {
      DaysBeforeYearMonotone(d.year + 1, MinYear);
    } else if d.year > MaxYear {
      DaysBeforeYearMonotone(MaxYear + 1, d.year);
    } else {
      DaysBeforeYearMonotone(MinYear, d.year);
      DaysBeforeYearMonotone(d.year + 1, MaxYear + 1);
    }
  }

  /** Distinct well-formed dates have distinct ordinals. */
  lemma OrdinalInjective(a: Date, b: Date)
    requires WellFormed(a) && WellFormed(b)
    requires Ordinal(a) == Ordinal(b)
    ensures a == b
  {
    SameYearFromOrdinal(a, b);
    if a.month < b.month {
      DaysBeforeMonthMonotone(a.year, a.month, b.month);
      assert false;
    } else if b.month < a.month {
      DaysBeforeMonthMonotone(a.year, b.month, a.month);
      assert false;
    }
  }

  /** Dates with one ordinal lie in one year. */
  lemma SameYearFromOrdinal(a: Date, b: Date)
    requires WellFormed(a) && WellFormed(b)
    requires Ordinal(a) == Ordinal(b)
    ensures a.year == b.year
  {
    OrdinalWithinYear(a);
    OrdinalWithinYear(b);
    if a.year < b.year {
      DaysBeforeYearMonotone(a.year + 1, b.year);
      assert false;
    } else if b.year < a.year {
      DaysBeforeYearMonotone(b.year + 1, a.year);
      assert false;
    }
  }

  /** Python's ordering of naive datetimes: by year, month, day, then time of day. */
  predicate Before(a: DateTime, b: DateTime) {
    a.date.year < b.date.year
    || (a.date.year == b.date.year && a.date.month < b.date.month)
    || (a.date.year == b.date.year && a.date.month == b.date.month && a.date.day < b.date.day)
    || (a.date == b.date && a.time < b.time)
  }

  predicate AtOrBefore(a: DateTime, b: DateTime) {
    a == b || Before(a, b)
  }
}
