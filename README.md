# django-nfl: time zones, date parsing and the league tables, in Dafny

This project models two files of an NFL pick'em application.

- `nfl/tz.py` is a small time-zone module. `Zone` is a fixed offset from UTC that never
  observes daylight time. `StandardAmericanZone` adds one hour of daylight time from
  midnight on the second Sunday of March to midnight on the first Sunday of November.
  Both boundaries are found by `_get_next_sunday`: step forward to the nearest Sunday,
  then add a number of days. The module also defines the UTC, Eastern, Central, Mountain
  and Pacific zones and the `M/D/Y` date parser `get_datetime_from_string`.
- `nfl/models.py` holds the league tables:
  - `Season.save` clears every season's active flag before it writes an active season,
    so at most one season is active.
  - `Season.active_season` fetches that one season.
  - A season's year must be four digits.
  - `Division.save` keys a division by `conference-region`.
  - `Team.all_teams` lists the active teams.

Modules:

- `Results`: the `Result` type used for Python's exceptions.
- `Calendar`: the part of Python's `datetime` that `nfl/tz.py` relies on:
  - proleptic Gregorian dates and their ordinals;
  - `weekday()`, with Monday 0 and Sunday 6;
  - `date + timedelta(days=n)`, including its OverflowError outside years 1..9999;
  - the ordering of naive datetimes.

  A `DateTime` is a date plus the microseconds since its midnight. Offsets and DST amounts
  are microseconds too.
- `Text`: `str.split('/')` and `int()` on decimal numerals, each with its inverse (`Join`,
  `NatToDigits`) so that round trips can be stated.
- `Tz`: `nfl/tz.py`. Its functions are pure, and so is the model. Each operation's
  contract, together with the lemmas named beside it in the table below, states what it
  computes; the parser's error cases, for example, are `Tz.ParseErrorOrder`. The
  daylight-time rule is checked against an
  independent reading of the calendar (`InDstCalendar`). That reading counts the Sundays
  of the month up to the given day: "March's second Sunday has been reached, November's
  first has not".
- `Models`: `nfl/models.py`. A table is a map from primary key to row.
  - `SeasonTable` and `DivisionTable` are classes whose `rows` field the `save` methods
    update in place.
  - Each method's new state is given by a function (`SavedRows`, `Deactivated`).
  - The table rules are proved about that function.

About the parser: `datetime(year, month, day)` is modelled as CPython's C implementation
builds it. It first reads each argument as a C `int`, which raises OverflowError for a value
above 2147483647. Only then does it check the date, which raises ValueError.

About the year validator: the pattern `^\d{4}$` on its own would also accept `"2011\n"`,
because in Python's regular expressions `$` also matches just before a final newline.
`max_length=4` on the same field rejects that string, so the two checks together accept
exactly the four-digit strings (`Models.ValidYearIsFourDigits`,
`Models.RegexAloneAcceptsTrailingNewline`).

## Model

| member | source | states |
|---|---|---|
| Calendar.AddDays | nfl/tz.py:59 | `date + timedelta(days=n)` is the date whose ordinal is `n` more, and that date exists in the calendar |
| Calendar.WeekdayShift | nfl/tz.py:57-58 | a date `n` days later has weekday `(weekday() + n) % 7` |
| Calendar.ValidByOrdinal | nfl/tz.py:59 | a date is inside years 1..9999 exactly when its ordinal is in `1..MaxOrdinal`, which is where `+ timedelta` raises OverflowError |
| Calendar.OrdinalInjective | nfl/tz.py:59 | two dates with the same ordinal are the same date, so fixing a result's ordinal fixes the result |
| Text.Split | nfl/tz.py:77 | `s.split('/')` never returns an empty list, no part contains `/`, joining the parts with `/` gives `s` back, and there is one part exactly when `s` has no `/` |
| Text.SplitJoin | nfl/tz.py:77 | splitting undoes joining when no part contains the separator |
| Text.DigitsRoundTrip | nfl/tz.py:77 | `int()` of the decimal spelling of `n` is `n` |
| Tz.DaysToSunday | nfl/tz.py:57-58 | the step `_get_next_sunday` takes is between 0 and 6 days, and adding it to the weekday number gives 6 (Sunday); that the date reached is a Sunday is `Tz.NextSundayLands` and `Tz.NextSundayIsEarliest` |
| Tz.NextSunday | nfl/tz.py:53-59 | `_get_next_sunday(dt, k)` is `DaysToSunday + k` days after `dt`, at the same time of day; it raises OverflowError exactly when that day leaves `date.min..date.max` |
| Tz.NextSundayLands | nfl/tz.py:53-59 | the result keeps the time of day, falls on weekday `(6 + k) mod 7` (a Sunday when `k` is a whole number of weeks), and is `k` to `k + 6` days after `dt` |
| Tz.NextSundayIsEarliest | nfl/tz.py:53-59 | with nothing added, the result is a Sunday not before `dt`, no day in between is a Sunday, and a Sunday `dt` is returned unchanged |
| Tz.NextSundayShift | nfl/tz.py:53-59 | `days_to_add = k` gives the `days_to_add = 0` result moved `k` days |
| Tz.StaysInMonth | nfl/tz.py:39-51 | from the first of a month, adding 0 or 7 days after the nearest Sunday stays in that month and lands on a Sunday |
| Tz.GetDstStart | nfl/tz.py:39-44 | `get_dst_start` is midnight of a Sunday between 8 and 14 March of `dt`'s year, and exactly one earlier day of that March is a Sunday: it is the second Sunday |
| Tz.GetDstEnd | nfl/tz.py:46-51 | `get_dst_end` is midnight of a Sunday between 1 and 7 November of `dt`'s year, and no earlier day of that November is a Sunday: it is the first Sunday |
| Tz.TransitionsDependOnYear | nfl/tz.py:39-51 | both transition instants depend on `dt`'s year alone |
| Tz.Dst | nfl/tz.py:26-37 | `dst()` is either nothing or one hour, and always nothing for a plain `Zone`; for `StandardAmericanZone` it is one hour exactly when March's second Sunday has been reached and November's first has not |
| Tz.SundaysThroughSecond | nfl/tz.py:39-44 | counting a month's Sundays: there is no Sunday before the first one, one from the first until the second, and at least two from the second on |
| Tz.SundaysThroughFirst | nfl/tz.py:46-51 | counting a month's Sundays: none has been reached exactly until the first one |
| Tz.DstBoundaries | nfl/tz.py:35 | the interval is half-open: daylight time at the start instant, standard time at the end instant, standard time in the last microsecond before the start, and daylight time in the last microsecond before the end when the end is not 1 November |
| Tz.UtcOffset | nfl/tz.py:23-24 | `utcoffset()` is the zone's hours for a plain `Zone`; for an American zone it is one hour more exactly under the calendar rule |
| Tz.ZoneConstants | nfl/tz.py:61-67 | UTC has offset 0; Eastern is UTC-5 (UTC-4 in daylight time), Central UTC-6/-5, Mountain UTC-7/-6 and Pacific UTC-8/-7 |
| Tz.DstStart2011 | nfl/tz.py:39-44 | in 2011 daylight time started on 13 March |
| Tz.DstEnd2011 | nfl/tz.py:46-51 | in 2011 daylight time ended on 6 November |
| Tz.Eastern2011Standard | nfl/tz.py:34-37 | 12 March 2011 was standard time in New York |
| Tz.Eastern2011Daylight | nfl/tz.py:34-37 | 14 March 2011 was daylight time in New York |
| Tz.ParseInts | nfl/tz.py:77 | `[int(v) for v in fields]` succeeds exactly when every field is a decimal numeral and then yields each numeral's value in order; otherwise it fails with ValueError |
| Tz.GetDatetimeFromString | nfl/tz.py:74-78 | a parsed result is a valid datetime at midnight, read from exactly three numeric fields as month, day and year |
| Tz.OverflowBeforeDateCheck | nfl/tz.py:78 | `13/1/3000000000` raises OverflowError, not ValueError: `datetime()` reads its arguments as C `int`s before it checks the month |
| Tz.ParseErrorOrder | nfl/tz.py:77-78 | which exception is raised: ValueError for a non-numeric field first, then ValueError for a field count other than three, then OverflowError for a value above 2147483647, then ValueError for a date `datetime()` refuses |
| Tz.ParseFields | nfl/tz.py:77-78 | three numerals joined by `/`, leading zeros allowed, parse as month/day/year: OverflowError when a value exceeds 2147483647, otherwise midnight of that date when it exists, otherwise InvalidDate (ValueError) |
| Tz.ParseFormatRoundTrip | nfl/tz.py:74-78 | every valid date written as `M/D/Y` parses back to midnight of that date |
| Tz.ParseWithoutSlash | nfl/tz.py:77 | a string without `/` is one field: a numeral fails the unpacking, anything else fails `int()` |
| Models.Deactivated | nfl/models.py:49 | `Season.objects.update(is_active=False)` keeps every row and year and leaves no season active |
| Models.SeasonTable.DeactivateAll | nfl/models.py:49 | the bulk update replaces the table by `Deactivated` of it |
| Models.SeasonTable.Save | nfl/models.py:47-50 | `save` replaces the table by `SavedRows`; an active season saved becomes the active season, "at most one active" is kept, and on a table keyed by year with at most one active season the result is again such a table, on which `active_season` cannot raise MultipleObjectsReturned |
| Models.SeasonTable.constructor | nfl/models.py:36-39 | a new season table is empty, and so keyed by year with no active season |
| Models.SaveActiveIsTheActiveSeason | nfl/models.py:47-54 | after saving an active season its year is the only active one, and `active_season` returns it |
| Models.SaveInactiveKeepsOtherRows | nfl/models.py:47-50 | saving an inactive season leaves every other row, flag included, as it was; the active years lose only that year |
| Models.SavePreservesAtMostOneActive | nfl/models.py:47-50 | every save keeps "at most one season is active" |
| Models.SaveReplacesByYear | nfl/models.py:37-50 | the table stays keyed by year; a save adds a row only for a new year and replaces the row of an existing one |
| Models.ActiveSeason | nfl/models.py:52-54 | `active_season` returns the active row when exactly one exists; DoesNotExist when none is active; MultipleObjectsReturned when two are |
| Models.InvariantRulesOutMultiple | nfl/models.py:47-54 | the invariant `save` keeps is what `active_season` relies on: with at most one active season it never raises MultipleObjectsReturned |
| Models.NoActiveSeason | nfl/models.py:52-54 | with no active season, `active_season` raises DoesNotExist |
| Models.LastActiveSaveWins | nfl/models.py:47-54 | saving 2009 active, 2010 active, then 2011 inactive leaves 2010 as the active season |
| Models.ValidYearIsFourDigits | nfl/models.py:37-38 | `max_length=4` together with `^\d{4}$` accepts exactly the strings of four ASCII digits |
| Models.RegexAloneAcceptsTrailingNewline | nfl/models.py:37-38 | the pattern alone matches `"2011\n"`, and the length limit is what rejects it |
| Models.YearExamples | nfl/models.py:37-38 | "2011" is a valid year; "abcd", "201" and "20111" are not |
| Models.DivisionKey | nfl/models.py:33 | the key is the conference, then `-`, then the region |
| Models.DivisionKeyInjective | nfl/models.py:32-34 | when conferences contain no `-`, two divisions get the same key exactly when conference and region are the same |
| Models.DivisionKeysFit | nfl/models.py:24-27 | every choice of conference and region gives a key within the 9 characters of `primary_key` |
| Models.AfcEastKey | nfl/models.py:32-34 | conference AFC and region East give the key "AFC-East" |
| Models.Division.Save | nfl/models.py:32-34 | `save` sets the key from conference and region, changes neither of them, and writes the row under that key |
| Models.AllTeams | nfl/models.py:73 | on a cache miss, the teams returned are exactly the stored teams whose active flag is set |
| Models.AllTeamsIgnoresInactive | nfl/models.py:69-75 | adding an inactive team leaves `all_teams`, and so its count, unchanged |
| Models.AllTeamsDropsDeactivated | nfl/models.py:73 | clearing a team's active flag removes exactly that team from `all_teams` |

## Left out

- `get_current_time` (nfl/tz.py:70-72) reads the system clock and calls `astimezone`. Both are outside the model.
- `Zone.__str__`, `Zone.__repr__` and `Zone.tzname` (nfl/tz.py:17-21, 29-30) only produce strings.
- The `__unicode__` methods in nfl/models.py also only produce strings.
- `TimestampMixin`'s `auto_now` and `auto_now_add` timestamps are not modelled. They are written by the database layer.
- Model `Meta` ordering is not modelled.
- Of `full_clean()` on `Season.year`, only the `max_length` and regex validators are modelled (`Models.ValidYear`). The blank check and `validate_unique`, which rejects a year that already has a row, are not.
- Django ORM query mechanics and transactions are not modelled.
- Each table is an abstract map from primary key to row.
- `Season.objects.update` is one bulk write (`Models.Deactivated`).
- The cache in `Team.all_teams` (nfl/models.py:70-74) is not modelled. This includes the cache-hit path, which can return a stale list, and the timeout. Only the cache-miss query is modelled.
- Models.AllTeams: returns the set of active teams. The source returns a list in the `Meta` ordering `('is_active', 'name')`, so the order of that list is not modelled. Two equal team rows stored under different keys are one element of the set but two entries of the list, so the set's size is the list's length only when every row is stored under its own `abbr`.
- Tz.ParseInts: accepts only fields of ASCII decimal digits. Python's `int()` also accepts surrounding whitespace, a leading sign and non-ASCII decimal digits. Such fields are reported here as not integers. Python would convert them, and a negative value would then fail in `datetime()` instead.
- Tz.Dst: `dt.replace(tzinfo=None)` is taken as given. The model works on naive datetimes only, and an aware datetime is represented by its civil fields.
- Time of day is a single count of microseconds since midnight. Hours, minutes, seconds and microseconds are not separate fields.
- `timedelta` results are integers of microseconds.
- nfl/forms.py, nfl/admin.py and nfl/utils.py are not part of this model.
