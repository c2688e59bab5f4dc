/**
 * nfl/models.py: the table rules of the league models. A table is a map from primary key
 * to row; `Season.save` keeps at most one active season, `Division.save` derives its key
 * from conference and region, `Season.year` is validated as four digits, and
 * `Team.all_teams` (on a cache miss) lists the active teams.
 */
module Models {

  import opened Results
  import opened Text

  /* ---------------------------------------------------------------- Season */

  /** A row of the season table; `year` is its primary key. */
  datatype Season = Season(year: string, isActive: bool)

  /** How Django's `objects.get(...)` fails. */
  datatype QueryError = DoesNotExist | MultipleObjectsReturned

  /** Every row is stored under its own year. */
  predicate Keyed(rows: map<string, Season>) {
    forall y :: y in rows ==> rows[y].year == y
  }

  /** The years of the active seasons. */
  function ActiveYears(rows: map<string, Season>): set<string> {
    set y | y in rows && rows[y].isActive
  }

  predicate AtMostOneActive(rows: map<string, Season>) {
    |ActiveYears(rows)| <= 1
  }

  /** `Season.objects.update(is_active=False)`: every row, flag cleared, nothing else touched. */
  function Deactivated(rows: map<string, Season>): (r: map<string, Season>)
    ensures r.Keys == rows.Keys
    ensures forall y :: y in r ==> r[y].year == rows[y].year && !r[y].isActive
    ensures ActiveYears(r) == {}
  {
    map y | y in rows :: rows[y].(isActive := false)
  }

  /** The table after `s.save()`: an active season first clears every flag, then `s` is written under its year. */
  function SavedRows(rows: map<string, Season>, s: Season): map<string, Season> {
    (if s.isActive then Deactivated(rows) else rows)[s.year := s]
  }

  /** The single element of a one-element set. */
  function Single(s: set<string>): (x: string)
    requires |s| == 1
    ensures s == {x}
  {
    SingletonMembers(s);
    var x :| x in s;
    x
  }

  lemma SingletonMembers(s: set<string>)
    requires |s| == 1
    ensures forall a, b :: a in s && b in s ==> a == b
  {
    forall a, b | a in s && b in s
      ensures a == b
    {
      if a != b {
        assert {a, b} <= s;
        assert |{a, b}| == 2;
        SubsetSize({a, b}, s);
        assert false;
      }
    }
  }

  lemma {:induction false} SubsetSize(a: set<string>, b: set<string>)
    requires a <= b
    ensures |a| <= |b|
    decreases b
  {
    if b != {} {
      var x :| x in b;
      SubsetSize(a - {x}, b - {x});
    }
  }

  /** `Season.active_season()`, i.e. `objects.get(is_active=True)`: the one active row, if exactly one exists. */
  function ActiveSeason(rows: map<string, Season>): (r: Result<Season, QueryError>)
    ensures r.Ok? ==> r.value.isActive && r.value in rows.Values
    ensures r.Ok? ==> forall y :: y in rows && rows[y].isActive ==> rows[y] == r.value
    ensures r == Err(DoesNotExist) <==> forall y :: y in rows ==> !rows[y].isActive
    ensures r == Err(MultipleObjectsReturned) <==>
              exists a, b :: a in rows && b in rows && a != b && rows[a].isActive && rows[b].isActive
  {
    var active := ActiveYears(rows);
    if |active| == 0 then
      assert forall y :: y in rows && rows[y].isActive ==> y in active;
      Err(DoesNotExist)
    else if |active| > 1 then
      TwoMembers(active);
      Err(MultipleObjectsReturned)
    else
      var y := Single(active);
      SingletonMembers(active);
      assert y in rows && rows[y].isActive;
      assert forall a :: a in rows && rows[a].isActive ==> a in active;
      Ok(rows[y])
  }

  /** The invariant `Season.save` keeps is what `active_season` relies on: it never raises MultipleObjectsReturned. */
  lemma InvariantRulesOutMultiple(rows: map<string, Season>)
    requires AtMostOneActive(rows)
    ensures ActiveSeason(rows) != Err(MultipleObjectsReturned)
  {
  }

  lemma TwoMembers(s: set<string>)
    requires |s| > 1
    ensures exists a, b :: a in s && b in s && a != b
  {
    var a :| a in s;
    assert |s - {a}| > 0;
    var b :| b in s - {a};
  }

  /** The season table, which `Season.save` updates in place. */
  class SeasonTable {
    var rows: map<string, Season>

    /** Every row is stored under its year, and at most one season is active. */
    predicate Valid()
      reads this
    {
      Keyed(rows) && AtMostOneActive(rows)
    }

    constructor()
      ensures rows == map[]
      ensures Valid()
    {
      rows := map[];
    }

    /** `Season.objects.update(is_active=False)`. */
    method DeactivateAll()
      modifies this
      ensures rows == Deactivated(old(rows))
    {
      rows := Deactivated(rows);
    }

    /** `s.save()`: clear every active flag when `s` is active, then write `s` under its year. */
    method Save(s: Season)
      modifies this
      ensures rows == SavedRows(old(rows), s)
      ensures s.isActive ==> ActiveSeason(rows) == Ok(s)
      ensures AtMostOneActive(old(rows)) ==> AtMostOneActive(rows)
      ensures old(Valid()) ==> Valid() && ActiveSeason(rows) != Err(MultipleObjectsReturned)
    {
      if s.isActive {
        DeactivateAll();
      }
      rows := rows[s.year := s];
      if s.isActive {
        SaveActiveIsTheActiveSeason(old(rows), s);
      }
      if AtMostOneActive(old(rows)) {
        SavePreservesAtMostOneActive(old(rows), s);
        InvariantRulesOutMultiple(rows);
      }
      if Keyed(old(rows)) {
        SaveReplacesByYear(old(rows), s);
      }
    }
  }

  /** After saving an active season it is the only active row, and `active_season` returns it. */
  lemma SaveActiveIsTheActiveSeason(rows: map<string, Season>, s: Season)
    requires s.isActive
    ensures ActiveYears(SavedRows(rows, s)) == {s.year}
    ensures ActiveSeason(SavedRows(rows, s)) == Ok(s)
  {
    var after := SavedRows(rows, s);
    assert s.year in ActiveYears(after);
  }

  /** Saving an inactive season leaves every other row, flag included, as it was. */
  lemma SaveInactiveKeepsOtherRows(rows: map<string, Season>, s: Season)
    requires !s.isActive
    ensures forall y :: y in rows && y != s.year ==> SavedRows(rows, s)[y] == rows[y]
    ensures ActiveYears(SavedRows(rows, s)) == ActiveYears(rows) - {s.year}
  {
  }

  /** Every save keeps "at most one season is active". */
  lemma SavePreservesAtMostOneActive(rows: map<string, Season>, s: Season)
    requires AtMostOneActive(rows)
    ensures AtMostOneActive(SavedRows(rows, s))
  {
    if s.isActive {
      SaveActiveIsTheActiveSeason(rows, s);
    } else {
      SaveInactiveKeepsOtherRows(rows, s);
      SubsetSize(ActiveYears(rows) - {s.year}, ActiveYears(rows));
    }
  }

  /** The table is keyed by year: a save adds a row only for a new year, replacing the row of an existing one. */
  lemma SaveReplacesByYear(rows: map<string, Season>, s: Season)
    requires Keyed(rows)
    ensures Keyed(SavedRows(rows, s))
    ensures SavedRows(rows, s).Keys == rows.Keys + {s.year}
    ensures SavedRows(rows, s)[s.year] == s
    ensures |SavedRows(rows, s)| == if s.year in rows then |rows| else |rows| + 1
  {
  }

  /** With no active row, `active_season` raises DoesNotExist. */
  lemma NoActiveSeason(rows: map<string, Season>)
    requires forall y :: y in rows ==> !rows[y].isActive
    ensures ActiveSeason(rows) == Err(DoesNotExist)
  {
  }

  /** 2009 and 2010 saved active, then 2011 saved inactive: 2010 is the active season. */
  lemma LastActiveSaveWins()
    ensures var t1 := SavedRows(map[], Season("2009", true));
            var t2 := SavedRows(t1, Season("2010", true));
            var t3 := SavedRows(t2, Season("2011", false));
            ActiveSeason(t3) == Ok(Season("2010", true))
  {
    var t1 := SavedRows(map[], Season("2009", true));
    var t2 := SavedRows(t1, Season("2010", true));
    var t3 := SavedRows(t2, Season("2011", false));
    SaveActiveIsTheActiveSeason(t1, Season("2010", true));
    SaveInactiveKeepsOtherRows(t2, Season("2011", false));
    assert "2010" != "2011";
    assert ActiveYears(t3) == {"2010"};
    assert t3["2010"] == Season("2010", true);
  }

  /* -------------------------------------------------------- Season.year */

  /**
   * Python's `re.search(r'^\d{4}$', s)` with ASCII `\d`: four digits, and `$` matches at
   * the very end or just before a final newline.
   */
  predicate YearRegexMatches(s: string) {
    |s| >= 4 && (forall i :: 0 <= i < 4 ==> IsDigit(s[i]))
    && (|s| == 4 || (|s| == 5 && s[4] == '\n'))
  }

  /** `max_length=4` of the `year` field. */
  predicate FitsMaxLength(s: string) {
    |s| <= 4
  }

  /**
   * The two field validators of `year`: the `max_length` check and the regex validator.
   * `full_clean()` also runs the blank check and `validate_unique`, which are not modelled.
   */
  predicate ValidYear(s: string) {
    FitsMaxLength(s) && YearRegexMatches(s)
  }

  /** Together the validators accept exactly the four-digit strings. */
  lemma ValidYearIsFourDigits(s: string)
    ensures ValidYear(s) <==> |s| == 4 && IsDigits(s)
  {
  }

  /** The regex alone would also let "2011\n" through; `max_length` is what refuses it. */
  lemma RegexAloneAcceptsTrailingNewline()
    ensures YearRegexMatches("2011\n") && !ValidYear("2011\n")
  {
  }

  /** "2011" is a valid year; "abcd", "201" and "20111" are not. */
  lemma YearExamples()
    ensures ValidYear("2011")
    ensures !ValidYear("abcd") && !ValidYear("201") && !ValidYear("20111")
  {
    assert !IsDigit("abcd"[0]);
  }

  /* -------------------------------------------------------------- Division */

  const AFC := "AFC"
  const NFC := "NFC"
  const Conferences: seq<string> := [AFC, NFC]
  const Regions: seq<string> := ["North", "South", "East", "West"]
  /** `max_length` of `primary_key`. */
  const DivisionKeyMaxLength := 9

  /** `"%s-%s" % (conference, region)`. */
  function DivisionKey(conference: string, region: string): (k: string)
    ensures |k| == |conference| + 1 + |region|
    ensures k[..|conference|] == conference && k[|conference|] == '-' && k[|conference| + 1..] == region
  {
    conference + "-" + region
  }

  /** A conference without `-` can be read back from the key, so distinct divisions get distinct keys. */
  lemma DivisionKeyInjective(c1: string, r1: string, c2: string, r2: string)
    requires '-' !in c1 && '-' !in c2
    ensures DivisionKey(c1, r1) == DivisionKey(c2, r2) <==> c1 == c2 && r1 == r2
  {
    var k1, k2 := DivisionKey(c1, r1), DivisionKey(c2, r2);
    if k1 == k2 {
      if |c1| < |c2| {
        assert false;
      } else if |c2| < |c1| {
        assert false;
      }
    }
  }

  /** Every choice of conference and region gives a key within the 9 characters of `primary_key`. */
  lemma DivisionKeysFit(c: string, r: string)
    requires c in Conferences && r in Regions
    ensures |DivisionKey(c, r)| <= DivisionKeyMaxLength
  {
  }

  /** The division the tests create with conference AFC and region East is keyed "AFC-East". */
  lemma AfcEastKey()
    ensures DivisionKey(AFC, "East") == "AFC-East"
  {
  }

  /** A stored division row. */
  datatype DivisionRow = DivisionRow(primaryKey: string, conference: string, region: string)

  /** The division table, keyed by `primary_key`. */
  class DivisionTable {
    var rows: map<string, DivisionRow>

    constructor()
      ensures rows == map[]
    {
      rows := map[];
    }
  }

  /** A `Division` instance: `save` assigns its key before writing it. */
  class Division {
    var primaryKey: string
    var conference: string
    var region: string

    constructor(conference: string, region: string)
      ensures this.conference == conference && this.region == region && primaryKey == ""
    {
      this.conference := conference;
      this.region := region;
      primaryKey := "";
    }

    /** `save()`: derive the key from conference and region, then write the row under it. */
    method Save(table: DivisionTable)
      modifies this, table
      ensures conference == old(conference) && region == old(region)
      ensures primaryKey == DivisionKey(conference, region)
      ensures table.rows == old(table.rows)[primaryKey := DivisionRow(primaryKey, conference, region)]
    {
      primaryKey := DivisionKey(conference, region);
      table.rows := table.rows[primaryKey := DivisionRow(primaryKey, conference, region)];
    }
  }

  /* ------------------------------------------------------------------ Team */

  datatype Team = Team(abbr: string, name: string, division: string, isActive: bool)

  /** `list(Team.objects.filter(is_active=True))`, the cache-miss result of `all_teams`, as a set. */
  function AllTeams(rows: map<string, Team>): (r: set<Team>)
    ensures forall t :: t in r <==> t in rows.Values && t.isActive
  {
    set k | k in rows && rows[k].isActive :: rows[k]
  }

  /** Adding an inactive team under a new key leaves `all_teams` unchanged, count included. */
  lemma AllTeamsIgnoresInactive(rows: map<string, Team>, t: Team)
    requires !t.isActive && t.abbr !in rows
    ensures AllTeams(rows[t.abbr := t]) == AllTeams(rows)
    ensures |AllTeams(rows[t.abbr := t])| == |AllTeams(rows)|
  {
    var after := rows[t.abbr := t];
    forall x | x in AllTeams(after)
      ensures x in AllTeams(rows)
    {
      var k :| k in after && after[k] == x;
      assert k != t.abbr;
    }
    forall x | x in AllTeams(rows)
      ensures x in AllTeams(after)
    {
      var k :| k in rows && rows[k] == x;
      assert after[k] == x;
    }
  }

  /** Turning a team's flag off removes exactly that team from `all_teams`. */
  lemma AllTeamsDropsDeactivated(rows: map<string, Team>, k: string)
    requires k in rows && rows[k].isActive
    requires forall j :: j in rows ==> rows[j].abbr == j
    ensures AllTeams(rows[k := rows[k].(isActive := false)]) == AllTeams(rows) - {rows[k]}
  {
    var after := rows[k := rows[k].(isActive := false)];
    forall x | x in AllTeams(after)
      ensures x in AllTeams(rows) - {rows[k]}
    {
      var j :| j in after && after[j] == x;
      assert j != k;
    }
    forall x | x in AllTeams(rows) - {rows[k]}
      ensures x in AllTeams(after)
    {
      var j :| j in rows && rows[j] == x;
      assert j != k;
      assert after[j] == x;
    }
  }
}
