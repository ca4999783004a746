/**
 * The database dashboard: its `filter_data`, which an agent's own Hyp short-circuits, its
 * `geocode_data`, which keeps only the places that were found, and the agent's sales by date.
 */
module SqlDashboard {
  import opened Wrappers
  import opened Frames
  import opened Seqs
  import opened Groups
  import opened Geocoding
  import Dashboard

  /** The manager's selections; this dashboard has no department filter. */
  datatype Filters = Filters(country: string, team: string, activity: string, start: int, end: int)

  /** Python truthiness of the `current_hyp` argument: present and not the empty string. */
  predicate Truthy(h: Option<string>) {
    h.Some? && h.value != ""
  }

  function OwnRows(h: string): Row -> bool {
    (r: Row) => r.hyp == Some(h)
  }

  /** The spreadsheet filter with the department left on its "all" entry. */
  function AsSpreadsheet(f: Filters): Dashboard.Filters {
    Dashboard.Filters(f.country, f.team, Dashboard.AllDepartments, f.activity, f.start, f.end)
  }

  /**
   * `filter_data(df, ..., staff_df, current_hyp)`: a truthy `current_hyp` returns that agent's
   * rows and nothing else is applied (indexing Hyp fails when the table lacks it); otherwise
   * date, country, then the roster semi-join on team and activity.
   */
  function FilterData(t: Table, roster: seq<Staff>, f: Filters, currentHyp: Option<string>): (r: Result<seq<Row>, Failure>)
    ensures r.Err? <==> Truthy(currentHyp) && Hyp !in t.columns
    ensures r.Ok? ==> |r.value| <= |t.rows|
  {
    if Truthy(currentHyp) then
      if Hyp in t.columns then Ok(Select(t.rows, OwnRows(currentHyp.value))) else Err(MissingColumn(Hyp))
    else
      var byDate := if OrderDate in t.columns then Select(t.rows, Dashboard.DateMask(f.start, f.end)) else t.rows;
      var byCountry :=
        if f.country != Dashboard.AllCountries && Country in t.columns then Select(byDate, Dashboard.CountryMask(f.country))
        else byDate;
      if Hyp in t.columns && roster != [] then
        var byTeam := if f.team != Dashboard.AllTeams then Select(roster, (s: Staff) => s.team == Some(f.team)) else roster;
        var staff :=
          if f.activity != Dashboard.AllActivities then Select(byTeam, (s: Staff) => s.activity == Some(f.activity)) else byTeam;
        Ok(Select(byCountry, Dashboard.HypMask(Dashboard.Hyps(staff))))
      else Ok(byCountry)
  }

  /**
   * An agent sees exactly their own rows, each as often as in the table and in table order,
   * whatever the other selections are; without a Hyp column the call fails.
   */
  lemma FilterDataOwnRows(t: Table, roster: seq<Staff>, f: Filters, g: Filters, h: string)
    requires h != ""
    ensures Hyp !in t.columns ==> FilterData(t, roster, f, Some(h)) == Err(MissingColumn(Hyp))
    ensures Hyp in t.columns ==> FilterData(t, roster, f, Some(h)).Ok?
    ensures Hyp in t.columns ==> IsSubsequence(FilterData(t, roster, f, Some(h)).value, t.rows)
    ensures Hyp in t.columns ==> forall r :: r in FilterData(t, roster, f, Some(h)).value <==> r in t.rows && r.hyp == Some(h)
    ensures Hyp in t.columns ==> forall r ::
      multiset(FilterData(t, roster, f, Some(h)).value)[r] == if r.hyp == Some(h) then multiset(t.rows)[r] else 0
    ensures FilterData(t, roster, f, Some(h)) == FilterData(t, [], g, Some(h))
  {
    SelectIsSubsequence(t.rows, OwnRows(h));
    SelectMembers(t.rows, OwnRows(h));
    SelectCount(t.rows, OwnRows(h));
  }

  /**
   * Without an agent the database filter is the spreadsheet filter with the department on
   * "Tous", so every property proved of that one holds here.
   */
  lemma FilterDataAsSpreadsheet(t: Table, roster: seq<Staff>, f: Filters, currentHyp: Option<string>)
    requires !Truthy(currentHyp)
    ensures FilterData(t, roster, f, currentHyp) == Ok(Dashboard.FilterData(t, roster, AsSpreadsheet(f)))
  {
  }

  /** Without an agent the rows returned are exactly those admitted by the manager's selections. */
  lemma FilterDataMembers(t: Table, roster: seq<Staff>, f: Filters, currentHyp: Option<string>)
    requires !Truthy(currentHyp)
    ensures FilterData(t, roster, f, currentHyp).Ok?
    ensures IsSubsequence(FilterData(t, roster, f, currentHyp).value, t.rows)
    ensures forall r :: r in FilterData(t, roster, f, currentHyp).value <==>
      r in t.rows && Dashboard.Admitted(t, roster, AsSpreadsheet(f), r)
  {
    FilterDataAsSpreadsheet(t, roster, f, currentHyp);
    Dashboard.FilterDataMembers(t, roster, AsSpreadsheet(f));
    Dashboard.FilterDataKeepsExactlyAdmitted(t, roster, AsSpreadsheet(f));
  }

  /** The `locations` list of this `geocode_data`: found places only, in order. */
  function FoundLocations(ps: seq<Place>, lookup: Place -> Outcome): (r: seq<(Place, Coord)>)
    ensures |r| <= |ps|
    ensures forall i :: 0 <= i < |r| ==> r[i].0 in ps && lookup(r[i].0) == Found(r[i].1)
  {
    if ps == [] then []
    else
      var init, last := ps[..|ps| - 1], ps[|ps| - 1];
      var r := FoundLocations(init, lookup);
      assert forall p :: p in init ==> p in ps;
      r + (if lookup(last).Found? then [(last, lookup(last).at)] else [])
  }

  /** A place found has exactly one entry; a place not found, or not listed, has none. */
  lemma {:induction false} FoundLocationsMatch(ps: seq<Place>, lookup: Place -> Outcome, k: Place)
    requires NoDuplicates(ps)
    ensures Matches(FoundLocations(ps, lookup), k) == if k in ps && lookup(k).Found? then [lookup(k).at] else []
  {
    if ps != [] {
      NoDuplicatesInit(ps);
      FoundLocationsMatch(ps[..|ps| - 1], lookup, k);
      FoundLocationsMatchSnoc(ps, lookup, k);
    }
  }

  /** The last place, not listed before it, adds its own entry if found, and no other. */
  lemma FoundLocationsMatchSnoc(ps: seq<Place>, lookup: Place -> Outcome, k: Place)
    requires ps != [] && ps[|ps| - 1] !in ps[..|ps| - 1]
    requires Matches(FoundLocations(ps[..|ps| - 1], lookup), k) ==
      if k in ps[..|ps| - 1] && lookup(k).Found? then [lookup(k).at] else []
    ensures Matches(FoundLocations(ps, lookup), k) == if k in ps && lookup(k).Found? then [lookup(k).at] else []
  {
    var init, last := ps[..|ps| - 1], ps[|ps| - 1];
    var r := FoundLocations(init, lookup);
    assert k in ps <==> k in init || k == last;
    if lookup(last).Found? {
      var e := (last, lookup(last).at);
      assert FoundLocations(ps, lookup) == r + [e];
      MatchesSnoc(r, e, k);
    } else {
      assert FoundLocations(ps, lookup) == r;
    }
  }

  /** `locations` is empty exactly when no place was found. */
  lemma {:induction false} FoundLocationsEmpty(ps: seq<Place>, lookup: Place -> Outcome)
    ensures FoundLocations(ps, lookup) == [] <==> forall p :: p in ps ==> !lookup(p).Found?
  {
    if ps != [] {
      var init, last := ps[..|ps| - 1], ps[|ps| - 1];
      FoundLocationsEmpty(init, lookup);
      assert ps == init + [last];
    }
  }

  /** The left merge with found places only: an unmatched row gets missing coordinates. */
  function AttachFound(rows: seq<Row>, locs: seq<(Place, Coord)>): (r: seq<Row>)
    ensures |r| == |LeftMerge(rows, locs, PlaceOf)|
  {
    var m := LeftMerge(rows, locs, PlaceOf);
    seq(|m|, i requires 0 <= i < |m| => m[i].0.(coords := m[i].1))
  }

  /**
   * `geocode_data(df)`: like the spreadsheet one, except that places not found and calls that
   * raised are skipped, and when no place at all was found the table is returned without
   * coordinate columns.
   */
  function Geocoded(t: Table, lookup: Place -> Outcome): (r: Result<Table, Failure>)
    ensures r.Err? <==> !(Latitude in t.columns && Longitude in t.columns) && (City !in t.columns || Country !in t.columns)
    ensures r.Ok? ==> t.columns <= r.value.columns <= t.columns + {Latitude, Longitude}
    ensures Latitude in t.columns && Longitude in t.columns ==> r == Ok(t)
  {
    if Latitude in t.columns && Longitude in t.columns then Ok(t)
    else if City !in t.columns then Err(MissingColumn(City))
    else if Country !in t.columns then Err(MissingColumn(Country))
    else
      var locs := FoundLocations(Places(t.rows), lookup);
      if locs == [] then Ok(t) else Ok(Table(t.columns + {Latitude, Longitude}, AttachFound(t.rows, locs)))
  }

  /**
   * The merge with the found places keeps every row, in order, with the coordinates found for
   * its place, or missing ones when its place was not found or the lookup raised.
   */
  lemma AttachFoundLocated(rows: seq<Row>, lookup: Place -> Outcome)
    ensures |AttachFound(rows, FoundLocations(Places(rows), lookup))| == |rows|
    ensures forall i :: 0 <= i < |rows| ==> AttachFound(rows, FoundLocations(Places(rows), lookup))[i] == Located(rows[i], lookup)
  {
    var ps := Places(rows);
    var locs := FoundLocations(ps, lookup);
    forall x | x in rows
      ensures |Matches(locs, PlaceOf(x))| <= 1
    {
      FoundLocationsMatch(ps, lookup, PlaceOf(x));
    }
    LeftMergeUnique(rows, locs, PlaceOf);
    forall i | 0 <= i < |rows|
      ensures AttachFound(rows, locs)[i] == Located(rows[i], lookup)
    {
      FoundLocationsMatch(ps, lookup, PlaceOf(rows[i]));
    }
  }

  /**
   * When the table has no coordinate columns and some place was found, the two columns are
   * added and every row is kept, in order, with the coordinates found for its place or missing
   * ones.
   */
  lemma GeocodedRows(t: Table, lookup: Place -> Outcome)
    requires Latitude !in t.columns && Longitude !in t.columns
    requires City in t.columns && Country in t.columns
    requires FoundLocations(Places(t.rows), lookup) != []
    ensures Geocoded(t, lookup).Ok?
    ensures Geocoded(t, lookup).value.columns == t.columns + {Latitude, Longitude}
    ensures |Geocoded(t, lookup).value.rows| == |t.rows|
    ensures forall i :: 0 <= i < |t.rows| ==> Geocoded(t, lookup).value.rows[i] == Located(t.rows[i], lookup)
  {
    AttachFoundLocated(t.rows, lookup);
  }

  /**
   * Skipping failed places changes nothing once one place is found: the result is the
   * spreadsheet dashboard's.
   */
  lemma GeocodedAsSpreadsheet(t: Table, lookup: Place -> Outcome, w: Row)
    requires w in t.rows && lookup(PlaceOf(w)).Found?
    ensures Geocoded(t, lookup) == Dashboard.Geocoded(t, lookup)
  {
    if !(Latitude in t.columns && Longitude in t.columns) && City in t.columns && Country in t.columns {
      var ps := Places(t.rows);
      assert FoundLocations(ps, lookup) != [] by {
        FoundLocationsEmpty(ps, lookup);
        assert PlaceOf(w) in ps;
      }
      Dashboard.LocationsEmpty(t.rows, lookup);
      AttachFoundLocated(t.rows, lookup);
      Dashboard.AttachLocated(t.rows, lookup);
      SameLocatedRows(t, lookup, Geocoded(t, lookup).value, Dashboard.Geocoded(t, lookup).value);
    }
  }

  /** Two tables with the same columns whose rows are all the located rows of `t` are equal. */
  lemma SameLocatedRows(t: Table, lookup: Place -> Outcome, a: Table, b: Table)
    requires a.columns == b.columns
    requires |a.rows| == |t.rows| && |b.rows| == |t.rows|
    requires forall i :: 0 <= i < |t.rows| ==> a.rows[i] == Located(t.rows[i], lookup)
    requires forall i :: 0 <= i < |t.rows| ==> b.rows[i] == Located(t.rows[i], lookup)
    ensures a == b
  {
    assert a.rows == b.rows;
  }

  /** When no place is found the table comes back unchanged, still without coordinates. */
  lemma GeocodedNoneFound(t: Table, lookup: Place -> Outcome)
    requires forall r :: r in t.rows ==> !lookup(PlaceOf(r)).Found?
    requires City in t.columns && Country in t.columns
    ensures Geocoded(t, lookup) == Ok(t)
  {
    FoundLocationsEmpty(Places(t.rows), lookup);
  }

  /**
   * A table geocoded once is returned unchanged by a second call: either it now has both
   * coordinate columns, or nothing was found and the second call finds nothing again.
   */
  lemma GeocodedIdempotent(t: Table, lookup: Place -> Outcome)
    requires Geocoded(t, lookup).Ok?
    ensures Geocoded(Geocoded(t, lookup).value, lookup) == Geocoded(t, lookup)
  {
  }

  /** The loop of this `geocode_data`: each place is looked up once, in order, and kept if found. */
  method LookUpPlaces(places: seq<Place>, lookup: Place -> Outcome) returns (locations: seq<(Place, Coord)>, requests: seq<Place>)
    ensures locations == FoundLocations(places, lookup)
    ensures requests == places
  {
    locations, requests := [], [];
    for i := 0 to |places|
      invariant locations == FoundLocations(places[..i], lookup)
      invariant requests == places[..i]
    {
      var outcome := lookup(places[i]);
      requests := requests + [places[i]];
      if outcome.Found? {
        locations := locations + [(places[i], outcome.at)];
      }
      assert places[..i + 1][..i] == places[..i];
    }
    assert places[..|places|] == places;
  }

  /** `geocode_data` step by step; `requests` lists the places sent to the service. */
  method GeocodeData(t: Table, lookup: Place -> Outcome) returns (r: Result<Table, Failure>, requests: seq<Place>)
    ensures r == Geocoded(t, lookup)
    ensures requests == if r.Ok? && !(Latitude in t.columns && Longitude in t.columns) then Places(t.rows) else []
  {
    if Latitude in t.columns && Longitude in t.columns {
      return Ok(t), [];
    }
    if City !in t.columns {
      return Err(MissingColumn(City)), [];
    }
    if Country !in t.columns {
      return Err(MissingColumn(Country)), [];
    }
    var locations;
    locations, requests := LookUpPlaces(Places(t.rows), lookup);
    if locations != [] {
      r := Ok(Table(t.columns + {Latitude, Longitude}, AttachFound(t.rows, locations)));
    } else {
      r := Ok(t);
    }
  }

  /** `ORDER_DATE.dt.date`: the calendar day of a row; a date that is not a timestamp has none. */
  function DayKey(r: Row): Option<int> {
    if r.date.At? then Some(Day(r.date.instant)) else None
  }

  /** `groupby(ORDER_DATE.dt.date)['Total_sale'].sum()`: one total per day with sales. */
  function SalesByDate(rows: seq<Row>): (r: seq<(int, int)>)
    ensures forall i, j :: 0 <= i < j < |r| ==> r[i].0 != r[j].0
    ensures forall i :: 0 <= i < |r| ==> exists j :: 0 <= j < |rows| && DayKey(rows[j]) == Some(r[i].0)
  {
    GroupSum(rows, DayKey, AmountOf)
  }

  /** A timestamp lies on day `d` exactly when it falls between that day's and the next midnight. */
  lemma DayBounds(t: int, d: int)
    ensures Day(t) == d <==> Midnight(d) <= t < Midnight(d + 1)
  {
  }

  function OnDay(d: int): Row -> bool {
    (r: Row) => r.date.At? && Midnight(d) <= r.date.instant < Midnight(d + 1)
  }

  /** Grouping by calendar day puts a row in day `d` exactly when it is stamped on that day. */
  lemma DayKeyIsOnDay(d: int)
    ensures forall r: Row :: HasKey(DayKey, d)(r) == OnDay(d)(r)
  {
    forall r: Row
      ensures HasKey(DayKey, d)(r) == OnDay(d)(r)
    {
      assert HasKey(DayKey, d)(r) == (DayKey(r) == Some(d));
      if r.date.At? {
        DayBounds(r.date.instant, d);
      }
    }
  }

  /**
   * The per-day series: each day appears once, and a day appears exactly when some row is
   * dated on it.
   */
  lemma SalesByDateDays(rows: seq<Row>)
    ensures forall i, j :: 0 <= i < j < |SalesByDate(rows)| ==> SalesByDate(rows)[i].0 != SalesByDate(rows)[j].0
    ensures forall d :: (exists i :: 0 <= i < |SalesByDate(rows)| && SalesByDate(rows)[i].0 == d) <==>
      (exists j :: 0 <= j < |rows| && OnDay(d)(rows[j]))
  {
    var s := SalesByDate(rows);
    forall d
      ensures (exists i :: 0 <= i < |s| && s[i].0 == d) <==> (exists j :: 0 <= j < |rows| && OnDay(d)(rows[j]))
    {
      DayKeyIsOnDay(d);
      assert forall j :: 0 <= j < |rows| ==> (DayKey(rows[j]) == Some(d) <==> OnDay(d)(rows[j]));
    }
  }

  /** Each day's total is the sum over the rows stamped between its midnight and the next. */
  lemma SalesByDateTotals(rows: seq<Row>)
    ensures forall i :: 0 <= i < |SalesByDate(rows)| ==>
      SalesByDate(rows)[i].1 == Sum(Select(rows, OnDay(SalesByDate(rows)[i].0)), AmountOf)
  {
    var s := SalesByDate(rows);
    forall i | 0 <= i < |s|
      ensures s[i].1 == Sum(Select(rows, OnDay(s[i].0)), AmountOf)
    {
      DayKeyIsOnDay(s[i].0);
      SelectExt(rows, HasKey(DayKey, s[i].0), OnDay(s[i].0));
    }
  }

  /** The series adds up to the total of all dated rows; rows without a timestamp are dropped. */
  lemma SalesByDateAddsUp(rows: seq<Row>)
    ensures Sum(SalesByDate(rows), Second) == Sum(Select(rows, (r: Row) => r.date.At?), AmountOf)
  {
    GroupSumAddsUp(rows, DayKey, AmountOf);
    SelectExt(rows, HasSomeKey(DayKey), (r: Row) => r.date.At?);
  }
}
