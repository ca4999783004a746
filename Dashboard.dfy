/**
 * The spreadsheet dashboard: `filter_data`, which narrows a sales or collection table by date,
 * country and, through a semi-join on Hyp, by the team, department and activity of the staff
 * roster; and `geocode_data`, which attaches the coordinates of every (City, Country) place.
 */
module Dashboard {
  import opened Wrappers
  import opened Frames
  import opened Seqs
  import opened Geocoding

  /** The "all" entries of the select boxes; choosing one switches that filter off. */
  const AllCountries := "Tous"
  const AllTeams := "Toutes"
  const AllDepartments := "Tous"
  const AllActivities := "Toutes"

  /** The sidebar and page selections; `start` and `end` are calendar days. */
  datatype Filters = Filters(country: string, team: string, department: string, activity: string, start: int, end: int)

  /** `start <= ORDER_DATE <= end`, both bounds read as midnight; a date that is not a timestamp fails both. */
  function DateMask(start: int, end: int): Row -> bool {
    (r: Row) => r.date.At? && Midnight(start) <= r.date.instant <= Midnight(end)
  }

  function CountryMask(country: string): Row -> bool {
    (r: Row) => r.country == Some(country)
  }

  /** `df['Hyp'].isin(hyps)`. */
  function HypMask(hyps: seq<Cell>): Row -> bool {
    (r: Row) => r.hyp in hyps
  }

  /** The Hyp column of a roster. */
  function Hyps(staff: seq<Staff>): (hs: seq<Cell>)
    ensures forall h :: h in hs <==> exists s :: s in staff && s.hyp == h
  {
    var hs := seq(|staff|, i requires 0 <= i < |staff| => staff[i].hyp);
    assert forall i :: 0 <= i < |staff| ==> hs[i] == staff[i].hyp;
    hs
  }

  /** The roster narrowed by every filter not set to its "all" entry. */
  function RosterSelection(roster: seq<Staff>, f: Filters): seq<Staff> {
    var byTeam := if f.team != AllTeams then Select(roster, (s: Staff) => s.team == Some(f.team)) else roster;
    var byDepartment :=
      if f.department != AllDepartments then Select(byTeam, (s: Staff) => s.department == Some(f.department)) else byTeam;
    if f.activity != AllActivities then Select(byDepartment, (s: Staff) => s.activity == Some(f.activity)) else byDepartment
  }

  /** The date and country steps of `filter_data`. */
  function ByDateAndCountry(t: Table, f: Filters): seq<Row> {
    var byDate := if OrderDate in t.columns then Select(t.rows, DateMask(f.start, f.end)) else t.rows;
    if f.country != AllCountries && Country in t.columns then Select(byDate, CountryMask(f.country)) else byDate
  }

  /** `filter_data(df, ...)` with the roster `staff_df` passed explicitly. */
  function FilterData(t: Table, roster: seq<Staff>, f: Filters): (r: seq<Row>)
    ensures |r| <= |t.rows|
  {
    var byCountry := ByDateAndCountry(t, f);
    if Hyp in t.columns && roster != [] then Select(byCountry, HypMask(Hyps(RosterSelection(roster, f))))
    else byCountry
  }

  /** A roster row passes every active roster filter. */
  predicate StaffPasses(s: Staff, f: Filters) {
    && (f.team != AllTeams ==> s.team == Some(f.team))
    && (f.department != AllDepartments ==> s.department == Some(f.department))
    && (f.activity != AllActivities ==> s.activity == Some(f.activity))
  }

  /**
   * The rows `filter_data` is meant to keep, stated filter by filter: the date test when the
   * table has ORDER_DATE, the country test unless "Tous", and, when the table has Hyp and the
   * roster is not empty, some roster row with the same Hyp passing the roster filters.
   */
  predicate Admitted(t: Table, roster: seq<Staff>, f: Filters, r: Row) {
    && (OrderDate in t.columns ==> r.date.At? && Midnight(f.start) <= r.date.instant <= Midnight(f.end))
    && (f.country != AllCountries && Country in t.columns ==> r.country == Some(f.country))
    && (Hyp in t.columns && roster != [] ==> exists s :: s in roster && s.hyp == r.hyp && StaffPasses(s, f))
  }

  function AdmittedMask(t: Table, roster: seq<Staff>, f: Filters): Row -> bool {
    r => Admitted(t, roster, f, r)
  }

  /** The roster rows left after the roster filters are exactly those that pass them. */
  lemma RosterSelectionMembers(roster: seq<Staff>, f: Filters)
    ensures forall s :: s in RosterSelection(roster, f) <==> s in roster && StaffPasses(s, f)
  {
    var byTeam := if f.team != AllTeams then Select(roster, (s: Staff) => s.team == Some(f.team)) else roster;
    if f.team != AllTeams {
      SelectMembers(roster, (s: Staff) => s.team == Some(f.team));
    }
    var byDepartment :=
      if f.department != AllDepartments then Select(byTeam, (s: Staff) => s.department == Some(f.department)) else byTeam;
    if f.department != AllDepartments {
      SelectMembers(byTeam, (s: Staff) => s.department == Some(f.department));
    }
    if f.activity != AllActivities {
      SelectMembers(byDepartment, (s: Staff) => s.activity == Some(f.activity));
    }
  }

  /** The date test when the table has ORDER_DATE, the country test unless "Tous". */
  function DateCountryMask(t: Table, f: Filters): Row -> bool {
    (r: Row) =>
      && (OrderDate in t.columns ==> DateMask(f.start, f.end)(r))
      && (f.country != AllCountries && Country in t.columns ==> CountryMask(f.country)(r))
  }

  /** The date and country steps together are one selection. */
  lemma ByDateAndCountryIsMask(t: Table, f: Filters)
    ensures ByDateAndCountry(t, f) == Select(t.rows, DateCountryMask(t, f))
  {
    var dateOn := OrderDate in t.columns;
    var countryOn := f.country != AllCountries && Country in t.columns;
    var d: Row -> bool := r => !dateOn || DateMask(f.start, f.end)(r);
    var c: Row -> bool := r => !countryOn || CountryMask(f.country)(r);
    var byDate := if dateOn then Select(t.rows, DateMask(f.start, f.end)) else t.rows;
    if dateOn {
      SelectExt(t.rows, DateMask(f.start, f.end), d);
    } else {
      SelectAll(t.rows, d);
    }
    if countryOn {
      SelectExt(byDate, CountryMask(f.country), c);
    } else {
      SelectAll(byDate, c);
    }
    assert ByDateAndCountry(t, f) == Select(Select(t.rows, d), c);
    SelectChain(t.rows, d, c, DateCountryMask(t, f));
  }

  /** The chain of masks in `filter_data` is one mask: `Admitted`. */
  lemma FilterDataIsAdmitted(t: Table, roster: seq<Staff>, f: Filters)
    ensures FilterData(t, roster, f) == Select(t.rows, AdmittedMask(t, roster, f))
  {
    var hypOn := Hyp in t.columns && roster != [];
    var hyps := Hyps(RosterSelection(roster, f));
    var h: Row -> bool := r => !hypOn || HypMask(hyps)(r);
    var byCountry := ByDateAndCountry(t, f);
    ByDateAndCountryIsMask(t, f);
    if hypOn {
      SelectExt(byCountry, HypMask(hyps), h);
    } else {
      SelectAll(byCountry, h);
    }
    assert FilterData(t, roster, f) == Select(Select(t.rows, DateCountryMask(t, f)), h);
    RosterSelectionMembers(roster, f);
    SelectChain(t.rows, DateCountryMask(t, f), h, AdmittedMask(t, roster, f));
  }

  /**
   * `filter_data` returns a subsequence of its input (order kept, nothing added or altered)
   * holding every copy of each admitted row and nothing else.
   */
  lemma FilterDataKeepsExactlyAdmitted(t: Table, roster: seq<Staff>, f: Filters)
    ensures IsSubsequence(FilterData(t, roster, f), t.rows)
    ensures forall r :: multiset(FilterData(t, roster, f))[r] == if Admitted(t, roster, f, r) then multiset(t.rows)[r] else 0
  {
    FilterDataIsAdmitted(t, roster, f);
    SelectIsSubsequence(t.rows, AdmittedMask(t, roster, f));
    SelectCount(t.rows, AdmittedMask(t, roster, f));
  }

  /** The rows a filter returns, and the input rows it drops. */
  lemma FilterDataMembers(t: Table, roster: seq<Staff>, f: Filters)
    ensures forall r :: r in FilterData(t, roster, f) <==> r in t.rows && Admitted(t, roster, f, r)
  {
    FilterDataIsAdmitted(t, roster, f);
    SelectMembers(t.rows, AdmittedMask(t, roster, f));
  }

  /**
   * With an ORDER_DATE column every returned row has a date in the inclusive range of
   * midnights; a row whose date is missing or unreadable is never returned.
   */
  lemma FilterDataDates(t: Table, roster: seq<Staff>, f: Filters)
    requires OrderDate in t.columns
    ensures forall r :: r in FilterData(t, roster, f) ==> r.date.At? && Midnight(f.start) <= r.date.instant <= Midnight(f.end)
  {
    FilterDataMembers(t, roster, f);
  }

  /**
   * The end day counts only up to its midnight: a row stamped later that same day is dropped,
   * because the chosen end date is compared as the timestamp of its first instant.
   */
  lemma FilterDataEndDayCutoff(t: Table, roster: seq<Staff>, f: Filters, r: Row)
    requires OrderDate in t.columns
    requires r.date.At? && Day(r.date.instant) == f.end && r.date.instant != Midnight(f.end)
    ensures r !in FilterData(t, roster, f)
  {
    FilterDataMembers(t, roster, f);
  }

  /** A country other than "Tous" keeps only rows of that country. */
  lemma FilterDataCountry(t: Table, roster: seq<Staff>, f: Filters)
    requires f.country != AllCountries && Country in t.columns
    ensures forall r :: r in FilterData(t, roster, f) ==> r.country == Some(f.country)
  {
    FilterDataMembers(t, roster, f);
  }

  /**
   * Semi-join: with a Hyp column and a non-empty roster, a returned row's Hyp belongs to a roster
   * row passing the team, department and activity filters; a Hyp absent from the roster is
   * therefore dropped, even when all three filters are on their "all" entry.
   */
  lemma FilterDataRoster(t: Table, roster: seq<Staff>, f: Filters)
    requires Hyp in t.columns && roster != []
    ensures forall r :: r in FilterData(t, roster, f) ==> exists s :: s in roster && s.hyp == r.hyp && StaffPasses(s, f)
    ensures forall r: Row :: (forall s: Staff :: s in roster ==> s.hyp != r.hyp) ==> r !in FilterData(t, roster, f)
  {
    FilterDataMembers(t, roster, f);
  }

  /** With an empty roster the team, department and activity choices are not applied at all. */
  lemma FilterDataEmptyRoster(t: Table, f: Filters, team: string, department: string, activity: string)
    ensures FilterData(t, [], f) == FilterData(t, [], f.(team := team, department := department, activity := activity))
    ensures forall r :: r in FilterData(t, [], f) <==>
      r in t.rows
      && (OrderDate in t.columns ==> r.date.At? && Midnight(f.start) <= r.date.instant <= Midnight(f.end))
      && (f.country != AllCountries && Country in t.columns ==> r.country == Some(f.country))
  {
    FilterDataMembers(t, [], f);
  }

  /** A selection that admits every roster row and every country the first admits returns a supersequence. */
  lemma FilterDataWiden(t: Table, roster: seq<Staff>, f: Filters, g: Filters)
    requires g.start == f.start && g.end == f.end
    requires g.country == f.country || g.country == AllCountries
    requires forall s :: StaffPasses(s, f) ==> StaffPasses(s, g)
    ensures IsSubsequence(FilterData(t, roster, f), FilterData(t, roster, g))
  {
    FilterDataIsAdmitted(t, roster, f);
    FilterDataIsAdmitted(t, roster, g);
    forall r | Admitted(t, roster, f, r)
      ensures Admitted(t, roster, g, r)
    {
      if Hyp in t.columns && roster != [] {
        var s :| s in roster && s.hyp == r.hyp && StaffPasses(s, f);
        assert StaffPasses(s, g);
      }
    }
    SelectMonotone(t.rows, AdmittedMask(t, roster, f), AdmittedMask(t, roster, g));
  }

  /**
   * An "all" entry imposes no restriction: replacing any one selection by its "all" entry
   * returns a supersequence of what the narrower selection returns.
   */
  lemma FilterDataSentinelsWiden(t: Table, roster: seq<Staff>, f: Filters)
    ensures IsSubsequence(FilterData(t, roster, f), FilterData(t, roster, f.(country := AllCountries)))
    ensures IsSubsequence(FilterData(t, roster, f), FilterData(t, roster, f.(team := AllTeams)))
    ensures IsSubsequence(FilterData(t, roster, f), FilterData(t, roster, f.(department := AllDepartments)))
    ensures IsSubsequence(FilterData(t, roster, f), FilterData(t, roster, f.(activity := AllActivities)))
  {
    FilterDataWiden(t, roster, f, f.(country := AllCountries));
    FilterDataWiden(t, roster, f, f.(team := AllTeams));
    FilterDataWiden(t, roster, f, f.(department := AllDepartments));
    FilterDataWiden(t, roster, f, f.(activity := AllActivities));
  }

  /**
   * The `locations` list of `geocode_data`: one entry per place, in order, holding the
   * location found or, when nothing was found or the call raised, missing coordinates.
   */
  function Locations(ps: seq<Place>, lookup: Place -> Outcome): (r: seq<(Place, Option<Coord>)>)
    ensures |r| == |ps|
    ensures forall i :: 0 <= i < |ps| ==> r[i].0 == ps[i] && r[i].1 == CoordsOf(lookup(ps[i]))
  {
    if ps == [] then []
    else Locations(ps[..|ps| - 1], lookup) + [(ps[|ps| - 1], CoordsOf(lookup(ps[|ps| - 1])))]
  }

  /** Every distinct place has exactly one entry in `locations`; a place not listed has none. */
  lemma {:induction false} LocationsMatch(ps: seq<Place>, lookup: Place -> Outcome, k: Place)
    requires NoDuplicates(ps)
    ensures Matches(Locations(ps, lookup), k) == if k in ps then [CoordsOf(lookup(k))] else []
  {
    if ps != [] {
      NoDuplicatesInit(ps);
      LocationsMatch(ps[..|ps| - 1], lookup, k);
      LocationsMatchSnoc(ps, lookup, k);
    }
  }

  /** The last place, not listed before it, adds its own entry and no other. */
  lemma LocationsMatchSnoc(ps: seq<Place>, lookup: Place -> Outcome, k: Place)
    requires ps != [] && ps[|ps| - 1] !in ps[..|ps| - 1]
    requires Matches(Locations(ps[..|ps| - 1], lookup), k) == if k in ps[..|ps| - 1] then [CoordsOf(lookup(k))] else []
    ensures Matches(Locations(ps, lookup), k) == if k in ps then [CoordsOf(lookup(k))] else []
  {
    var init, last := ps[..|ps| - 1], ps[|ps| - 1];
    var e := (last, CoordsOf(lookup(last)));
    assert Locations(ps, lookup) == Locations(init, lookup) + [e];
    MatchesSnoc(Locations(init, lookup), e, k);
    assert k in ps <==> k in init || k == last;
  }

  /** `pd.merge(df, locations_df, on=['City', 'Country'], how='left')`. */
  function Attach(rows: seq<Row>, locs: seq<(Place, Option<Coord>)>): (r: seq<Row>)
    ensures |r| == |LeftMerge(rows, locs, PlaceOf)|
  {
    var m := LeftMerge(rows, locs, PlaceOf);
    seq(|m|, i requires 0 <= i < |m| => m[i].0.(coords := if m[i].1.Some? then m[i].1.value else None))
  }

  /**
   * `geocode_data(df)`: a table that has Latitude and Longitude already is returned as it is;
   * otherwise every distinct place is looked up once and the result merged back onto the rows.
   * Indexing City or Country fails when the table lacks it. When the table has no rows the
   * `locations` list is empty, the frame built from it has no City column, and the merge on
   * (City, Country) fails.
   */
  function Geocoded(t: Table, lookup: Place -> Outcome): (r: Result<Table, Failure>)
    ensures r.Err? <==>
      !(Latitude in t.columns && Longitude in t.columns) && (City !in t.columns || Country !in t.columns || t.rows == [])
    ensures r.Ok? ==> r.value.columns == t.columns + {Latitude, Longitude}
    ensures Latitude in t.columns && Longitude in t.columns ==> r == Ok(t)
  {
    if Latitude in t.columns && Longitude in t.columns then Ok(t)
    else if City !in t.columns then Err(MissingColumn(City))
    else if Country !in t.columns then Err(MissingColumn(Country))
    else
      LocationsEmpty(t.rows, lookup);
      var locs := Locations(Places(t.rows), lookup);
      if locs == [] then Err(MissingColumn(City))
      else Ok(Table(t.columns + {Latitude, Longitude}, Attach(t.rows, locs)))
  }

  /** The `locations` list is empty exactly when the table has no rows. */
  lemma LocationsEmpty(rows: seq<Row>, lookup: Place -> Outcome)
    ensures Locations(Places(rows), lookup) == [] <==> rows == []
  {
    if rows != [] {
      assert PlaceOf(rows[0]) in Places(rows);
    }
  }

  /** Geocoding a table with no rows fails in the merge, whatever the lookup returns. */
  lemma GeocodedNoRows(t: Table, lookup: Place -> Outcome)
    requires !(Latitude in t.columns && Longitude in t.columns)
    requires City in t.columns && Country in t.columns && t.rows == []
    ensures Geocoded(t, lookup) == Err(MissingColumn(City))
  {
    LocationsEmpty(t.rows, lookup);
  }

  /**
   * The merge keeps every row, in order, changing only its coordinates: those found for its own
   * (City, Country), or missing values when the lookup found nothing or raised.
   */
  lemma AttachLocated(rows: seq<Row>, lookup: Place -> Outcome)
    ensures |Attach(rows, Locations(Places(rows), lookup))| == |rows|
    ensures forall i :: 0 <= i < |rows| ==> Attach(rows, Locations(Places(rows), lookup))[i] == Located(rows[i], lookup)
  {
    var ps := Places(rows);
    var locs := Locations(ps, lookup);
    forall x | x in rows
      ensures |Matches(locs, PlaceOf(x))| <= 1
    {
      LocationsMatch(ps, lookup, PlaceOf(x));
    }
    LeftMergeUnique(rows, locs, PlaceOf);
    var m := LeftMerge(rows, locs, PlaceOf);
    forall i | 0 <= i < |rows|
      ensures Attach(rows, locs)[i] == Located(rows[i], lookup)
    {
      LocationsMatch(ps, lookup, PlaceOf(rows[i]));
      assert m[i] == (rows[i], Some(CoordsOf(lookup(PlaceOf(rows[i])))));
    }
  }

  /**
   * Geocoding a table with rows and without coordinate columns adds the two columns and keeps
   * every row, in order, with the coordinates found for its own place or missing ones.
   */
  lemma GeocodedRows(t: Table, lookup: Place -> Outcome)
    requires Latitude !in t.columns && Longitude !in t.columns
    requires City in t.columns && Country in t.columns && t.rows != []
    ensures Geocoded(t, lookup).Ok?
    ensures Geocoded(t, lookup).value.columns == t.columns + {Latitude, Longitude}
    ensures |Geocoded(t, lookup).value.rows| == |t.rows|
    ensures forall i :: 0 <= i < |t.rows| ==> Geocoded(t, lookup).value.rows[i] == Located(t.rows[i], lookup)
  {
    LocationsEmpty(t.rows, lookup);
    AttachLocated(t.rows, lookup);
  }

  /** A table geocoded once is returned unchanged by a second call. */
  lemma GeocodedIdempotent(t: Table, lookup: Place -> Outcome)
    requires Geocoded(t, lookup).Ok?
    ensures Geocoded(Geocoded(t, lookup).value, lookup) == Geocoded(t, lookup)
  {
  }

  /** The loop of `geocode_data`: each place is looked up once, in order. */
  method LookUpPlaces(places: seq<Place>, lookup: Place -> Outcome) returns (locations: seq<(Place, Option<Coord>)>, requests: seq<Place>)
    ensures locations == Locations(places, lookup)
    ensures requests == places
  {
    locations, requests := [], [];
    for i := 0 to |places|
      invariant locations == Locations(places[..i], lookup)
      invariant requests == places[..i]
    {
      var outcome := lookup(places[i]);
      requests := requests + [places[i]];
      locations := locations + [(places[i], CoordsOf(outcome))];
      assert places[..i + 1][..i] == places[..i];
    }
    assert places[..|places|] == places;
  }

  /**
   * `geocode_data` step by step, one request per distinct place. `requests` lists the places
   * sent to the service, in order: none when the table already has coordinates.
   */
  method GeocodeData(t: Table, lookup: Place -> Outcome) returns (r: Result<Table, Failure>, requests: seq<Place>)
    ensures r == Geocoded(t, lookup)
    ensures requests == if r.Ok? && r.value != t then Places(t.rows) else []
  {
    if Latitude in t.columns && Longitude in t.columns {
      return Ok(t), [];
    }
    if City !in t.columns {
      return Err(MissingColumn(City)), [];
    }
    if Country !in t.columns {
      return Err(MissingColumn(Country)), [];
    }
    var locations;
    locations, requests := LookUpPlaces(Places(t.rows), lookup);
    if locations == [] {
      LocationsEmpty(t.rows, lookup);
      return Err(MissingColumn(City)), requests;
    }
    r := Ok(Table(t.columns + {Latitude, Longitude}, Attach(t.rows, locations)));
    assert r.value.columns != t.columns by {
      if Latitude !in t.columns { assert Latitude in r.value.columns; } else { assert Longitude in r.value.columns; }
    }
  }
}
