/**
 * The sales map of both dashboards: the rows of one country grouped by (City, Latitude,
 * Longitude) with their total and their count, and the ten cities with the largest totals.
 */
module CityMap {
  import opened Wrappers
  import opened Frames
  import opened Seqs
  import opened Groups
  import Dashboard

  /** One point of the map: `City`, `Latitude`, `Longitude`, `TOTAL_SALES`, `TRANSACTION_COUNT`. */
  datatype CitySales = CitySales(city: string, at: Coord, total: int, count: int)

  /** The grouping key; a row without a city or without coordinates has none and is dropped. */
  function MapKey(r: Row): Option<(string, Coord)> {
    if r.city.Some? && r.coords.Some? then Some((r.city.value, r.coords.value)) else None
  }

  function TotalOf(c: CitySales): int {
    c.total
  }

  /** A row that can be put on the map: it has a city and coordinates. */
  function Mappable(r: Row): bool {
    r.city.Some? && r.coords.Some?
  }

  /**
   * `groupby(['City', 'Latitude', 'Longitude']).agg(TOTAL_SALES=sum, TRANSACTION_COUNT=count)`:
   * each located place once, with the sum of the amounts and the number of non-missing amounts
   * over exactly its rows.
   */
  function CityData(rows: seq<Row>): (r: seq<CitySales>)
    ensures forall i, j :: 0 <= i < j < |r| ==> (r[i].city, r[i].at) != (r[j].city, r[j].at)
    ensures forall i :: 0 <= i < |r| ==>
      r[i].total == Sum(Select(rows, HasKey(MapKey, (r[i].city, r[i].at))), AmountOf)
      && r[i].count == Sum(Select(rows, HasKey(MapKey, (r[i].city, r[i].at))), Counted)
  {
    var g := GroupSum(rows, MapKey, AmountOf);
    var r := seq(|g|, i requires 0 <= i < |g| => CitySales(g[i].0.0, g[i].0.1, g[i].1, GroupTotal(rows, MapKey, Counted, g[i].0)));
    forall i, j | 0 <= i < j < |r|
      ensures (r[i].city, r[i].at) != (r[j].city, r[j].at)
    {
      assert (r[i].city, r[i].at) == g[i].0 && (r[j].city, r[j].at) == g[j].0;
    }
    forall i | 0 <= i < |r|
      ensures r[i].total == Sum(Select(rows, HasKey(MapKey, (r[i].city, r[i].at))), AmountOf)
      ensures r[i].count == Sum(Select(rows, HasKey(MapKey, (r[i].city, r[i].at))), Counted)
    {
      assert (r[i].city, r[i].at) == g[i].0 && r[i].total == g[i].1;
      GroupTotalIsSumOfGroup(rows, MapKey, Counted, g[i].0);
    }
    r
  }

  /** Every place on the map comes from a row with that city and those coordinates. */
  lemma CityDataFromRows(rows: seq<Row>, i: nat)
    requires i < |CityData(rows)|
    ensures exists x :: x in rows && x.city == Some(CityData(rows)[i].city) && x.coords == Some(CityData(rows)[i].at)
  {
    var d := CityData(rows);
    var g := GroupSum(rows, MapKey, AmountOf);
    assert g[i].0 == (d[i].city, d[i].at);
    var j :| 0 <= j < |rows| && MapKey(rows[j]) == Some(g[i].0);
    assert rows[j] in rows;
  }

  /** Every row with a city and coordinates has its place on the map. */
  lemma CityDataCoversRows(rows: seq<Row>, x: Row)
    requires x in rows && Mappable(x)
    ensures exists i :: 0 <= i < |CityData(rows)| && CityData(rows)[i].city == x.city.value && CityData(rows)[i].at == x.coords.value
  {
    var d := CityData(rows);
    var g := GroupSum(rows, MapKey, AmountOf);
    var k := (x.city.value, x.coords.value);
    var j :| 0 <= j < |rows| && rows[j] == x;
    assert MapKey(rows[j]) == Some(k);
    assert exists i :: 0 <= i < |g| && g[i].0 == k;
    var i :| 0 <= i < |g| && g[i].0 == k;
    assert d[i] == CitySales(k.0, k.1, g[i].1, GroupTotal(rows, MapKey, Counted, k));
  }

  /** The map's totals add up to the amount of the rows that have a city and coordinates. */
  lemma CityDataAddsUp(rows: seq<Row>)
    ensures Sum(CityData(rows), TotalOf) == Sum(Select(rows, Mappable), AmountOf)
  {
    var g := GroupSum(rows, MapKey, AmountOf);
    SumPointwise(CityData(rows), TotalOf, g, Second);
    GroupSumAddsUp(rows, MapKey, AmountOf);
    forall x: Row
      ensures HasSomeKey(MapKey)(x) == Mappable(x)
    {
      assert HasSomeKey(MapKey)(x) == MapKey(x).Some?;
    }
    SelectExt(rows, HasSomeKey(MapKey), Mappable);
  }

  /**
   * The map data for the selected country: `df[df['Country'] == country]` grouped as above.
   * Indexing a column the table lacks fails: Country first, then the three grouping columns,
   * then the amount column.
   */
  function MapData(t: Table, country: string): (r: Result<seq<CitySales>, Failure>)
    ensures r.Err? <==> !({Country, City, Latitude, Longitude, Amount} <= t.columns)
    ensures r.Ok? ==> forall i, j :: 0 <= i < j < |r.value| ==> (r.value[i].city, r.value[i].at) != (r.value[j].city, r.value[j].at)
  {
    if Country !in t.columns then Err(MissingColumn(Country))
    else if City !in t.columns then Err(MissingColumn(City))
    else if Latitude !in t.columns then Err(MissingColumn(Latitude))
    else if Longitude !in t.columns then Err(MissingColumn(Longitude))
    else if Amount !in t.columns then Err(MissingColumn(Amount))
    else Ok(CityData(Select(t.rows, Dashboard.CountryMask(country))))
  }

  function InCountry(country: string): Row -> bool {
    (r: Row) => r.country == Some(country) && Mappable(r)
  }

  /** A table that was never geocoded, or whose geocoding found nothing, has no map. */
  lemma MapDataNeedsCoordinates(t: Table, country: string)
    requires Latitude !in t.columns || Longitude !in t.columns
    ensures MapData(t, country).Err?
    ensures Country in t.columns && City in t.columns ==>
      MapData(t, country) == Err(MissingColumn(if Latitude !in t.columns then Latitude else Longitude))
  {
  }

  /** The map's totals add up to the amount of the rows of that country with a city and coordinates. */
  lemma MapDataAddsUp(t: Table, country: string)
    requires MapData(t, country).Ok?
    ensures Sum(MapData(t, country).value, TotalOf) == Sum(Select(t.rows, InCountry(country)), AmountOf)
  {
    var p := Dashboard.CountryMask(country);
    var rows := Select(t.rows, p);
    CityDataAddsUp(rows);
    SelectChain(t.rows, p, Mappable, InCountry(country));
  }

  /** Each place on the map comes from a row of that country with that city and those coordinates. */
  lemma MapDataFromRows(t: Table, country: string)
    requires MapData(t, country).Ok?
    ensures forall i :: 0 <= i < |MapData(t, country).value| ==>
      exists x :: x in t.rows && x.country == Some(country) && x.city == Some(MapData(t, country).value[i].city) && x.coords == Some(MapData(t, country).value[i].at)
  {
    var p := Dashboard.CountryMask(country);
    var rows := Select(t.rows, p);
    var d := CityData(rows);
    assert MapData(t, country).value == d;
    SelectMembers(t.rows, p);
    forall i | 0 <= i < |d|
      ensures exists x :: x in t.rows && x.country == Some(country) && x.city == Some(d[i].city) && x.coords == Some(d[i].at)
    {
      CityDataFromRows(rows, i);
      var x :| x in rows && x.city == Some(d[i].city) && x.coords == Some(d[i].at);
      assert x in t.rows && p(x);
    }
  }

  /** Each row of that country with a city and coordinates has its place on the map. */
  lemma MapDataCoversRows(t: Table, country: string)
    requires MapData(t, country).Ok?
    ensures forall x :: x in t.rows && InCountry(country)(x) ==>
      exists i :: 0 <= i < |MapData(t, country).value| && MapData(t, country).value[i].city == x.city.value && MapData(t, country).value[i].at == x.coords.value
  {
    var p := Dashboard.CountryMask(country);
    var rows := Select(t.rows, p);
    var d := CityData(rows);
    assert MapData(t, country).value == d;
    SelectMembers(t.rows, p);
    forall x | x in t.rows && InCountry(country)(x)
      ensures exists i :: 0 <= i < |d| && d[i].city == x.city.value && d[i].at == x.coords.value
    {
      assert p(x);
      CityDataCoversRows(rows, x);
    }
  }

  /** Sorted by `TOTAL_SALES`, largest first. */
  predicate Descending(s: seq<CitySales>) {
    forall i, j :: 0 <= i < j < |s| ==> s[i].total >= s[j].total
  }

  /** Places `c` into a list already sorted largest first. */
  function Insert(c: CitySales, s: seq<CitySales>): (r: seq<CitySales>)
    requires Descending(s)
    ensures Descending(r)
    ensures multiset(r) == multiset(s) + multiset{c}
    ensures |r| == |s| + 1
    ensures r[0] == c || (s != [] && r[0] == s[0])
  {
    if s == [] then [c]
    else if c.total >= s[0].total then
      ConsDescending(c, s);
      [c] + s
    else
      var rest := Insert(c, s[1..]);
      InsertBehind(c, s, rest);
      [s[0]] + rest
  }

  /** A place smaller than the head goes behind it, into the sorted rest. */
  lemma InsertBehind(c: CitySales, s: seq<CitySales>, rest: seq<CitySales>)
    requires s != [] && Descending(s) && c.total < s[0].total
    requires Descending(rest) && multiset(rest) == multiset(s[1..]) + multiset{c}
    requires rest != [] && (rest[0] == c || (|s| > 1 && rest[0] == s[1]))
    ensures Descending([s[0]] + rest)
    ensures multiset([s[0]] + rest) == multiset(s) + multiset{c}
  {
    assert s == [s[0]] + s[1..];
    ConsDescending(s[0], rest);
  }

  /** A place no smaller than the head of a sorted list can go in front of it. */
  lemma ConsDescending(c: CitySales, s: seq<CitySales>)
    requires Descending(s)
    requires s != [] ==> c.total >= s[0].total
    ensures Descending([c] + s)
  {
    var r := [c] + s;
    forall i, j | 0 <= i < j < |r|
      ensures r[i].total >= r[j].total
    {
      if i == 0 && j > 1 {
        assert r[1] == s[0] && r[j] == s[j - 1];
      }
    }
  }

  /** `sort_values('TOTAL_SALES', ascending=False)`. */
  function SortByTotal(s: seq<CitySales>): (r: seq<CitySales>)
    ensures Descending(r)
    ensures multiset(r) == multiset(s)
    ensures |r| == |s|
  {
    if s == [] then []
    else
      assert s == [s[0]] + s[1..];
      Insert(s[0], SortByTotal(s[1..]))
  }

  /** In a list sorted largest first, nothing after the first `n` places exceeds anything before. */
  lemma PrefixIsTop(sorted: seq<CitySales>, n: nat)
    requires Descending(sorted) && n <= |sorted|
    ensures forall x, y :: x in sorted[n..] && y in sorted[..n] ==> x.total <= y.total
  {
    forall x, y | x in sorted[n..] && y in sorted[..n]
      ensures x.total <= y.total
    {
      var i :| n <= i < |sorted| && sorted[i] == x;
      var j :| 0 <= j < n && sorted[j] == y;
    }
  }

  /** What the first `n` places leave out of a list is the rest of it. */
  lemma PrefixRest(s: seq<CitySales>, n: nat)
    requires n <= |s|
    ensures multiset(s[..n]) <= multiset(s)
    ensures forall x :: x in multiset(s) - multiset(s[..n]) ==> x in s[n..]
  {
    assert s == s[..n] + s[n..];
    assert multiset(s) == multiset(s[..n]) + multiset(s[n..]);
  }

  /** The first `n` places of a sorted copy of `data` are the top `n` of `data`. */
  lemma TopOfSorted(data: seq<CitySales>, sorted: seq<CitySales>, n: nat)
    requires Descending(sorted) && multiset(sorted) == multiset(data) && n <= |sorted|
    ensures Descending(sorted[..n])
    ensures multiset(sorted[..n]) <= multiset(data)
    ensures forall x, y :: x in multiset(data) - multiset(sorted[..n]) && y in sorted[..n] ==> x.total <= y.total
  {
    var top := sorted[..n];
    PrefixIsTop(sorted, n);
    PrefixRest(sorted, n);
    forall x, y | x in multiset(data) - multiset(top) && y in top
      ensures x.total <= y.total
    {
      assert x in sorted[n..];
    }
  }

  /**
   * `sort_values('TOTAL_SALES', ascending=False).head(10)`: at most ten places, largest first,
   * all taken from the map data, and none of the places left out has a larger total than any
   * place kept.
   */
  function TopCities(data: seq<CitySales>): (r: seq<CitySales>)
    ensures |r| == if |data| < 10 then |data| else 10
    ensures Descending(r)
    ensures multiset(r) <= multiset(data)
    ensures forall x, y :: x in multiset(data) - multiset(r) && y in r ==> x.total <= y.total
  {
    var sorted := SortByTotal(data);
    var n := if |sorted| < 10 then |sorted| else 10;
    TopOfSorted(data, sorted, n);
    sorted[..n]
  }
}
