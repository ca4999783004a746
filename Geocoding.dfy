/**
 * What both dashboards' `geocode_data` share: the (City, Country) place of a row, the distinct
 * places of a table in first-seen order, and the outcome of one call to the geocoding service,
 * which is a parameter of the model.
 */
module Geocoding {
  import opened Wrappers
  import opened Frames
  import opened Seqs

  /** The (City, Country) pair a row is geocoded by. */
  type Place = (Cell, Cell)

  /** One geocoding request: a location was found, none was found, or the call raised. */
  datatype Outcome = Found(at: Coord) | NoResult | Raised

  function PlaceOf(r: Row): Place {
    (r.city, r.country)
  }

  /** The City and Country columns of a table, row by row. */
  function PlaceColumn(rows: seq<Row>): (ps: seq<Place>)
    ensures |ps| == |rows|
    ensures forall i :: 0 <= i < |rows| ==> ps[i] == PlaceOf(rows[i])
  {
    seq(|rows|, i requires 0 <= i < |rows| => PlaceOf(rows[i]))
  }

  /**
   * `df[['City', 'Country']].drop_duplicates()`: each place of the table exactly once
   * (missing cells compare equal to each other here, as they do in `drop_duplicates`).
   */
  function Places(rows: seq<Row>): (ps: seq<Place>)
    ensures NoDuplicates(ps)
    ensures forall r :: r in rows ==> PlaceOf(r) in ps
    ensures forall p :: p in ps ==> exists r :: r in rows && PlaceOf(r) == p
  {
    var column := PlaceColumn(rows);
    assert forall r :: r in rows ==> PlaceOf(r) in column by {
      forall r | r in rows ensures PlaceOf(r) in column {
        var i :| 0 <= i < |rows| && rows[i] == r;
        assert column[i] == PlaceOf(r);
      }
    }
    assert forall p :: p in column ==> exists r :: r in rows && PlaceOf(r) == p by {
      forall p | p in column ensures exists r :: r in rows && PlaceOf(r) == p {
        var i :| 0 <= i < |column| && column[i] == p;
        assert rows[i] in rows;
      }
    }
    Distinct(column)
  }

  /** The Latitude and Longitude a place receives: the location found, or missing values. */
  function CoordsOf(o: Outcome): (c: Option<Coord>)
    ensures c.Some? <==> o.Found?
    ensures o.Found? ==> c.value == o.at
  {
    if o.Found? then Some(o.at) else None
  }

  /** A row with its place's coordinates attached. */
  function Located(r: Row, lookup: Place -> Outcome): Row {
    r.(coords := CoordsOf(lookup(PlaceOf(r))))
  }
}
