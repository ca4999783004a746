/**
 * The data model shared by both dashboards: a transaction row (a sale or a collection),
 * a staff-roster row, and a table as its set of columns plus its rows.
 */
module Frames {
  import opened Wrappers

  /** A text cell; None is a missing value (NaN or None in the dataframe). */
  type Cell = Option<string>

  /** A numeric cell as loaded: missing, a number, or a value that does not read as a number. */
  datatype Numeric = Null | Num(n: int) | Unparsed

  /**
   * An ORDER_DATE cell: missing, a timestamp in seconds, or a value that is present but does not
   * read as a date. `pd.to_datetime(errors='coerce')` turns the third kind into NaT; a sheet that
   * is never parsed keeps it, and `dropna()` does not drop it.
   */
  datatype Stamp = NoDate | At(instant: int) | Unread

  /** Latitude and longitude of a place, in fixed-point units. */
  datatype Coord = Coord(lat: int, lon: int)

  /**
   * A row of the sales or collection table. `amount` is the money column (Montant for sales,
   * TRANSACTION for collections, Total_sale in the database). `date` is the ORDER_DATE
   * cell; only an `At` stamp passes a date comparison. `coords` holds Latitude and
   * Longitude, which are only meaningful once the table has those columns.
   */
  datatype Row = Row(
    hyp: Cell,
    reference: Cell,
    message: Cell,
    country: Cell,
    city: Cell,
    bank: Cell,
    date: Stamp,
    amount: Numeric,
    coords: Option<Coord>)

  /** A row of the staff roster (the Effectif sheet or the Effectifs table). */
  datatype Staff = Staff(hyp: Cell, team: Cell, department: Cell, activity: Cell)

  /** The columns whose presence the dashboards test with `in df.columns`. */
  datatype Column =
    | Hyp | OrderReference | ShortMessage | OrderDate | Country | City | Bank | Amount
    | Latitude | Longitude

  datatype Table = Table(columns: set<Column>, rows: seq<Row>)

  /** The error pandas raises when a missing column is indexed (a KeyError). */
  datatype Failure = MissingColumn(column: Column)

  const SecondsPerDay: int := 86400

  /** The timestamp of midnight at the start of a calendar day (`pd.to_datetime(date)`). */
  function Midnight(day: int): int {
    day * SecondsPerDay
  }

  /** The calendar day of a timestamp (`.dt.date`): the day whose midnights enclose it. */
  function Day(t: int): (d: int)
    ensures Midnight(d) <= t < Midnight(d + 1)
  {
    t / SecondsPerDay
  }

  /** What a row adds to a column sum: pandas' `sum` skips missing values. */
  function AmountOf(r: Row): int {
    match r.amount
    case Num(n) => n
    case _ => 0
  }

  /** What a row adds to a column count: pandas' `count` skips missing values. */
  function Counted(r: Row): int {
    if r.amount.Num? then 1 else 0
  }
}
