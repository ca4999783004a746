/**
 * Numeric coercion of the money column: `pd.to_numeric(col, errors='coerce').fillna(0)`,
 * run in place by `preprocess_data` and, after `dropna`, by the collections loader.
 */
module Preprocess {
  import opened Wrappers
  import opened Frames
  import opened Seqs

  /** A number keeps its value; a missing or unreadable cell becomes 0. */
  function ToNumber(c: Numeric): int {
    match c
    case Num(n) => n
    case _ => 0
  }

  function Coerce(r: Row): Row {
    r.(amount := Num(ToNumber(r.amount)))
  }

  /** The table after its money column was coerced. */
  function Coerced(rows: seq<Row>): (r: seq<Row>)
    ensures |r| == |rows|
    ensures forall i :: 0 <= i < |r| ==> r[i].amount.Num? && r[i] == rows[i].(amount := r[i].amount)
    ensures forall i :: 0 <= i < |r| ==> r[i].amount == if rows[i].amount.Num? then rows[i].amount else Num(0)
  {
    seq(|rows|, i requires 0 <= i < |rows| => Coerce(rows[i]))
  }

  /**
   * `preprocess_data`: when the table has its money column, that column is replaced, in place,
   * by its coerced values; no other cell changes. Dates are already parse results here.
   */
  method PreprocessData(columns: set<Column>, rows: array<Row>)
    modifies rows
    ensures rows[..] == if Amount in columns then Coerced(old(rows[..])) else old(rows[..])
  {
    if Amount in columns {
      forall i | 0 <= i < rows.Length {
        rows[i] := Coerce(rows[i]);
      }
    }
  }

  /**
   * Coercion changes no column total, since a sum already skips what becomes 0, but afterwards
   * every row is counted by `count`.
   */
  lemma {:induction false} CoercedKeepsTotals(rows: seq<Row>)
    ensures Sum(Coerced(rows), AmountOf) == Sum(rows, AmountOf)
    ensures Sum(Coerced(rows), Counted) == |rows|
  {
    if rows != [] {
      var init := rows[..|rows| - 1];
      CoercedKeepsTotals(init);
      assert Coerced(rows)[..|rows| - 1] == Coerced(init);
    }
  }

  /** Coercing twice is coercing once. */
  lemma CoercedIdempotent(rows: seq<Row>)
    ensures Coerced(Coerced(rows)) == Coerced(rows)
  {
  }

  /** `dropna()` on the collection sheet: every cell of the row is present. */
  predicate Complete(r: Row) {
    && r.hyp.Some? && r.bank.Some? && r.amount != Null && r.reference.Some?
    && r.date != NoDate && r.message.Some? && r.city.Some? && r.country.Some?
  }

  /** The second `load_data`: drop incomplete rows, then coerce TRANSACTION. */
  function LoadCollections(raw: seq<Row>): (r: seq<Row>)
    ensures |r| <= |raw|
    ensures forall i :: 0 <= i < |r| ==> r[i].amount.Num?
  {
    Coerced(Select(raw, Complete))
  }

  /**
   * The cleaned collections hold only complete, numeric rows, one per complete input row and in
   * input order. A missing TRANSACTION or ORDER_DATE drops its row; an unreadable TRANSACTION
   * becomes 0, and an ORDER_DATE that is present but unreadable is kept as it is.
   */
  lemma LoadCollectionsSpec(raw: seq<Row>)
    ensures |LoadCollections(raw)| == |Select(raw, Complete)|
    ensures forall y :: y in LoadCollections(raw) ==> Complete(y) && y.amount.Num?
    ensures forall y :: y in LoadCollections(raw) ==> exists x :: x in raw && Complete(x) && y == Coerce(x)
    ensures forall x :: x in raw && Complete(x) ==> Coerce(x) in LoadCollections(raw)
    ensures forall x :: x in raw && (x.amount == Null || x.date == NoDate) ==> x !in Select(raw, Complete)
    ensures forall x :: x in raw && Complete(x) && x.amount == Unparsed ==> x.(amount := Num(0)) in LoadCollections(raw)
    ensures forall x :: x in raw && Complete(x) && x.date == Unread ==> Coerce(x) in LoadCollections(raw) && Coerce(x).date == Unread
    ensures IsSubsequence(LoadCollections(raw), Coerced(raw))
    ensures forall y :: Count(LoadCollections(raw), y) == |Select(raw, Yields(y))|
    ensures exists kept ::
      && IsSubsequence(kept, raw)
      && (forall x :: multiset(kept)[x] == if Complete(x) then multiset(raw)[x] else 0)
      && LoadCollections(raw) == Coerced(kept)
  {
    LoadCollectionsMembers(raw);
    LoadCollectionsOrder(raw);
    LoadCollectionsKept(raw);
    SelectMembers(raw, Complete);
    forall x | x in raw && Complete(x) && x.amount == Unparsed
      ensures x.(amount := Num(0)) in LoadCollections(raw)
    {
      assert Coerce(x) == x.(amount := Num(0));
    }
  }

  lemma LoadCollectionsMembers(raw: seq<Row>)
    ensures forall y :: y in LoadCollections(raw) ==> Complete(y) && y.amount.Num?
    ensures forall y :: y in LoadCollections(raw) ==> exists x :: x in raw && Complete(x) && y == Coerce(x)
    ensures forall x :: x in raw && Complete(x) ==> Coerce(x) in LoadCollections(raw)
  {
    SelectMembers(raw, Complete);
    var kept := Select(raw, Complete);
    forall x | x in raw && Complete(x)
      ensures Coerce(x) in LoadCollections(raw)
    {
      var i :| 0 <= i < |kept| && kept[i] == x;
      assert LoadCollections(raw)[i] == Coerce(x);
    }
    forall y | y in LoadCollections(raw)
      ensures exists x :: x in raw && Complete(x) && y == Coerce(x)
    {
      var i :| 0 <= i < |LoadCollections(raw)| && LoadCollections(raw)[i] == y;
      assert kept[i] in kept;
    }
  }

  lemma LoadCollectionsOrder(raw: seq<Row>)
    ensures IsSubsequence(LoadCollections(raw), Coerced(raw))
    ensures forall y :: Count(LoadCollections(raw), y) == |Select(raw, Yields(y))|
  {
    SelectIsSubsequence(raw, Complete);
    CoercedSubsequence(Select(raw, Complete), raw);
    forall y ensures Count(LoadCollections(raw), y) == |Select(raw, Yields(y))| {
      LoadCollectionsCount(raw, y);
    }
  }

  /**
   * The cleaning is the coercion of one subsequence of the sheet: the one holding every copy of
   * each complete row and nothing else, which fixes the order of the result.
   */
  lemma LoadCollectionsKept(raw: seq<Row>)
    ensures exists kept ::
      && IsSubsequence(kept, raw)
      && (forall x :: multiset(kept)[x] == if Complete(x) then multiset(raw)[x] else 0)
      && LoadCollections(raw) == Coerced(kept)
  {
    SelectIsSubsequence(raw, Complete);
    SelectCount(raw, Complete);
    var kept := Select(raw, Complete);
    assert LoadCollections(raw) == Coerced(kept);
  }

  /** The complete rows of the sheet that clean into `y`. */
  function Yields(y: Row): Row -> bool {
    (x: Row) => Complete(x) && Coerce(x) == y
  }

  lemma CoercedSnoc(s: seq<Row>, x: Row)
    ensures Coerced(s + [x]) == Coerced(s) + [Coerce(x)]
  {
  }

  /** Coercion is row by row, so it keeps a subsequence a subsequence. */
  lemma {:induction false} CoercedSubsequence(a: seq<Row>, b: seq<Row>)
    requires IsSubsequence(a, b)
    ensures IsSubsequence(Coerced(a), Coerced(b))
    decreases |b|
  {
    if a != [] {
      var ca, cb := Coerced(a), Coerced(b);
      assert Coerced(a[..|a| - 1]) == ca[..|ca| - 1];
      assert Coerced(b[..|b| - 1]) == cb[..|cb| - 1];
      if a[|a| - 1] == b[|b| - 1] && IsSubsequence(a[..|a| - 1], b[..|b| - 1]) {
        CoercedSubsequence(a[..|a| - 1], b[..|b| - 1]);
      } else {
        CoercedSubsequence(a, b[..|b| - 1]);
      }
    }
  }

  /** Each cleaned row occurs once per complete sheet row that cleans into it. */
  lemma {:induction false} LoadCollectionsCount(raw: seq<Row>, y: Row)
    ensures Count(LoadCollections(raw), y) == |Select(raw, Yields(y))|
  {
    if raw != [] {
      var init, last := raw[..|raw| - 1], raw[|raw| - 1];
      assert raw == init + [last];
      LoadCollectionsCount(init, y);
      LoadCollectionsSnoc(init, last, y);
    }
  }

  lemma LoadCollectionsSnoc(init: seq<Row>, last: Row, y: Row)
    ensures Count(LoadCollections(init + [last]), y)
         == Count(LoadCollections(init), y) + (if Yields(y)(last) then 1 else 0)
    ensures |Select(init + [last], Yields(y))| == |Select(init, Yields(y))| + (if Yields(y)(last) then 1 else 0)
  {
    SelectSnoc(init, last, Complete);
    SelectSnoc(init, last, Yields(y));
    var kept := Select(init, Complete);
    if Complete(last) {
      CoercedSnoc(kept, last);
      CountSnoc(Coerced(kept), Coerce(last), y);
    }
  }
}
