/**
 * `groupby(key)[value].sum()`: one entry per distinct non-missing key, holding the sum of the
 * value over exactly the rows with that key. pandas drops rows whose key is missing.
 */
module Groups {
  import opened Wrappers
  import opened Seqs

  /** The mask of the rows in group `k`. */
  function HasKey<T, K(==)>(key: T -> Option<K>, k: K): T -> bool {
    x => key(x) == Some(k)
  }

  /** The mask of the rows that belong to some group (their key is not missing). */
  function HasSomeKey<T, K>(key: T -> Option<K>): T -> bool {
    x => key(x).Some?
  }

  /** The non-missing keys of the rows, in row order, repetitions included. */
  function KeysOf<T, K(==,!new)>(rows: seq<T>, key: T -> Option<K>): (ks: seq<K>)
    ensures forall k :: k in ks <==> exists i :: 0 <= i < |rows| && key(rows[i]) == Some(k)
  {
    if rows == [] then []
    else
      var init, last := rows[..|rows| - 1], rows[|rows| - 1];
      assert forall i :: 0 <= i < |init| ==> init[i] == rows[i];
      KeysOf(init, key) + (if key(last).Some? then [key(last).value] else [])
  }

  /** The groups' keys, each once, in order of first appearance. */
  function GroupKeys<T, K(==,!new)>(rows: seq<T>, key: T -> Option<K>): seq<K> {
    Distinct(KeysOf(rows, key))
  }

  /** The sum of `val` over the rows whose key is `k`, in one pass over the rows. */
  function GroupTotal<T, K(==)>(rows: seq<T>, key: T -> Option<K>, val: T -> int, k: K): int {
    if rows == [] then 0
    else
      var last := rows[|rows| - 1];
      GroupTotal(rows[..|rows| - 1], key, val, k) + (if key(last) == Some(k) then val(last) else 0)
  }

  /** A group's total is the sum of the value over exactly the rows of that group. */
  lemma {:induction false} GroupTotalIsSumOfGroup<T(!new), K>(rows: seq<T>, key: T -> Option<K>, val: T -> int, k: K)
    ensures GroupTotal(rows, key, val, k) == Sum(Select(rows, HasKey(key, k)), val)
  {
    if rows != [] {
      var init, last := rows[..|rows| - 1], rows[|rows| - 1];
      var p := HasKey(key, k);
      GroupTotalIsSumOfGroup(init, key, val, k);
      assert rows == init + [last];
      SelectSnoc(init, last, p);
      var g := Select(init, p);
      if p(last) {
        SumSnoc(g, last, val);
      }
    }
  }

  /** One (key, total) entry per key of `ks`, in the order of `ks`. */
  function Tabulate<T, K(==)>(rows: seq<T>, key: T -> Option<K>, val: T -> int, ks: seq<K>): (r: seq<(K, int)>)
    ensures |r| == |ks|
    ensures forall i :: 0 <= i < |r| ==> r[i] == (ks[i], GroupTotal(rows, key, val, ks[i]))
  {
    if ks == [] then []
    else
      var last := ks[|ks| - 1];
      Tabulate(rows, key, val, ks[..|ks| - 1]) + [(last, GroupTotal(rows, key, val, last))]
  }

  /**
   * `rows.groupby(key)[val].sum().reset_index()`: each distinct non-missing key once, with the sum
   * of `val` over exactly the rows carrying it; a key is listed iff some row carries it.
   */
  function GroupSum<T(==,!new), K(==,!new)>(rows: seq<T>, key: T -> Option<K>, val: T -> int): (r: seq<(K, int)>)
    ensures forall i, j :: 0 <= i < j < |r| ==> r[i].0 != r[j].0
    ensures forall k :: (exists i :: 0 <= i < |r| && r[i].0 == k) <==> (exists j :: 0 <= j < |rows| && key(rows[j]) == Some(k))
    ensures forall i :: 0 <= i < |r| ==> r[i].1 == Sum(Select(rows, HasKey(key, r[i].0)), val)
  {
    var ks := GroupKeys(rows, key);
    var r := Tabulate(rows, key, val, ks);
    forall k
      ensures (exists i :: 0 <= i < |r| && r[i].0 == k) <==> k in KeysOf(rows, key)
    {
      if k in ks {
        var i :| 0 <= i < |ks| && ks[i] == k;
        assert r[i].0 == k;
      }
    }
    forall i | 0 <= i < |r|
      ensures r[i].1 == Sum(Select(rows, HasKey(key, r[i].0)), val)
    {
      GroupTotalIsSumOfGroup(rows, key, val, ks[i]);
    }
    r
  }

  /** A key that no row carries has a total of zero. */
  lemma {:induction false} GroupTotalAbsent<T, K(!new)>(rows: seq<T>, key: T -> Option<K>, val: T -> int, k: K)
    requires k !in KeysOf(rows, key)
    ensures GroupTotal(rows, key, val, k) == 0
  {
    if rows != [] {
      var init := rows[..|rows| - 1];
      assert forall i :: 0 <= i < |init| ==> init[i] == rows[i];
      GroupTotalAbsent(init, key, val, k);
    }
  }

  function Second<K>(p: (K, int)): int {
    p.1
  }

  lemma SumSnoc<T>(s: seq<T>, x: T, f: T -> int)
    ensures Sum(s + [x], f) == Sum(s, f) + f(x)
  {
    assert (s + [x])[..|s|] == s;
  }

  /** Appending a row adds its value to the tabulated total iff its key is tabulated. */
  lemma {:induction false} TabulateSnoc<T, K(!new)>(rows: seq<T>, x: T, key: T -> Option<K>, val: T -> int, ks: seq<K>)
    requires NoDuplicates(ks)
    ensures Sum(Tabulate(rows + [x], key, val, ks), Second) ==
            Sum(Tabulate(rows, key, val, ks), Second) + (if key(x).Some? && key(x).value in ks then val(x) else 0)
  {
    assert (rows + [x])[..|rows|] == rows;
    if ks != [] {
      var init, last := ks[..|ks| - 1], ks[|ks| - 1];
      assert ks == init + [last];
      TabulateSnoc(rows, x, key, val, init);
      SumSnoc(Tabulate(rows + [x], key, val, init), (last, GroupTotal(rows + [x], key, val, last)), Second);
      SumSnoc(Tabulate(rows, key, val, init), (last, GroupTotal(rows, key, val, last)), Second);
    }
  }

  /** Distinct keys after appending one row. */
  lemma GroupKeysSnoc<T, K(!new)>(rows: seq<T>, x: T, key: T -> Option<K>)
    ensures GroupKeys(rows + [x], key) ==
      var d := GroupKeys(rows, key);
      if key(x).None? || key(x).value in d then d else d + [key(x).value]
  {
    assert (rows + [x])[..|rows|] == rows;
    var ks := KeysOf(rows, key);
    assert KeysOf(rows + [x], key) == ks + (if key(x).Some? then [key(x).value] else []);
    assert GroupKeys(rows, key) == Distinct(ks);
    if key(x).Some? {
      var s := ks + [key(x).value];
      assert s[..|s| - 1] == ks && s[|s| - 1] == key(x).value;
      assert GroupKeys(rows + [x], key) == Distinct(s);
      assert Distinct(s) == if key(x).value in Distinct(ks) then Distinct(ks) else Distinct(ks) + [key(x).value];
    } else {
      assert ks + [] == ks;
    }
  }

  /** A row with a missing key leaves the tabulated groups and their totals as they were. */
  lemma TabulateStepMissing<T, K(!new)>(init: seq<T>, x: T, key: T -> Option<K>, val: T -> int)
    requires key(x).None?
    ensures Sum(Tabulate(init + [x], key, val, GroupKeys(init + [x], key)), Second) ==
            Sum(Tabulate(init, key, val, GroupKeys(init, key)), Second)
  {
    var d := GroupKeys(init, key);
    GroupKeysSnoc(init, x, key);
    TabulateSnoc(init, x, key, val, d);
  }

  /** A row of an existing group adds its value to that group's total. */
  lemma TabulateStepExisting<T, K(!new)>(init: seq<T>, x: T, key: T -> Option<K>, val: T -> int)
    requires key(x).Some? && key(x).value in GroupKeys(init, key)
    ensures Sum(Tabulate(init + [x], key, val, GroupKeys(init + [x], key)), Second) ==
            Sum(Tabulate(init, key, val, GroupKeys(init, key)), Second) + val(x)
  {
    var d := GroupKeys(init, key);
    GroupKeysSnoc(init, x, key);
    TabulateSnoc(init, x, key, val, d);
  }

  /** A row with a new key opens a group whose total is its value. */
  lemma TabulateStepNew<T, K(!new)>(init: seq<T>, x: T, key: T -> Option<K>, val: T -> int)
    requires key(x).Some? && key(x).value !in GroupKeys(init, key)
    ensures Sum(Tabulate(init + [x], key, val, GroupKeys(init + [x], key)), Second) ==
            Sum(Tabulate(init, key, val, GroupKeys(init, key)), Second) + val(x)
  {
    var rows := init + [x];
    var d := GroupKeys(init, key);
    var kx := key(x).value;
    GroupKeysSnoc(init, x, key);
    assert GroupKeys(rows, key) == d + [kx];
    TabulateSnoc(init, x, key, val, d);
    assert (d + [kx])[..|d|] == d;
    var e := (kx, GroupTotal(rows, key, val, kx));
    assert Tabulate(rows, key, val, d + [kx]) == Tabulate(rows, key, val, d) + [e];
    SumSnoc(Tabulate(rows, key, val, d), e, Second);
    assert kx !in KeysOf(init, key);
    GroupTotalAbsent(init, key, val, kx);
    assert rows[..|init|] == init;
  }

  lemma {:induction false} TabulateAddsUp<T(!new), K(!new)>(rows: seq<T>, key: T -> Option<K>, val: T -> int)
    ensures Sum(Tabulate(rows, key, val, GroupKeys(rows, key)), Second) == Sum(Select(rows, HasSomeKey(key)), val)
  {
    if rows == [] {
      assert KeysOf(rows, key) == [];
      assert GroupKeys(rows, key) == [];
      assert Select(rows, HasSomeKey(key)) == [];
    } else {
      var init, x := rows[..|rows| - 1], rows[|rows| - 1];
      var present := HasSomeKey(key);
      assert rows == init + [x];
      TabulateAddsUp(init, key, val);
      SelectSnoc(init, x, present);
      assert present(x) == key(x).Some?;
      if key(x).None? {
        TabulateStepMissing(init, x, key, val);
      } else {
        SumSnoc(Select(init, present), x, val);
        if key(x).value in GroupKeys(init, key) {
          TabulateStepExisting(init, x, key, val);
        } else {
          TabulateStepNew(init, x, key, val);
        }
      }
    }
  }

  /**
   * Group sums add up: the totals of all groups together equal the sum of the value over
   * every row whose key is present (rows with a missing key belong to no group).
   */
  lemma GroupSumAddsUp<T(!new), K(!new)>(rows: seq<T>, key: T -> Option<K>, val: T -> int)
    ensures Sum(GroupSum(rows, key, val), Second) == Sum(Select(rows, HasSomeKey(key)), val)
  {
    TabulateAddsUp(rows, key, val);
  }

  /** When no row has a missing key, every row belongs to some group. */
  lemma AllKeyed<T(!new), K>(rows: seq<T>, key: T -> Option<K>)
    ensures (forall x :: x in rows ==> key(x).Some?) ==> Select(rows, HasSomeKey(key)) == rows
  {
    if forall x :: x in rows ==> key(x).Some? {
      SelectAll(rows, HasSomeKey(key));
    }
  }
}
