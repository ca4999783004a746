/**
 * Generic operations on sequences of rows: boolean-mask selection, subsequences,
 * first-occurrence de-duplication, sums and the left merge of two tables.
 * Every recursion peels off the LAST element, the way a loop that appends would.
 */
module Seqs {
  import opened Wrappers

  /** The elements of `s` that satisfy `p`, in their original order (a boolean mask). */
  function Select<T(==,!new)>(s: seq<T>, p: T -> bool): (r: seq<T>)
    ensures |r| <= |s|
  {
    if s == [] then []
    else
      var init := Select(s[..|s| - 1], p);
      if p(s[|s| - 1]) then init + [s[|s| - 1]] else init
  }

  /** A mask keeps every copy of a row that satisfies it and no copy of any other row. */
  lemma {:induction false} SelectCount<T(!new)>(s: seq<T>, p: T -> bool)
    ensures forall x :: multiset(Select(s, p))[x] == if p(x) then multiset(s)[x] else 0
  {
    if s != [] {
      SelectCount(s[..|s| - 1], p);
      assert s == s[..|s| - 1] + [s[|s| - 1]];
    }
  }

  /** The rows a mask keeps are exactly the input rows that satisfy it. */
  lemma SelectMembers<T(!new)>(s: seq<T>, p: T -> bool)
    ensures forall x :: x in Select(s, p) <==> x in s && p(x)
  {
    SelectCount(s, p);
    forall x ensures x in Select(s, p) <==> x in s && p(x) {
      assert x in Select(s, p) <==> x in multiset(Select(s, p));
      assert x in s <==> x in multiset(s);
    }
  }

  /** `a` is obtained from `b` by deleting elements: order kept, nothing added or changed. */
  predicate IsSubsequence<T(==,!new)>(a: seq<T>, b: seq<T>)
    decreases |b|
  {
    a == [] ||
    (b != [] &&
     ((a[|a| - 1] == b[|b| - 1] && IsSubsequence(a[..|a| - 1], b[..|b| - 1])) ||
      IsSubsequence(a, b[..|b| - 1])))
  }

  lemma SelectSnoc<T(!new)>(s: seq<T>, x: T, p: T -> bool)
    ensures Select(s + [x], p) == Select(s, p) + (if p(x) then [x] else [])
  {
    assert (s + [x])[..|s|] == s;
  }

  /** A mask never adds, reorders or alters rows. */
  lemma {:induction false} SelectConcat<T(!new)>(a: seq<T>, b: seq<T>, p: T -> bool)
    ensures Select(a + b, p) == Select(a, p) + Select(b, p)
  {
    if b == [] {
      assert a + b == a;
    } else {
      var init, last := b[..|b| - 1], b[|b| - 1];
      assert a + b == (a + init) + [last];
      assert b == init + [last];
      SelectConcat(a, init, p);
      SelectSnoc(a + init, last, p);
      SelectSnoc(init, last, p);
    }
  }

  lemma {:induction false} SelectIsSubsequence<T(!new)>(s: seq<T>, p: T -> bool)
    ensures IsSubsequence(Select(s, p), s)
  {
    if s != [] {
      var init := s[..|s| - 1];
      SelectIsSubsequence(init, p);
      SelectSnoc(init, s[|s| - 1], p);
      assert s == init + [s[|s| - 1]];
      var r := Select(init, p);
      if p(s[|s| - 1]) {
        assert (r + [s[|s| - 1]])[..|r|] == r;
      } else {
        SubsequenceOfLonger(r, init, s[|s| - 1]);
      }
    }
  }

  lemma SubsequenceOfLonger<T(!new)>(a: seq<T>, b: seq<T>, x: T)
    requires IsSubsequence(a, b)
    ensures IsSubsequence(a, b + [x])
  {
    assert (b + [x])[..|b|] == b;
  }

  /** A weaker mask keeps a superset of rows, and keeps them in the same order. */
  lemma {:induction false} SelectMonotone<T(!new)>(s: seq<T>, p: T -> bool, q: T -> bool)
    requires forall x :: p(x) ==> q(x)
    ensures IsSubsequence(Select(s, p), Select(s, q))
  {
    if s != [] {
      var init, x := s[..|s| - 1], s[|s| - 1];
      assert s == init + [x];
      SelectMonotone(init, p, q);
      SelectSnoc(init, x, p);
      SelectSnoc(init, x, q);
      var a, b := Select(init, p), Select(init, q);
      if p(x) {
        assert (a + [x])[..|a|] == a && (b + [x])[..|b|] == b;
      } else if q(x) {
        SubsequenceOfLonger(a, b, x);
      }
    }
  }

  /** Two masks applied one after the other select what their conjunction `m` selects. */
  lemma {:induction false} SelectChain<T(!new)>(s: seq<T>, p: T -> bool, q: T -> bool, m: T -> bool)
    requires forall x :: m(x) == (p(x) && q(x))
    ensures Select(Select(s, p), q) == Select(s, m)
  {
    if s != [] {
      var init, x := s[..|s| - 1], s[|s| - 1];
      assert s == init + [x];
      SelectChain(init, p, q, m);
      SelectSnoc(init, x, p);
      SelectSnoc(init, x, m);
      if p(x) {
        SelectSnoc(Select(init, p), x, q);
      }
    }
  }

  /** Masks that agree on every row select the same rows. */
  lemma {:induction false} SelectExt<T(!new)>(s: seq<T>, p: T -> bool, q: T -> bool)
    requires forall x :: p(x) == q(x)
    ensures Select(s, p) == Select(s, q)
  {
    if s != [] {
      SelectExt(s[..|s| - 1], p, q);
    }
  }

  /** A mask no element passes keeps nothing. */
  lemma {:induction false} SelectNone<T(!new)>(s: seq<T>, p: T -> bool)
    requires forall x :: x in s ==> !p(x)
    ensures Select(s, p) == []
  {
    if s != [] {
      assert forall x :: x in s[..|s| - 1] ==> x in s;
      SelectNone(s[..|s| - 1], p);
    }
  }

  /** A mask every element passes keeps the whole sequence. */
  lemma {:induction false} SelectAll<T(!new)>(s: seq<T>, p: T -> bool)
    requires forall x :: x in s ==> p(x)
    ensures Select(s, p) == s
  {
    if s != [] {
      assert forall x :: x in s[..|s| - 1] ==> x in s;
      SelectAll(s[..|s| - 1], p);
      assert s == s[..|s| - 1] + [s[|s| - 1]];
    }
  }

  predicate NoDuplicates<T(==,!new)>(s: seq<T>) {
    forall i, j :: 0 <= i < j < |s| ==> s[i] != s[j]
  }

  /** How many times `x` occurs in `s`. */
  function Count<T(==)>(s: seq<T>, x: T): nat {
    if s == [] then 0 else Count(s[..|s| - 1], x) + (if s[|s| - 1] == x then 1 else 0)
  }

  lemma CountSnoc<T>(s: seq<T>, v: T, x: T)
    ensures Count(s + [v], x) == Count(s, x) + (if v == x then 1 else 0)
  {
    assert (s + [v])[..|s|] == s;
  }

  /** Dropping the last element keeps the rest distinct, and the last element is not among them. */
  lemma NoDuplicatesInit<T(!new)>(s: seq<T>)
    requires s != [] && NoDuplicates(s)
    ensures NoDuplicates(s[..|s| - 1]) && s[|s| - 1] !in s[..|s| - 1]
  {
  }

  /** The distinct elements of `s`, each at its first occurrence (`drop_duplicates`). */
  function Distinct<T(==,!new)>(s: seq<T>): (r: seq<T>)
    ensures forall x :: x in r <==> x in s
    ensures NoDuplicates(r)
  {
    if s == [] then []
    else
      var d := Distinct(s[..|s| - 1]);
      assert forall x :: x in s <==> x in s[..|s| - 1] || x == s[|s| - 1] by {
        assert s == s[..|s| - 1] + [s[|s| - 1]];
      }
      if s[|s| - 1] in d then d else d + [s[|s| - 1]]
  }

  /** Every occurrence of `b` in `s` comes after some occurrence of `a`. */
  ghost predicate SeenBefore<T>(s: seq<T>, a: T, b: T) {
    forall k :: 0 <= k < |s| && s[k] == b ==> a in s[..k]
  }

  /** `Distinct` lists the elements in the order of their first occurrences. */
  lemma {:induction false} DistinctFirstSeen<T(!new)>(s: seq<T>)
    ensures forall i, j :: 0 <= i < j < |Distinct(s)| ==> SeenBefore(s, Distinct(s)[i], Distinct(s)[j])
  {
    if s != [] {
      var init, last := s[..|s| - 1], s[|s| - 1];
      DistinctFirstSeen(init);
      var d, r := Distinct(init), Distinct(s);
      assert r == if last in d then d else d + [last];
      forall i, j | 0 <= i < j < |r|
        ensures SeenBefore(s, r[i], r[j])
      {
        assert r[i] == d[i];
        forall k | 0 <= k < |s| && s[k] == r[j]
          ensures r[i] in s[..k]
        {
          if k < |init| {
            assert s[k] == init[k] && s[..k] == init[..k];
            if j < |d| {
              assert r[j] == d[j] && SeenBefore(init, d[i], d[j]);
            } else {
              assert false;
            }
          } else {
            assert s[..k] == init;
          }
        }
      }
    }
  }

  /** The sum of `f` over `s` (a column's `sum()`). */
  function Sum<T>(s: seq<T>, f: T -> int): int {
    if s == [] then 0 else Sum(s[..|s| - 1], f) + f(s[|s| - 1])
  }

  lemma {:induction false} SumConcat<T>(a: seq<T>, b: seq<T>, f: T -> int)
    ensures Sum(a + b, f) == Sum(a, f) + Sum(b, f)
  {
    if b == [] {
      assert a + b == a;
    } else {
      var init := b[..|b| - 1];
      assert (a + b)[..|a + b| - 1] == a + init;
      assert (a + b)[|a + b| - 1] == b[|b| - 1];
      SumConcat(a, init, f);
    }
  }

  /** Sums of two equally long sequences that agree term by term are equal. */
  lemma {:induction false} SumPointwise<A, B>(a: seq<A>, f: A -> int, b: seq<B>, g: B -> int)
    requires |a| == |b|
    requires forall i :: 0 <= i < |a| ==> f(a[i]) == g(b[i])
    ensures Sum(a, f) == Sum(b, g)
  {
    if a != [] {
      SumPointwise(a[..|a| - 1], f, b[..|b| - 1], g);
    }
  }

  /** The values that `right` pairs with key `k`, in the order of `right`. */
  function Matches<K(==), V>(right: seq<(K, V)>, k: K): seq<V> {
    if right == [] then []
    else Matches(right[..|right| - 1], k) + (if right[|right| - 1].0 == k then [right[|right| - 1].1] else [])
  }

  /** One more right row adds its value to the matches of its key. */
  lemma MatchesSnoc<K, V>(right: seq<(K, V)>, e: (K, V), k: K)
    ensures Matches(right + [e], k) == Matches(right, k) + (if e.0 == k then [e.1] else [])
  {
    assert (right + [e])[..|right|] == right;
  }

  /** A value is among the matches of `k` exactly when `right` pairs it with `k`. */
  lemma {:induction false} MatchesMembers<K, V>(right: seq<(K, V)>, k: K, v: V)
    ensures v in Matches(right, k) <==> (k, v) in right
  {
    if right != [] {
      var init, e := right[..|right| - 1], right[|right| - 1];
      assert right == init + [e];
      MatchesMembers(init, k, v);
      MatchesSnoc(init, e, k);
    }
  }

  /** One left row merged with its matches: once per match, or once with no value. */
  function MergeRow<T, V>(x: T, ms: seq<V>): (r: seq<(T, Option<V>)>)
    ensures |r| == if ms == [] then 1 else |ms|
    ensures forall i :: 0 <= i < |r| ==> r[i].0 == x
    ensures forall i :: 0 <= i < |r| ==> r[i].1 == if ms == [] then None else Some(ms[i])
  {
    if ms == [] then [(x, None)] else seq(|ms|, i requires 0 <= i < |ms| => (x, Some(ms[i])))
  }

  /**
   * `pd.merge(left, right, on=key, how='left')`: every left row, in order, repeated once per
   * matching right row (in right's order), or kept once with no value when nothing matches.
   */
  function LeftMerge<T, K(==), V>(left: seq<T>, right: seq<(K, V)>, key: T -> K): (r: seq<(T, Option<V>)>)
    ensures |r| >= |left|
  {
    if left == [] then []
    else
      var x := left[|left| - 1];
      LeftMerge(left[..|left| - 1], right, key) + MergeRow(x, Matches(right, key(x)))
  }

  /** The copies of one row that carry a value are the row paired with each of its matches. */
  lemma MergeRowMatch<T, V>(x: T, ms: seq<V>, y: T, v: V)
    ensures (y, Some(v)) in MergeRow(x, ms) <==> y == x && v in ms
  {
    var r := MergeRow(x, ms);
    if y == x && v in ms {
      var i :| 0 <= i < |ms| && ms[i] == v;
      assert r[i] == (y, Some(v));
    }
  }

  /** A left merge pairs a left row with a value exactly when that value matches the row's key. */
  lemma {:induction false} LeftMergeMatch<T, K, V>(left: seq<T>, right: seq<(K, V)>, key: T -> K, y: T, v: V)
    ensures (y, Some(v)) in LeftMerge(left, right, key) <==> y in left && v in Matches(right, key(y))
  {
    if left != [] {
      var init, x := left[..|left| - 1], left[|left| - 1];
      LeftMergeMatch(init, right, key, y, v);
      MergeRowMatch(x, Matches(right, key(x)), y, v);
      assert LeftMerge(left, right, key) == LeftMerge(init, right, key) + MergeRow(x, Matches(right, key(x)));
      assert y in left <==> y in init || y == x by {
        assert left == init + [x];
      }
    }
  }

  /** Every merged row is a left row with a match or with none: a left merge invents no left row. */
  lemma {:induction false} LeftMergeFromLeft<T, K, V>(left: seq<T>, right: seq<(K, V)>, key: T -> K)
    ensures forall i :: 0 <= i < |LeftMerge(left, right, key)| ==> LeftMerge(left, right, key)[i].0 in left
  {
    if left != [] {
      var init, x := left[..|left| - 1], left[|left| - 1];
      LeftMergeFromLeft(init, right, key);
      var before := LeftMerge(init, right, key);
      var m := LeftMerge(left, right, key);
      assert m == before + MergeRow(x, Matches(right, key(x)));
      forall i | 0 <= i < |m|
        ensures m[i].0 in left
      {
        if i < |before| {
          assert m[i] == before[i] && before[i].0 in init;
        }
      }
    }
  }

  /** How many rows a left row becomes in the merge. */
  function MergedCount<V>(ms: seq<V>): nat {
    if ms == [] then 1 else |ms|
  }

  /** The merge's length is one per unmatched row plus one per match of each matched row. */
  lemma {:induction false} LeftMergeLength<T, K, V>(left: seq<T>, right: seq<(K, V)>, key: T -> K)
    ensures |LeftMerge(left, right, key)| == Sum(left, x => MergedCount(Matches(right, key(x))))
  {
    if left != [] {
      LeftMergeLength(left[..|left| - 1], right, key);
    }
  }

  /** The single match of a key that has at most one: missing when it has none. */
  function OnlyMatch<V>(ms: seq<V>): Option<V> {
    if ms == [] then None else Some(ms[0])
  }

  /**
   * When every left key has at most one match the merge keeps the row count and the order,
   * and row i receives its single match, if any.
   */
  lemma {:induction false} LeftMergeUnique<T, K, V>(left: seq<T>, right: seq<(K, V)>, key: T -> K)
    requires forall x :: x in left ==> |Matches(right, key(x))| <= 1
    ensures |LeftMerge(left, right, key)| == |left|
    ensures forall i :: 0 <= i < |left| ==> LeftMerge(left, right, key)[i] == (left[i], OnlyMatch(Matches(right, key(left[i]))))
  {
    if left != [] {
      var init, x := left[..|left| - 1], left[|left| - 1];
      assert left == init + [x];
      LeftMergeUnique(init, right, key);
      var ms := Matches(right, key(x));
      var row := MergeRow(x, ms);
      var before := LeftMerge(init, right, key);
      var m := LeftMerge(left, right, key);
      assert m == before + row;
      assert |row| == 1 && row[0] == (x, OnlyMatch(ms));
      forall i | 0 <= i < |left|
        ensures m[i] == (left[i], OnlyMatch(Matches(right, key(left[i]))))
      {
        if i < |init| {
          assert m[i] == before[i] && left[i] == init[i];
        } else {
          assert m[i] == row[0] && left[i] == x;
        }
      }
    }
  }

  /** A given left row appears in the merge at least once. */
  lemma {:induction false} LeftMergeKeepsRow<T, K, V>(left: seq<T>, right: seq<(K, V)>, key: T -> K, x: T)
    requires x in left
    ensures exists p :: p in LeftMerge(left, right, key) && p.0 == x
  {
    var init, last := left[..|left| - 1], left[|left| - 1];
    var before := LeftMerge(init, right, key);
    var row := MergeRow(last, Matches(right, key(last)));
    var m := LeftMerge(left, right, key);
    assert m == before + row;
    if x == last {
      assert row[0] in m && row[0].0 == x;
    } else {
      assert left == init + [last];
      assert x in init;
      LeftMergeKeepsRow(init, right, key, x);
      var p :| p in before && p.0 == x;
      assert p in m;
    }
  }

  /** No left row is lost: each appears in the merge at least once. */
  lemma LeftMergeKeepsRows<T(!new), K, V>(left: seq<T>, right: seq<(K, V)>, key: T -> K)
    ensures forall x :: x in left ==> exists p :: p in LeftMerge(left, right, key) && p.0 == x
  {
    forall x | x in left
      ensures exists p :: p in LeftMerge(left, right, key) && p.0 == x
    {
      LeftMergeKeepsRow(left, right, key, x);
    }
  }
}
