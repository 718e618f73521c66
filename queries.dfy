/** The table-scan machinery behind the repository queries: a table is a sequence
    whose row ids are the positions in it, a query selects the ids of the rows that
    satisfy a filter (in id order), ORDER BY sorts those ids by a key, and a stream's
    filter().findFirst() picks the first id that passes a further filter. */
module Queries {
  import opened Wrappers

  /** Ids in strictly ascending order, as a table scan yields them. */
  predicate Increasing(r: seq<nat>) {
    forall a, b :: 0 <= a < b < |r| ==> r[a] < r[b]
  }

  predicate Distinct(r: seq<nat>) {
    forall a, b :: 0 <= a < b < |r| ==> r[a] != r[b]
  }

  /** `r` is in ascending order of `key` (ORDER BY key ASC). */
  predicate SortedBy(r: seq<nat>, key: nat -> int) {
    forall a, b :: 0 <= a < b < |r| ==> key(r[a]) <= key(r[b])
  }

  /** The set of ids of the rows of `s` that satisfy `p`. */
  function Rows<T>(s: seq<T>, p: T -> bool): set<nat> {
    set i: nat | i < |s| && p(s[i])
  }

  /** The ids of the rows of `s` that satisfy `p`, in ascending order. */
  function Select<T>(s: seq<T>, p: T -> bool): (r: seq<nat>)
    ensures forall i: int :: i in r <==> 0 <= i < |s| && p(s[i])
    ensures Increasing(r)
    decreases |s|
  {
    if |s| == 0 then []
    else
      var n := |s| - 1;
      var rest := Select(s[..n], p);
      assert forall a :: 0 <= a < |rest| ==> rest[a] < n by {
        forall a | 0 <= a < |rest| ensures rest[a] < n {
          assert rest[a] in rest;
        }
      }
      if p(s[n]) then rest + [n] else rest
  }

  lemma IncreasingIsDistinct(r: seq<nat>)
    requires Increasing(r)
    ensures Distinct(r)
  {
  }

  /** A query returns as many ids as there are rows that satisfy its filter. */
  lemma {:induction false} SelectCount<T>(s: seq<T>, p: T -> bool)
    ensures |Select(s, p)| == |Rows(s, p)|
    decreases |s|
  {
    if |s| > 0 {
      var n := |s| - 1;
      var prefix := s[..n];
      SelectCount(prefix, p);
      RowsOfLast(s, p);
      if p(s[n]) {
        assert |Rows(prefix, p) + {n}| == |Rows(prefix, p)| + 1;
      } else {
        assert Rows(s, p) == Rows(prefix, p);
      }
    }
  }

  /** The rows a filter selects are those of all rows but the last, plus the last
      when it passes. */
  lemma RowsOfLast<T>(s: seq<T>, p: T -> bool)
    requires |s| > 0
    ensures var n := |s| - 1;
      Rows(s, p) == (if p(s[n]) then Rows(s[..n], p) + {n} else Rows(s[..n], p))
      && n !in Rows(s[..n], p)
  {
  }

  /** Replacing row `k` adds `k` to, or removes it from, the rows a filter selects,
      and leaves every other row's membership alone. */
  lemma RowsUpdate<T>(s: seq<T>, p: T -> bool, k: nat, v: T)
    requires k < |s|
    ensures Rows(s[k := v], p) == if p(v) then Rows(s, p) + {k} else Rows(s, p) - {k}
  {
  }

  /** Appending a row adds its id exactly when it satisfies the filter. */
  lemma RowsAppend<T>(s: seq<T>, p: T -> bool, v: T)
    ensures Rows(s + [v], p) == if p(v) then Rows(s, p) + {|s|} else Rows(s, p)
  {
  }

  /** Inserts `x` before the first id whose key is larger. */
  function Insert(x: nat, r: seq<nat>, key: nat -> int): (q: seq<nat>)
    requires SortedBy(r, key)
    ensures SortedBy(q, key)
    ensures |q| == |r| + 1
    ensures forall y :: y in q <==> y == x || y in r
    decreases |r|
  {
    if r == [] then [x]
    else if key(x) <= key(r[0]) then [x] + r
    else
      var tail := Insert(x, r[1..], key);
      assert r == [r[0]] + r[1..];
      assert forall b :: 0 <= b < |tail| ==> key(r[0]) <= key(tail[b]) by {
        forall b | 0 <= b < |tail| ensures key(r[0]) <= key(tail[b]) {
          assert tail[b] in tail;
        }
      }
      [r[0]] + tail
  }

  /** ORDER BY `key` ASC over a list of ids: insertion sort. */
  function SortBy(xs: seq<nat>, key: nat -> int): (r: seq<nat>)
    ensures SortedBy(r, key)
    ensures |r| == |xs|
    ensures forall y :: y in r <==> y in xs
    decreases |xs|
  {
    if xs == [] then []
    else
      assert xs == [xs[0]] + xs[1..];
      Insert(xs[0], SortBy(xs[1..], key), key)
  }

  lemma {:induction false} InsertKeepsDistinct(x: nat, r: seq<nat>, key: nat -> int)
    requires SortedBy(r, key) && Distinct(r) && x !in r
    ensures Distinct(Insert(x, r, key))
    decreases |r|
  {
    if r != [] && key(x) > key(r[0]) {
      assert r == [r[0]] + r[1..];
      InsertKeepsDistinct(x, r[1..], key);
      assert r[0] !in Insert(x, r[1..], key);
    }
  }

  /** Sorting neither loses nor duplicates an id. */
  lemma {:induction false} SortByKeepsDistinct(xs: seq<nat>, key: nat -> int)
    requires Distinct(xs)
    ensures Distinct(SortBy(xs, key))
    decreases |xs|
  {
    if xs != [] {
      assert xs == [xs[0]] + xs[1..];
      SortByKeepsDistinct(xs[1..], key);
      InsertKeepsDistinct(xs[0], SortBy(xs[1..], key), key);
    }
  }

  /** The position of the first id in `xs` that satisfies `p`, if any: a stream's
      filter(p).findFirst(). */
  function FirstIndexWhere(xs: seq<nat>, p: nat -> bool): (r: Option<nat>)
    ensures r.None? <==> forall a :: 0 <= a < |xs| ==> !p(xs[a])
    ensures r.Some? ==> r.value < |xs| && p(xs[r.value])
    ensures r.Some? ==> forall a :: 0 <= a < r.value ==> !p(xs[a])
    decreases |xs|
  {
    if |xs| == 0 then None
    else if p(xs[0]) then Some(0)
    else
      match FirstIndexWhere(xs[1..], p)
      case None => None
      case Some(a) => Some(a + 1)
  }

  /** In a list sorted by `key`, the first id that passes `p` has the least key of
      all ids in the list that pass `p`. */
  lemma {:induction false} FirstOfSortedIsLeast(xs: seq<nat>, key: nat -> int, p: nat -> bool, y: nat)
    requires SortedBy(xs, key)
    requires y in xs && p(y)
    ensures FirstIndexWhere(xs, p).Some?
    ensures key(xs[FirstIndexWhere(xs, p).value]) <= key(y)
  {
    var b :| 0 <= b < |xs| && xs[b] == y;
    var a := FirstIndexWhere(xs, p).value;
    assert a <= b;
  }
}
