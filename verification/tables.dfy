/**
 * The query shapes the services use against a table held as a sequence of rows:
 * `findFirst`/`findUnique` (the first matching row), `findMany` (the matching rows,
 * in table order), and the sums and counts done over a result set.
 */
module Tables {
  import opened Wrappers

  /** Index of the first row satisfying `p`, or None when no row does. */
  function FirstIndex<T>(rows: seq<T>, p: T -> bool): (r: Option<nat>)
    ensures r.Some? ==> r.value < |rows| && p(rows[r.value])
    ensures r.Some? ==> forall j :: 0 <= j < r.value ==> !p(rows[j])
    ensures r.None? <==> forall j :: 0 <= j < |rows| ==> !p(rows[j])
  {
    if |rows| == 0 then None
    else if p(rows[0]) then Some(0)
    else
      var rest := FirstIndex(rows[1..], p);
      if rest.None? then None else Some(rest.value + 1)
  }

  /** The rows satisfying `p`, in table order. */
  function Filter<T(!new)>(rows: seq<T>, p: T -> bool): (r: seq<T>)
    ensures |r| <= |rows|
    ensures forall x :: x in r <==> x in rows && p(x)
  {
    if |rows| == 0 then []
    else if p(rows[0]) then [rows[0]] + Filter(rows[1..], p)
    else Filter(rows[1..], p)
  }

  /** One column of a result set (`rows.map(key)`), in row order. */
  function Column<T, K>(rows: seq<T>, key: T -> K): (r: seq<K>)
    ensures |r| == |rows|
    ensures forall i :: 0 <= i < |rows| ==> r[i] == key(rows[i])
    ensures forall x :: x in rows ==> key(x) in r
    ensures forall k :: k in r ==> exists x :: x in rows && key(x) == k
  {
    var r := seq(|rows|, i requires 0 <= i < |rows| => key(rows[i]));
    assert forall k :: k in r ==> exists x :: x in rows && key(x) == k by {
      forall k | k in r
        ensures exists x :: x in rows && key(x) == k
      {
        var i :| 0 <= i < |r| && r[i] == k;
        assert rows[i] in rows;
      }
    }
    r
  }

  /** Some value occurs twice. */
  predicate HasDuplicates<T(==)>(xs: seq<T>) {
    exists i, j :: 0 <= i < j < |xs| && xs[i] == xs[j]
  }

  /** No two rows share a key: a primary key or a unique index. */
  ghost predicate UniqueBy<T, K>(rows: seq<T>, key: T -> K) {
    forall i, j :: 0 <= i < j < |rows| ==> key(rows[i]) != key(rows[j])
  }

  /** Under a unique key, a key names at most one row. */
  lemma UniqueByMembers<T, K>(rows: seq<T>, key: T -> K)
    requires UniqueBy(rows, key)
    ensures forall x, y :: x in rows && y in rows && key(x) == key(y) ==> x == y
  {
    forall x, y | x in rows && y in rows && key(x) == key(y)
      ensures x == y
    {
      var i :| 0 <= i < |rows| && rows[i] == x;
      var j :| 0 <= j < |rows| && rows[j] == y;
      assert !(i < j) && !(j < i);
    }
  }

  /** Filtering keeps a key unique. */
  lemma {:induction false} FilterKeepsUnique<T(!new), K>(rows: seq<T>, p: T -> bool, key: T -> K)
    ensures UniqueBy(rows, key) ==> UniqueBy(Filter(rows, p), key)
  {
    if |rows| > 0 && UniqueBy(rows, key) {
      var tail := rows[1..];
      assert UniqueBy(tail, key) by {
        forall i, j | 0 <= i < j < |tail| ensures key(tail[i]) != key(tail[j]) {
          assert tail[i] == rows[i + 1] && tail[j] == rows[j + 1];
        }
      }
      FilterKeepsUnique(tail, p, key);
      var rest := Filter(tail, p);
      if p(rows[0]) {
        var r := [rows[0]] + rest;
        forall i, j | 0 <= i < j < |r|
          ensures key(r[i]) != key(r[j])
        {
          assert r[j] == rest[j - 1] && r[j] in tail;
          var k :| 0 <= k < |tail| && tail[k] == r[j];
          assert rows[k + 1] == r[j];
          if 0 < i {
            assert r[i] == rest[i - 1];
          }
        }
      }
    }
  }

  /** Sum of a column of numbers (`reduce((sum, x) => sum + x, 0)`). */
  function Sum(xs: seq<int>): int
  {
    if |xs| == 0 then 0 else xs[0] + Sum(xs[1..])
  }

  /** How many values reach `bound`. */
  function CountAtLeast(xs: seq<int>, bound: int): (r: nat)
    ensures r <= |xs|
  {
    if |xs| == 0 then 0
    else (if xs[0] >= bound then 1 else 0) + CountAtLeast(xs[1..], bound)
  }

  /** A sum of values each within [lo, hi] is within [n·lo, n·hi]. */
  lemma {:induction false} SumBounds(xs: seq<int>, lo: int, hi: int)
    requires forall i :: 0 <= i < |xs| ==> lo <= xs[i] <= hi
    ensures |xs| * lo <= Sum(xs) <= |xs| * hi
  {
    if |xs| > 0 {
      SumBounds(xs[1..], lo, hi);
    }
  }

  /** Every value reaches the bound exactly when the count of those that do is the length. */
  lemma {:induction false} CountAllIff(xs: seq<int>, bound: int)
    ensures CountAtLeast(xs, bound) == |xs| <==> forall i :: 0 <= i < |xs| ==> xs[i] >= bound
  {
    if |xs| > 0 {
      CountAllIff(xs[1..], bound);
      assert forall i :: 1 <= i < |xs| ==> xs[i] == xs[1..][i - 1];
    }
  }

  /** Two tables that agree row by row on a predicate have the same first match. */
  lemma {:induction false} FirstIndexSame<T, U>(rows1: seq<T>, p1: T -> bool, rows2: seq<U>, p2: U -> bool)
    requires |rows1| == |rows2|
    requires forall i :: 0 <= i < |rows1| ==> p1(rows1[i]) == p2(rows2[i])
    ensures FirstIndex(rows1, p1) == FirstIndex(rows2, p2)
  {
    if |rows1| > 0 && !p1(rows1[0]) {
      FirstIndexSame(rows1[1..], p1, rows2[1..], p2);
    }
  }

  /** Filtering distributes over concatenation. */
  lemma {:induction false} FilterConcat<T(!new)>(a: seq<T>, b: seq<T>, p: T -> bool)
    ensures Filter(a + b, p) == Filter(a, p) + Filter(b, p)
  {
    if |a| > 0 {
      assert (a + b)[1..] == a[1..] + b;
      FilterConcat(a[1..], b, p);
    } else {
      assert a + b == b;
    }
  }

  /** A filter every row passes keeps the table. */
  lemma {:induction false} FilterAll<T(!new)>(a: seq<T>, p: T -> bool)
    requires forall i :: 0 <= i < |a| ==> p(a[i])
    ensures Filter(a, p) == a
  {
    if |a| > 0 {
      FilterAll(a[1..], p);
    }
  }

  /** A filter no row passes yields nothing. */
  lemma {:induction false} FilterNone<T(!new)>(a: seq<T>, p: T -> bool)
    requires forall i :: 0 <= i < |a| ==> !p(a[i])
    ensures Filter(a, p) == []
  {
    if |a| > 0 {
      FilterNone(a[1..], p);
    }
  }
}
