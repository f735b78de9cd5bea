/** The aggregations of src/data/make_dataset.py: the `sampling` map of lines 104-116 gives
    every numeric sensor column the mean of the bin's values and every metadata column the
    last value of the bin, and `resample(...).ffill()` at line 120 takes, at a bin start, the
    row at or before it. pandas skips missing values in both `mean` and `last`, and sorts a
    table by time (stably) before it bins it, so "last" is the value of the row with the
    greatest timestamp, the later row winning a tie. */
module Aggregate {
  import opened Results
  import opened TimeGrid
  import opened Frame

  /** The rows of `rows` in the 200 ms bin that starts at `b`, in order. */
  function InBucket(rows: seq<Row>, b: int): (bs: seq<Row>)
    ensures |bs| <= |rows|
  {
    if rows == [] then []
    else (if Bucket(rows[0].time) == b then [rows[0]] else []) + InBucket(rows[1..], b)
  }

  lemma {:induction false} InBucketMembers(rows: seq<Row>, b: int)
    ensures forall r :: r in InBucket(rows, b) <==> r in rows && Bucket(r.time) == b
  {
    if rows != [] {
      InBucketMembers(rows[1..], b);
      assert forall r :: r in rows <==> r == rows[0] || r in rows[1..];
    }
  }

  /** A bin of two stretches of a table holds the first stretch's readings of the bin
      followed by the second's: together with the definition on a single row, a bin keeps
      its readings in table order, each as often as the table holds it. */
  lemma {:induction false} InBucketAppend(a: seq<Row>, c: seq<Row>, b: int)
    ensures InBucket(a + c, b) == InBucket(a, b) + InBucket(c, b)
  {
    if a == [] {
      assert a + c == c;
    } else {
      assert (a + c)[0] == a[0];
      assert (a + c)[1..] == a[1..] + c;
      InBucketAppend(a[1..], c, b);
      var x, rest := if Bucket(a[0].time) == b then [a[0]] else [], InBucket(a[1..], b);
      assert InBucket(a + c, b) == x + (rest + InBucket(c, b));
      assert x + (rest + InBucket(c, b)) == (x + rest) + InBucket(c, b);
    }
  }

  /** A bin holds each row as often as the table does when the row falls in it, and never
      otherwise. */
  lemma {:induction false} InBucketCount(rows: seq<Row>, b: int)
    ensures forall r :: multiset(InBucket(rows, b))[r] == if Bucket(r.time) == b then multiset(rows)[r] else 0
  {
    if rows != [] {
      InBucketCount(rows[1..], b);
      assert rows == [rows[0]] + rows[1..];
      assert multiset(rows) == multiset{rows[0]} + multiset(rows[1..]);
    }
  }

  /** A bin that holds no reading of the table has no readings. */
  lemma {:induction false} InBucketNone(rows: seq<Row>, b: int)
    requires forall r :: r in rows ==> Bucket(r.time) != b
    ensures InBucket(rows, b) == []
  {
    if rows != [] {
      assert rows[0] in rows;
      assert forall r :: r in rows[1..] ==> r in rows;
      InBucketNone(rows[1..], b);
    }
  }

  /** The position of the row the stable time order puts last among those satisfying `p`,
      or -1 when none does. */
  function Latest(rows: seq<Row>, p: Row -> bool): (k: int)
    ensures -1 <= k < |rows|
    ensures k >= 0 ==> p(rows[k])
  {
    if rows == [] then -1
    else
      var n := |rows| - 1;
      var k := Latest(rows[..n], p);
      if p(rows[n]) && (k == -1 || rows[k].time <= rows[n].time) then n else k
  }

  /** The row `Latest` picks satisfies `p`, no row satisfying `p` is later in time, and
      every row satisfying `p` after it in position is earlier in time: it is the last one
      of a stable sort by time. */
  lemma {:induction false} LatestSpec(rows: seq<Row>, p: Row -> bool)
    ensures var k := Latest(rows, p);
      && (k == -1 <==> forall j :: 0 <= j < |rows| ==> !p(rows[j]))
      && (k >= 0 ==> p(rows[k]))
      && (k >= 0 ==> forall j :: 0 <= j < |rows| && p(rows[j]) ==> rows[j].time <= rows[k].time)
      && (k >= 0 ==> forall j :: k < j < |rows| && p(rows[j]) ==> rows[j].time < rows[k].time)
  {
    if rows != [] {
      var n := |rows| - 1;
      LatestSpec(rows[..n], p);
      assert forall j :: 0 <= j < n ==> rows[..n][j] == rows[j];
    }
  }

  /** `last`: the value of the last row, in time order, that has one. */
  function Last<T>(rows: seq<Row>, f: Row -> Option<T>): (v: Option<T>)
    ensures v.Some? <==> HasValue(rows, f)
    ensures v.Some? ==> exists k :: 0 <= k < |rows| && f(rows[k]) == v
  {
    LatestSpec(rows, (r: Row) => f(r).Some?);
    var k := Latest(rows, (r: Row) => f(r).Some?);
    if k < 0 then None else f(rows[k])
  }

  /** Sum and number of the values present. */
  function Sum(rows: seq<Row>, f: Row -> Option<real>): real
  {
    if rows == [] then 0.0
    else (if f(rows[0]).Some? then f(rows[0]).value else 0.0) + Sum(rows[1..], f)
  }

  function Count(rows: seq<Row>, f: Row -> Option<real>): (n: real)
    ensures n >= 0.0
  {
    if rows == [] then 0.0
    else (if f(rows[0]).Some? then 1.0 else 0.0) + Count(rows[1..], f)
  }

  /** No value is counted exactly when no row has one. */
  lemma {:induction false} CountZero(rows: seq<Row>, f: Row -> Option<real>)
    ensures Count(rows, f) == 0.0 <==> !HasValue(rows, f)
  {
    if rows != [] {
      CountZero(rows[1..], f);
      if HasValue(rows[1..], f) {
        var i :| 0 <= i < |rows[1..]| && f(rows[1..][i]).Some?;
        assert f(rows[i + 1]).Some?;
      }
      if HasValue(rows, f) && !f(rows[0]).Some? {
        var i :| 0 <= i < |rows| && f(rows[i]).Some?;
        assert f(rows[1..][i - 1]).Some?;
      }
    }
  }

  /** `mean`: the average of the values present, missing when there are none. */
  function Mean(rows: seq<Row>, f: Row -> Option<real>): (m: Option<real>)
    ensures m.Some? <==> HasValue(rows, f)
  {
    CountZero(rows, f);
    var n := Count(rows, f);
    if n == 0.0 then None else Some(Sum(rows, f) / n)
  }

  /** The `sampling` map applied to the bin that starts at `b`. */
  function Sampling(rows: seq<Row>, b: int): (r: Row)
    ensures r.time == b
    ensures InBucket(rows, b) == [] ==>
      && r.accX.None? && r.accY.None? && r.accZ.None? && r.gyrX.None? && r.gyrY.None? && r.gyrZ.None?
      && r.participant.None? && r.exercise.None? && r.category.None? && r.setNumber.None?
  {
    var bs := InBucket(rows, b);
    Row(b,
        Mean(bs, (r: Row) => r.accX), Mean(bs, (r: Row) => r.accY), Mean(bs, (r: Row) => r.accZ),
        Mean(bs, (r: Row) => r.gyrX), Mean(bs, (r: Row) => r.gyrY), Mean(bs, (r: Row) => r.gyrZ),
        Last(bs, (r: Row) => r.participant), Last(bs, (r: Row) => r.exercise), Last(bs, (r: Row) => r.category),
        Last(bs, (r: Row) => r.setNumber))
  }

  /** `ffill` at bin start `b`: the row at or before `b` that comes last in time order. */
  function AtOrBefore(rows: seq<Row>, b: int): (r: Option<Row>)
    ensures r.Some? <==> exists j :: 0 <= j < |rows| && rows[j].time <= b
    ensures r.Some? ==> r.value in rows && r.value.time <= b
    ensures r.Some? ==> forall j :: 0 <= j < |rows| && rows[j].time <= b ==> rows[j].time <= r.value.time
  {
    var k := Latest(rows, (r: Row) => r.time <= b);
    LatestSpec(rows, (r: Row) => r.time <= b);
    if k < 0 then None else Some(rows[k])
  }

  // ---------------------------------------------------------------------------------------
  // What the aggregates are.

  /** Some row of `rows` has a value in the column `f` reads. */
  predicate HasValue<T>(rows: seq<Row>, f: Row -> Option<T>)
  {
    exists i :: 0 <= i < |rows| && f(rows[i]).Some?
  }

  /** `last` is missing exactly when no row has a value, and otherwise is the value of a row
      no other row with a value comes after in time. */
  lemma LastSpec<T>(rows: seq<Row>, f: Row -> Option<T>)
    ensures Last(rows, f).Some? <==> HasValue(rows, f)
    ensures Last(rows, f).Some? ==>
      (exists k :: 0 <= k < |rows| && f(rows[k]) == Last(rows, f) &&
         forall j :: 0 <= j < |rows| && f(rows[j]).Some? ==> rows[j].time <= rows[k].time)
  {
    var k := Latest(rows, (r: Row) => f(r).Some?);
    LatestSpec(rows, (r: Row) => f(r).Some?);
    if k >= 0 {
      assert f(rows[k]) == Last(rows, f);
    }
  }

  /** The mean lies between the least and the greatest value it averages. */
  lemma {:induction false} SumAtLeast(rows: seq<Row>, f: Row -> Option<real>, lo: real)
    requires forall i :: 0 <= i < |rows| && f(rows[i]).Some? ==> lo <= f(rows[i]).value
    ensures lo * Count(rows, f) <= Sum(rows, f)
  {
    if rows != [] {
      var tail := rows[1..];
      assert forall i :: 0 <= i < |tail| ==> tail[i] == rows[i + 1];
      SumAtLeast(tail, f, lo);
      var v, d := if f(rows[0]).Some? then f(rows[0]).value else 0.0, if f(rows[0]).Some? then 1.0 else 0.0;
      assert lo * d <= v;
      assert lo * (d + Count(tail, f)) == lo * d + lo * Count(tail, f);
    }
  }

  lemma {:induction false} SumAtMost(rows: seq<Row>, f: Row -> Option<real>, hi: real)
    requires forall i :: 0 <= i < |rows| && f(rows[i]).Some? ==> f(rows[i]).value <= hi
    ensures Sum(rows, f) <= hi * Count(rows, f)
  {
    if rows != [] {
      var tail := rows[1..];
      assert forall i :: 0 <= i < |tail| ==> tail[i] == rows[i + 1];
      SumAtMost(tail, f, hi);
      var v, d := if f(rows[0]).Some? then f(rows[0]).value else 0.0, if f(rows[0]).Some? then 1.0 else 0.0;
      assert v <= hi * d;
      assert hi * (d + Count(tail, f)) == hi * d + hi * Count(tail, f);
    }
  }

  lemma MeanBounds(rows: seq<Row>, f: Row -> Option<real>, lo: real, hi: real)
    requires forall i :: 0 <= i < |rows| && f(rows[i]).Some? ==> lo <= f(rows[i]).value <= hi
    ensures Mean(rows, f).Some? ==> lo <= Mean(rows, f).value <= hi
  {
    SumAtLeast(rows, f, lo);
    SumAtMost(rows, f, hi);
    var n := Count(rows, f);
    if n > 0.0 {
      QuotientBounds(lo, hi, Sum(rows, f), n);
    }
  }

  lemma QuotientBounds(lo: real, hi: real, s: real, n: real)
    requires n > 0.0 && lo * n <= s <= hi * n
    ensures lo <= s / n <= hi
  {
    assert s / n * n == s;
  }

  /** The aggregated row of a bin is complete exactly when every column has a value in some
      row of the bin; in particular the row of an empty bin is never complete. */
  lemma SamplingComplete(rows: seq<Row>, b: int)
    ensures var bs := InBucket(rows, b);
      Complete(Sampling(rows, b)) <==>
        && HasValue(bs, (r: Row) => r.accX) && HasValue(bs, (r: Row) => r.accY) && HasValue(bs, (r: Row) => r.accZ)
        && HasValue(bs, (r: Row) => r.gyrX) && HasValue(bs, (r: Row) => r.gyrY) && HasValue(bs, (r: Row) => r.gyrZ)
        && HasValue(bs, (r: Row) => r.participant) && HasValue(bs, (r: Row) => r.exercise)
        && HasValue(bs, (r: Row) => r.category) && HasValue(bs, (r: Row) => r.setNumber)
  {
  }

  lemma SamplingEmpty(rows: seq<Row>, b: int)
    requires forall r :: r in rows ==> Bucket(r.time) != b
    ensures !Complete(Sampling(rows, b))
  {
    InBucketMembers(rows, b);
  }

  /** `mean` of 1, 3 and 2 is 2. */
  lemma MeanExample()
    ensures Mean([Reading(0, 1.0), Reading(40, 3.0), Reading(80, 2.0)], (r: Row) => r.accX) == Some(2.0)
  {
    var rows := [Reading(0, 1.0), Reading(40, 3.0), Reading(80, 2.0)];
    assert rows[1..][1..][1..] == [];
  }

  /** `last` of three readings is the latest one, wherever it stands. */
  lemma LastExample()
    ensures Last([Reading(80, 1.0), Reading(0, 3.0), Reading(40, 2.0)], (r: Row) => r.accX) == Some(1.0)
  {
    var rows := [Reading(80, 1.0), Reading(0, 3.0), Reading(40, 2.0)];
    var f := (r: Row) => r.accX;
    LastSpec(rows, f);
    assert HasValue(rows, f) by {
      assert f(rows[0]).Some?;
    }
    var k :| 0 <= k < |rows| && f(rows[k]) == Last(rows, f) &&
      forall j :: 0 <= j < |rows| && f(rows[j]).Some? ==> rows[j].time <= rows[k].time;
    assert rows[0].time <= rows[k].time;
    assert k == 0;
  }

  /** A row with only an accelerometer x value. */
  function Reading(t: int, x: real): Row
  {
    Row(t, Some(x), None, None, None, None, None, None, None, None, None)
  }
}
