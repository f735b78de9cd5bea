/** The per-day resampling of lines 127-129 of src/data/make_dataset.py:
    `days = [g for n, g in data_merged.groupby(pd.Grouper(freq="D"))]` splits the table into
    one group per calendar day from the first reading's day to the last's (a day without
    readings gives an empty group), and
    `pd.concat([df.resample(rule="200ms").apply(sampling).dropna() for df in days])`
    resamples each group on the 200 ms grid that runs from the bin of its first reading to
    the bin of its last, drops the bins with a missing aggregate and concatenates the days
    in order. The aggregation `sampling` is a parameter here: what is proved holds for every
    aggregation that, like the script's, looks only at the readings of the bin. Because no
    bin bridges two days, splitting by day is the same as resampling the whole table at
    once and dropping the incomplete bins. */
module Resample {
  import opened Results
  import opened TimeGrid
  import opened Frame
  import opened Aggregate

  /** The aggregated row of the bin that starts at the given time. */
  type Aggregation = (seq<Row>, int) -> Row

  /** An aggregation that labels its row with the bin start, looks only at the bin's own
      readings, and leaves a cell missing when the bin has none. */
  ghost predicate BinLocal(agg: Aggregation)
  {
    && (forall rows, b :: agg(rows, b).time == b)
    && (forall rows1, rows2, b {:trigger agg(rows1, b), agg(rows2, b)} ::
          InBucket(rows1, b) == InBucket(rows2, b) ==> agg(rows1, b) == agg(rows2, b))
    && (forall rows, b :: InBucket(rows, b) == [] ==> !Complete(agg(rows, b)))
  }

  /** The earliest timestamp of a non-empty table. */
  function MinTime(rows: seq<Row>): int
    requires rows != []
  {
    if |rows| == 1 then rows[0].time
    else
      var m := MinTime(rows[1..]);
      if rows[0].time <= m then rows[0].time else m
  }

  /** The latest timestamp of a non-empty table. */
  function MaxTime(rows: seq<Row>): int
    requires rows != []
  {
    if |rows| == 1 then rows[0].time
    else
      var m := MaxTime(rows[1..]);
      if rows[0].time >= m then rows[0].time else m
  }

  /** `MinTime` and `MaxTime` are the times of readings of the table, and every reading
      lies between them. */
  lemma {:induction false} TimeRange(rows: seq<Row>)
    requires rows != []
    ensures exists i :: 0 <= i < |rows| && rows[i].time == MinTime(rows)
    ensures exists j :: 0 <= j < |rows| && rows[j].time == MaxTime(rows)
    ensures forall r :: r in rows ==> MinTime(rows) <= r.time <= MaxTime(rows)
  {
    if |rows| > 1 {
      var rest := rows[1..];
      TimeRange(rest);
      assert forall r :: r in rows <==> r == rows[0] || r in rest;
      var i :| 0 <= i < |rest| && rest[i].time == MinTime(rest);
      var j :| 0 <= j < |rest| && rest[j].time == MaxTime(rest);
      assert rows[i + 1] == rest[i] && rows[j + 1] == rest[j];
      var i' := if rows[0].time <= MinTime(rest) then 0 else i + 1;
      var j' := if rows[0].time >= MaxTime(rest) then 0 else j + 1;
      assert 0 <= i' < |rows| && rows[i'].time == MinTime(rows);
      assert 0 <= j' < |rows| && rows[j'].time == MaxTime(rows);
    } else {
      assert 0 <= 0 < |rows| && rows[0].time == MinTime(rows) == MaxTime(rows);
    }
  }

  /** The aggregated rows of the `n` bins from the one that starts at `lo`. */
  function Grid(agg: Aggregation, rows: seq<Row>, lo: int, n: nat): (g: seq<Row>)
    ensures |g| == n
    decreases n
  {
    if n == 0 then [] else [agg(rows, lo)] + Grid(agg, rows, lo + Width, n - 1)
  }

  /** The `k`-th row of the grid is the aggregate of the `k`-th bin. */
  lemma {:induction false} GridAt(agg: Aggregation, rows: seq<Row>, lo: int, n: nat)
    ensures forall k :: 0 <= k < n ==> Grid(agg, rows, lo, n)[k] == agg(rows, lo + k * Width)
    decreases n
  {
    if n > 0 {
      GridAt(agg, rows, lo + Width, n - 1);
      forall k | 1 <= k < n ensures Grid(agg, rows, lo, n)[k] == agg(rows, lo + k * Width) {
        assert lo + k * Width == lo + Width + (k - 1) * Width;
      }
    }
  }

  /** `df.resample(rule="200ms").apply(sampling)`: one row per bin, from the first reading's
      bin to the last reading's bin, empty bins included. */
  function ResampleWhole(agg: Aggregation, rows: seq<Row>): (g: seq<Row>)
    ensures rows == [] ==> g == []
    ensures rows != [] ==> forall k :: 0 <= k < |g| ==> g[k] == agg(rows, Bucket(MinTime(rows)) + k * Width)
  {
    if rows == [] then []
    else
      var lo, hi := Bucket(MinTime(rows)), Bucket(MaxTime(rows));
      GridAt(agg, rows, lo, (hi - lo) / Width + 1);
      Grid(agg, rows, lo, (hi - lo) / Width + 1)
  }

  /** The readings of day `d`, in order. */
  function DayGroup(rows: seq<Row>, d: int): (g: seq<Row>)
    ensures |g| <= |rows|
  {
    if rows == [] then []
    else (if Day(rows[0].time) == d then [rows[0]] else []) + DayGroup(rows[1..], d)
  }

  lemma {:induction false} DayGroupMembers(rows: seq<Row>, d: int)
    ensures forall r :: r in DayGroup(rows, d) <==> r in rows && Day(r.time) == d
  {
    if rows != [] {
      DayGroupMembers(rows[1..], d);
      assert forall r :: r in rows <==> r == rows[0] || r in rows[1..];
    }
  }

  /** `pd.concat` of the tables of days `first` .. `first + count - 1`, in order. */
  function Concat(day: int -> seq<Row>, first: int, count: nat): seq<Row>
    decreases count
  {
    if count == 0 then [] else Concat(day, first, count - 1) + day(first + count - 1)
  }

  /** `df.resample(rule="200ms").apply(sampling).dropna()` for the group of day `d`. */
  function DayResample(agg: Aggregation, rows: seq<Row>, d: int): seq<Row>
  {
    DropNA(ResampleWhole(agg, DayGroup(rows, d)))
  }

  /** The resampled, `dropna`'d group of each day. */
  function Days(agg: Aggregation, rows: seq<Row>): int -> seq<Row>
  {
    d => DayResample(agg, rows, d)
  }

  /** Lines 127-129; `pd.concat` of no day at all (an empty table) raises. */
  function ResampleByDay(agg: Aggregation, rows: seq<Row>): (r: Result<seq<Row>>)
    ensures r.Failure? <==> rows == []
    ensures r.Failure? ==> r.error == NothingToConcatenate
  {
    if rows == [] then Failure(NothingToConcatenate)
    else
      var first, last := Day(MinTime(rows)), Day(MaxTime(rows));
      Success(Concat(Days(agg, rows), first, last - first + 1))
  }

  // ---------------------------------------------------------------------------------------
  // The complete bins of a stretch of the grid.

  /** The complete aggregated rows of the `n` bins from `lo`, in time order. */
  function Out(agg: Aggregation, rows: seq<Row>, lo: int, n: nat): seq<Row>
    decreases n
  {
    if n == 0 then [] else Keep(agg(rows, lo)) + Out(agg, rows, lo + Width, n - 1)
  }

  /** `Out` is the grid after `dropna`. */
  lemma {:induction false} OutIsDropNA(agg: Aggregation, rows: seq<Row>, lo: int, n: nat)
    ensures Out(agg, rows, lo, n) == DropNA(Grid(agg, rows, lo, n))
    decreases n
  {
    if n > 0 {
      var x, rest := agg(rows, lo), Grid(agg, rows, lo + Width, n - 1);
      OutIsDropNA(agg, rows, lo + Width, n - 1);
      assert Grid(agg, rows, lo, n) == [x] + rest;
      assert ([x] + rest)[0] == x && ([x] + rest)[1..] == rest;
    }
  }

  lemma AppendAssoc(x: seq<Row>, y: seq<Row>, z: seq<Row>)
    ensures x + (y + z) == x + y + z
  {
  }

  lemma {:induction false} OutSplit(agg: Aggregation, rows: seq<Row>, lo: int, n: nat, m: nat)
    ensures Out(agg, rows, lo, n + m) == Out(agg, rows, lo, n) + Out(agg, rows, lo + n * Width, m)
    decreases n
  {
    if n == 0 {
      assert Out(agg, rows, lo, 0) == [];
    } else {
      var x, front, back := Keep(agg(rows, lo)), Out(agg, rows, lo + Width, n - 1), Out(agg, rows, lo + n * Width, m);
      assert Out(agg, rows, lo + Width, n - 1 + m) == front + back by {
        OutSplit(agg, rows, lo + Width, n - 1, m);
        assert lo + Width + (n - 1) * Width == lo + n * Width;
      }
      assert Out(agg, rows, lo, n + m) == x + (front + back);
      AppendAssoc(x, front, back);
    }
  }

  /** Bins without readings produce no row. */
  lemma {:induction false} OutEmpty(agg: Aggregation, rows: seq<Row>, lo: int, n: nat)
    requires BinLocal(agg)
    requires forall r :: r in rows ==> r.time < lo || lo + n * Width <= r.time
    ensures Out(agg, rows, lo, n) == []
    decreases n
  {
    if n > 0 {
      assert lo + Width <= lo + n * Width == lo + Width + (n - 1) * Width;
      forall r | r in rows ensures Bucket(r.time) != lo {
      }
      InBucketNone(rows, lo);
      OutEmpty(agg, rows, lo + Width, n - 1);
    }
  }

  /** A bin's readings all lie in the bin's day. */
  lemma {:induction false} InBucketDayGroup(rows: seq<Row>, d: int, b: int)
    requires Day(b) == d && b % Width == 0
    ensures InBucket(DayGroup(rows, d), b) == InBucket(rows, b)
  {
    if rows != [] {
      InBucketDayGroup(rows[1..], d, b);
      var r := rows[0];
      if Bucket(r.time) == b {
        BucketSameDay(r.time);
      }
      var g := DayGroup(rows, d);
      if Day(r.time) == d {
        assert g == [r] + DayGroup(rows[1..], d);
        assert g[0] == r && g[1..] == DayGroup(rows[1..], d);
      } else {
        assert g == [] + DayGroup(rows[1..], d);
        assert InBucket(rows, b) == [] + InBucket(rows[1..], b) == InBucket(rows[1..], b);
        assert g == DayGroup(rows[1..], d);
      }
    }
  }

  /** Two tables whose bins aggregate alike have the same complete bins. */
  lemma {:induction false} OutSame(agg: Aggregation, rows1: seq<Row>, rows2: seq<Row>, lo: int, n: nat)
    requires forall k :: 0 <= k < n ==> agg(rows1, lo + k * Width) == agg(rows2, lo + k * Width)
    ensures Out(agg, rows1, lo, n) == Out(agg, rows2, lo, n)
    decreases n
  {
    if n > 0 {
      assert agg(rows1, lo + 0 * Width) == agg(rows2, lo + 0 * Width);
      forall k | 0 <= k < n - 1
        ensures agg(rows1, lo + Width + k * Width) == agg(rows2, lo + Width + k * Width)
      {
        assert lo + Width + k * Width == lo + (k + 1) * Width;
      }
      OutSame(agg, rows1, rows2, lo + Width, n - 1);
    }
  }

  /** Day `d`'s complete bins are the same whether computed from its group or the table. */
  lemma OutDayGroup(agg: Aggregation, rows: seq<Row>, d: int)
    requires BinLocal(agg)
    ensures Out(agg, DayGroup(rows, d), DayStart(d), BinsPerDay) == Out(agg, rows, DayStart(d), BinsPerDay)
  {
    var g := DayGroup(rows, d);
    forall k | 0 <= k < BinsPerDay
      ensures agg(g, DayStart(d) + k * Width) == agg(rows, DayStart(d) + k * Width)
    {
      BinInDay(d, k);
      InBucketDayGroup(rows, d, DayStart(d) + k * Width);
    }
    OutSame(agg, g, rows, DayStart(d), BinsPerDay);
  }

  /** Cutting a stretch of the grid in three. */
  lemma OutThree(agg: Aggregation, rows: seq<Row>, lo: int, a: nat, m: nat, n: nat)
    requires a + m <= n
    ensures Out(agg, rows, lo, n)
         == Out(agg, rows, lo, a) + Out(agg, rows, lo + a * Width, m) + Out(agg, rows, lo + (a + m) * Width, n - a - m)
  {
    OutSplit(agg, rows, lo, a, n - a);
    OutSplit(agg, rows, lo + a * Width, m, n - a - m);
    assert lo + a * Width + m * Width == lo + (a + m) * Width;
    AppendAssoc(Out(agg, rows, lo, a), Out(agg, rows, lo + a * Width, m), Out(agg, rows, lo + (a + m) * Width, n - a - m));
  }

  /** The first and last bins of a table inside the `n` bins from `lo`, as positions. */
  lemma BinPositions(lo: int, n: nat, tmin: int, tmax: int) returns (a: nat, m: nat)
    requires lo % Width == 0 && lo <= tmin <= tmax < lo + n * Width
    ensures Bucket(tmin) == lo + a * Width && m == (Bucket(tmax) - Bucket(tmin)) / Width + 1
    ensures Bucket(tmax) + Width == lo + (a + m) * Width && a + m <= n
  {
    BucketUnique(lo, lo);
    BucketMonotone(lo, tmin);
    BucketMonotone(tmin, tmax);
    a := (Bucket(tmin) - lo) / Width;
    m := (Bucket(tmax) - Bucket(tmin)) / Width + 1;
  }

  /** Where a table inside the `n` bins from `lo` starts and ends on that stretch. */
  lemma Span(rows: seq<Row>, lo: int, n: nat) returns (a: nat, m: nat)
    requires rows != [] && lo % Width == 0
    requires forall r :: r in rows ==> lo <= r.time < lo + n * Width
    ensures a + m <= n
    ensures Bucket(MinTime(rows)) == lo + a * Width
    ensures m == (Bucket(MaxTime(rows)) - Bucket(MinTime(rows))) / Width + 1
    ensures forall r :: r in rows ==> lo + a * Width <= r.time < lo + (a + m) * Width
  {
    TimeRange(rows);
    var tmin, tmax := MinTime(rows), MaxTime(rows);
    var i :| 0 <= i < |rows| && rows[i].time == tmin;
    var j :| 0 <= j < |rows| && rows[j].time == tmax;
    assert rows[i] in rows && rows[j] in rows;
    a, m := BinPositions(lo, n, tmin, tmax);
  }

  /** The whole-table resample is the grid from the first reading's bin. */
  lemma ResampleWholeIsGrid(agg: Aggregation, rows: seq<Row>, start: int, m: nat)
    requires rows != []
    requires start == Bucket(MinTime(rows)) && m == (Bucket(MaxTime(rows)) - Bucket(MinTime(rows))) / Width + 1
    ensures ResampleWhole(agg, rows) == Grid(agg, rows, start, m)
  {
  }

  /** Resampling a table whose readings lie in the `n` bins from `lo`, and dropping the
      incomplete bins, gives the complete bins of that whole stretch. */
  lemma Trim(agg: Aggregation, rows: seq<Row>, lo: int, n: nat)
    requires BinLocal(agg)
    requires rows != [] && lo % Width == 0
    requires forall r :: r in rows ==> lo <= r.time < lo + n * Width
    ensures DropNA(ResampleWhole(agg, rows)) == Out(agg, rows, lo, n)
  {
    var a, m := Margins(agg, rows, lo, n);
    OutMiddle(agg, rows, lo, a, m, n);
    assert DropNA(ResampleWhole(agg, rows)) == Out(agg, rows, lo + a * Width, m) by {
      ResampleWholeIsGrid(agg, rows, lo + a * Width, m);
      OutIsDropNA(agg, rows, lo + a * Width, m);
    }
  }

  /** No bin before or after the table's own stretch is complete. */
  lemma Margins(agg: Aggregation, rows: seq<Row>, lo: int, n: nat) returns (a: nat, m: nat)
    requires BinLocal(agg)
    requires rows != [] && lo % Width == 0
    requires forall r :: r in rows ==> lo <= r.time < lo + n * Width
    ensures a + m <= n
    ensures Bucket(MinTime(rows)) == lo + a * Width
    ensures m == (Bucket(MaxTime(rows)) - Bucket(MinTime(rows))) / Width + 1
    ensures Out(agg, rows, lo, a) == [] && Out(agg, rows, lo + (a + m) * Width, n - a - m) == []
  {
    a, m := Span(rows, lo, n);
    EmptyBefore(agg, rows, lo, a);
    EmptyAfter(agg, rows, lo + (a + m) * Width, n - a - m);
  }

  /** The bins before every reading produce no row. */
  lemma EmptyBefore(agg: Aggregation, rows: seq<Row>, lo: int, n: nat)
    requires BinLocal(agg)
    requires forall r :: r in rows ==> lo + n * Width <= r.time
    ensures Out(agg, rows, lo, n) == []
  {
    OutEmpty(agg, rows, lo, n);
  }

  /** The bins after every reading produce no row. */
  lemma EmptyAfter(agg: Aggregation, rows: seq<Row>, lo: int, n: nat)
    requires BinLocal(agg)
    requires forall r :: r in rows ==> r.time < lo
    ensures Out(agg, rows, lo, n) == []
  {
    OutEmpty(agg, rows, lo, n);
  }

  /** With no complete bin before or after the middle part, a stretch is its middle part. */
  lemma OutMiddle(agg: Aggregation, rows: seq<Row>, lo: int, a: nat, m: nat, n: nat)
    requires a + m <= n
    requires Out(agg, rows, lo, a) == [] && Out(agg, rows, lo + (a + m) * Width, n - a - m) == []
    ensures Out(agg, rows, lo, n) == Out(agg, rows, lo + a * Width, m)
  {
    OutThree(agg, rows, lo, a, m, n);
    assert [] + Out(agg, rows, lo + a * Width, m) + [] == Out(agg, rows, lo + a * Width, m);
  }

  /** A day's resampled, `dropna`'d group is that day's complete bins of the whole table. */
  lemma OneDay(agg: Aggregation, rows: seq<Row>, d: int)
    requires BinLocal(agg)
    ensures DropNA(ResampleWhole(agg, DayGroup(rows, d))) == Out(agg, rows, DayStart(d), BinsPerDay)
  {
    var g := DayGroup(rows, d);
    DayMsInBins();
    DayGroupMembers(rows, d);
    if g == [] {
      OutEmpty(agg, g, DayStart(d), BinsPerDay);
    } else {
      Trim(agg, g, DayStart(d), BinsPerDay);
    }
    OutDayGroup(agg, rows, d);
  }

  /** Day `d`'s complete bins of the whole table. */
  function DayOut(agg: Aggregation, rows: seq<Row>, d: int): seq<Row>
  {
    Out(agg, rows, DayStart(d), BinsPerDay)
  }

  /** Each day's complete bins of the whole table. */
  function DaysOut(agg: Aggregation, rows: seq<Row>): int -> seq<Row>
  {
    d => DayOut(agg, rows, d)
  }

  /** Concatenating the same days gives the same table. */
  lemma {:induction false} ConcatSame(day1: int -> seq<Row>, day2: int -> seq<Row>, first: int, count: nat)
    requires forall d :: first <= d < first + count ==> day1(d) == day2(d)
    ensures Concat(day1, first, count) == Concat(day2, first, count)
    decreases count
  {
    if count > 0 {
      ConcatSame(day1, day2, first, count - 1);
    }
  }

  /** Splitting by day resamples each day to that day's complete bins of the whole table. */
  lemma PerDayDays(agg: Aggregation, rows: seq<Row>, first: int, count: nat)
    requires BinLocal(agg)
    ensures Concat(Days(agg, rows), first, count) == Concat(DaysOut(agg, rows), first, count)
  {
    forall d | first <= d < first + count
      ensures DayResample(agg, rows, d) == DayOut(agg, rows, d)
    {
      OneDay(agg, rows, d);
    }
    ConcatSame(Days(agg, rows), DaysOut(agg, rows), first, count);
  }

  /** The grid of `count` days is that of the first `count - 1` days followed by the last. */
  lemma OutNextDay(agg: Aggregation, rows: seq<Row>, first: int, count: nat)
    requires count > 0
    ensures Out(agg, rows, DayStart(first), count * BinsPerDay)
         == Out(agg, rows, DayStart(first), (count - 1) * BinsPerDay) + DayOut(agg, rows, first + count - 1)
  {
    NextDayBins(first, count);
    OutSplit(agg, rows, DayStart(first), (count - 1) * BinsPerDay, BinsPerDay);
  }

  /** Consecutive days tile the grid. */
  lemma {:induction false} ConcatDaysOut(agg: Aggregation, rows: seq<Row>, first: int, count: nat)
    ensures Concat(DaysOut(agg, rows), first, count) == Out(agg, rows, DayStart(first), count * BinsPerDay)
  {
    if count == 0 {
      assert count * BinsPerDay == 0;
      assert Grid(agg, rows, DayStart(first), 0) == [];
    } else {
      ConcatDaysOut(agg, rows, first, count - 1);
      OutNextDay(agg, rows, first, count);
    }
  }

  /** Splitting the table by day before resampling changes nothing: the concatenated days
      are the complete bins of the whole table's resample, in time order. */
  lemma ResampleByDayIsWhole(agg: Aggregation, rows: seq<Row>)
    requires BinLocal(agg)
    requires rows != []
    ensures ResampleByDay(agg, rows) == Success(DropNA(ResampleWhole(agg, rows)))
  {
    var first, count := DaysCover(rows);
    var out := Out(agg, rows, DayStart(first), count * BinsPerDay);
    assert Concat(Days(agg, rows), first, count) == out by {
      PerDayDays(agg, rows, first, count);
      ConcatDaysOut(agg, rows, first, count);
    }
    assert DropNA(ResampleWhole(agg, rows)) == out by {
      Trim(agg, rows, DayStart(first), count * BinsPerDay);
    }
    ByDay(agg, rows, first, count, out);
  }

  /** The per-day resample is the concatenation of the days from the first reading's to the
      last's. */
  lemma ByDay(agg: Aggregation, rows: seq<Row>, first: int, count: nat, out: seq<Row>)
    requires rows != []
    requires first == Day(MinTime(rows)) && count == Day(MaxTime(rows)) - first + 1
    requires Concat(Days(agg, rows), first, count) == out
    ensures ResampleByDay(agg, rows) == Success(out)
  {
    var last := Day(MaxTime(rows));
    assert ResampleByDay(agg, rows) == Success(Concat(Days(agg, rows), first, last - first + 1));
  }

  /** The days from the first reading's to the last's hold every reading. */
  lemma DaysCover(rows: seq<Row>) returns (first: int, count: nat)
    requires rows != []
    ensures first == Day(MinTime(rows)) && count == Day(MaxTime(rows)) - first + 1
    ensures forall r :: r in rows ==> DayStart(first) <= r.time < DayStart(first) + count * BinsPerDay * Width
  {
    TimeRange(rows);
    var last := Day(MaxTime(rows));
    first := Day(MinTime(rows));
    DayMonotone(MinTime(rows), MaxTime(rows));
    count := last - first + 1;
    forall r | r in rows
      ensures DayStart(first) <= r.time < DayStart(first) + count * BinsPerDay * Width
    {
      DayMonotone(MinTime(rows), r.time);
      DayMonotone(r.time, MaxTime(rows));
      DaySpan(r.time, first, last);
    }
  }

  // ---------------------------------------------------------------------------------------
  // What the resampled table holds.

  /** Timestamps strictly increase down the table. */
  predicate Increasing(rows: seq<Row>)
  {
    forall i, j :: 0 <= i < j < |rows| ==> rows[i].time < rows[j].time
  }

  /** The rows of a stretch of the grid after `dropna` are exactly the complete aggregates of
      its bins. */
  lemma {:induction false} OutMembers(agg: Aggregation, rows: seq<Row>, lo: int, n: nat)
    requires BinLocal(agg)
    ensures forall r :: r in Out(agg, rows, lo, n) <==>
      Complete(r) && r == agg(rows, r.time) && lo <= r.time < lo + n * Width && (r.time - lo) % Width == 0
    decreases n
  {
    if n > 0 {
      OutMembers(agg, rows, lo + Width, n - 1);
      assert lo + Width + (n - 1) * Width == lo + n * Width;
      var x := agg(rows, lo);
      assert forall r :: r in Out(agg, rows, lo, n) <==> r in Keep(x) || r in Out(agg, rows, lo + Width, n - 1);
    }
  }

  /** ... and they come in time order. */
  lemma {:induction false} OutIncreasing(agg: Aggregation, rows: seq<Row>, lo: int, n: nat)
    requires BinLocal(agg)
    ensures Increasing(Out(agg, rows, lo, n))
    decreases n
  {
    if n > 0 {
      var x, rest := agg(rows, lo), Out(agg, rows, lo + Width, n - 1);
      OutIncreasing(agg, rows, lo + Width, n - 1);
      if Complete(x) {
        assert forall j :: 0 <= j < |rest| ==> x.time < rest[j].time by {
          OutMembers(agg, rows, lo + Width, n - 1);
          forall j | 0 <= j < |rest| ensures x.time < rest[j].time {
            assert rest[j] in rest;
          }
        }
        IncreasingCons(x, rest);
        assert Out(agg, rows, lo, n) == [x] + rest;
      } else {
        assert Out(agg, rows, lo, n) == [] + rest == rest;
      }
    }
  }

  /** A row before every row of an increasing table keeps it increasing. */
  lemma IncreasingCons(x: Row, rest: seq<Row>)
    requires Increasing(rest)
    requires forall j :: 0 <= j < |rest| ==> x.time < rest[j].time
    ensures Increasing([x] + rest)
  {
    var out := [x] + rest;
    forall i, j | 0 <= i < j < |out| ensures out[i].time < out[j].time {
      assert out[j] == rest[j - 1];
      if i > 0 {
        assert out[i] == rest[i - 1];
      }
    }
  }

  /** The whole-table resample, after `dropna`, is the stretch of the grid from the first
      reading's bin to the last reading's bin. */
  lemma WholeIsOut(agg: Aggregation, rows: seq<Row>) returns (m: nat)
    requires rows != []
    ensures Bucket(MinTime(rows)) + m * Width == Bucket(MaxTime(rows)) + Width
    ensures DropNA(ResampleWhole(agg, rows)) == Out(agg, rows, Bucket(MinTime(rows)), m)
  {
    TimeRange(rows);
    var lo, hi := Bucket(MinTime(rows)), Bucket(MaxTime(rows));
    BucketMonotone(MinTime(rows), MaxTime(rows));
    m := (hi - lo) / Width + 1;
    ResampleWholeIsGrid(agg, rows, lo, m);
    OutIsDropNA(agg, rows, lo, m);
  }

  /** Lines 127-129 fail exactly on an empty table; otherwise the result holds, in time
      order, one row per 200 ms bin from the first reading's bin to the last reading's bin
      whose aggregate is complete, and that row is the bin's aggregate. */
  lemma ResampleByDaySpec(agg: Aggregation, rows: seq<Row>)
    requires BinLocal(agg)
    ensures ResampleByDay(agg, rows).Failure? <==> rows == []
    ensures rows == [] ==> ResampleByDay(agg, rows).error == NothingToConcatenate
    ensures rows != [] ==>
      var out := ResampleByDay(agg, rows).value;
      && Increasing(out)
      && forall r :: r in out <==>
           && Complete(r) && r == agg(rows, r.time) && r.time % Width == 0
           && Bucket(MinTime(rows)) <= r.time <= Bucket(MaxTime(rows))
  {
    if rows != [] {
      var lo, hi := Bucket(MinTime(rows)), Bucket(MaxTime(rows));
      var m := WholeIsOut(agg, rows);
      assert ResampleByDay(agg, rows) == Success(Out(agg, rows, lo, m)) by {
        ResampleByDayIsWhole(agg, rows);
      }
      OutBetween(agg, rows, lo, hi, m);
    }
  }

  /** The complete bins of a stretch of the grid, by their bin starts. */
  lemma OutBetween(agg: Aggregation, rows: seq<Row>, lo: int, hi: int, m: nat)
    requires BinLocal(agg)
    requires lo % Width == 0 && hi % Width == 0 && lo + m * Width == hi + Width
    ensures var out := Out(agg, rows, lo, m);
      && Increasing(out)
      && forall r :: r in out <==>
           Complete(r) && r == agg(rows, r.time) && r.time % Width == 0 && lo <= r.time <= hi
  {
    var out := Out(agg, rows, lo, m);
    OutMembers(agg, rows, lo, m);
    OutIncreasing(agg, rows, lo, m);
    forall r
      ensures (r in out) <==>
        (Complete(r) && r == agg(rows, r.time) && r.time % Width == 0 && lo <= r.time <= hi)
    {
      OnGrid(r.time, lo, hi, m);
    }
  }

  /** The script's `sampling` looks only at the bin's readings. */
  lemma SamplingIsBinLocal()
    ensures BinLocal(Sampling)
  {
    forall rows, b | InBucket(rows, b) == []
      ensures !Complete(Sampling(rows, b))
    {
      SamplingComplete(rows, b);
    }
  }
}
