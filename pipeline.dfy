/** The end of src/data/make_dataset.py, lines 118-133, as the script composes it, and the
    composition its per-day pass is written for.

    As written, lines 118-122 replace the merged table by a preview of its first 1000 rows:
    the numeric columns (the six channels and `set`) are averaged per 200 ms bin, and the
    text columns are forward-filled to each bin start. The per-day pass of lines 127-129
    then runs on that preview, and line 133 casts `set` to an integer. The corrected tail
    runs the per-day pass on the whole merged table. */
module Pipeline {
  import opened Results
  import opened TimeGrid
  import opened Frame
  import opened Aggregate
  import opened Resample
  import opened Ingest
  import opened Merge

  // ---------------------------------------------------------------------------------------
  // The preview of lines 118-122.

  /** The number of rows `data_merged[:1000]` keeps. */
  const PreviewRows: nat := 1000

  /** `data_merged[:1000]`: the first 1000 rows, or all of them when there are fewer. */
  function Head(rows: seq<Row>): (h: seq<Row>)
    ensures |h| == if |rows| < PreviewRows then |rows| else PreviewRows
    ensures forall i :: 0 <= i < |h| ==> h[i] == rows[i]
  {
    if |rows| <= PreviewRows then rows else rows[..PreviewRows]
  }

  /** A text column of the row `ffill` carries to a bin start, missing when there is none. */
  function Filled<T>(prior: Option<Row>, f: Row -> Option<T>): Option<T>
  {
    if prior.Some? then f(prior.value) else None
  }

  /** The row of the bin that starts at `b` after line 122 joins the two resampled halves:
      `mean` of every numeric column over the bin (`set` included) and, for every text
      column, the value of the latest row at or before the bin start. */
  function PreviewAt(rows: seq<Row>, b: int): (r: Row)
    ensures r.time == b
    ensures r.setNumber.Some? <==> HasValue(InBucket(rows, b), (x: Row) => x.setNumber)
    ensures (forall j :: 0 <= j < |rows| ==> b < rows[j].time) ==>
      r.participant.None? && r.exercise.None? && r.category.None?
  {
    var bs, prior := InBucket(rows, b), AtOrBefore(rows, b);
    Row(b,
        Mean(bs, (r: Row) => r.accX), Mean(bs, (r: Row) => r.accY), Mean(bs, (r: Row) => r.accZ),
        Mean(bs, (r: Row) => r.gyrX), Mean(bs, (r: Row) => r.gyrY), Mean(bs, (r: Row) => r.gyrZ),
        Filled(prior, (r: Row) => r.participant), Filled(prior, (r: Row) => r.exercise),
        Filled(prior, (r: Row) => r.category),
        Mean(bs, (r: Row) => r.setNumber))
  }

  /** Lines 118-122: the table that replaces `data_merged`. Both halves are resampled on the
      same grid, so `pd.concat(axis=1)` pairs them bin by bin. */
  function Preview(rows: seq<Row>): (p: seq<Row>)
    ensures forall k :: 0 <= k < |p| ==> p[k] == PreviewAt(Head(rows), p[k].time)
  {
    ResampleWhole(PreviewAt, Head(rows))
  }

  /** A table with exactly one row per 200 ms bin, from the bin of its first row on, in time
      order. */
  predicate Gridded(rows: seq<Row>)
  {
    && rows != [] && rows[0].time % Width == 0
    && forall k :: 0 <= k < |rows| ==> rows[k].time == rows[0].time + k * Width
  }

  /** A stretch of the grid whose rows carry their bin starts is on the grid. */
  lemma GridGridded(agg: Aggregation, rows: seq<Row>, lo: int, n: nat)
    requires n > 0 && lo % Width == 0
    requires forall k :: 0 <= k < n ==> agg(rows, lo + k * Width).time == lo + k * Width
    ensures Gridded(Grid(agg, rows, lo, n))
    ensures Grid(agg, rows, lo, n)[n - 1].time == lo + (n - 1) * Width
  {
    GridAt(agg, rows, lo, n);
  }

  /** The preview has one row per bin from the bin of the earliest of the first 1000 rows to
      the bin of the latest. */
  lemma PreviewGridded(rows: seq<Row>)
    requires rows != []
    ensures var h := Head(rows); var p := Preview(rows);
      && Gridded(p)
      && p[0].time == Bucket(MinTime(h))
      && p[|p| - 1].time == Bucket(MaxTime(h))
  {
    PreviewTableGridded(Head(rows));
  }

  lemma PreviewTableGridded(h: seq<Row>)
    requires h != []
    ensures var p := ResampleWhole(PreviewAt, h);
      && Gridded(p)
      && p[0].time == Bucket(MinTime(h))
      && p[|p| - 1].time == Bucket(MaxTime(h))
  {
    var lo, hi := Bucket(MinTime(h)), Bucket(MaxTime(h));
    assert lo <= hi by {
      TimeRange(h);
      assert h[0] in h;
      BucketMonotone(MinTime(h), MaxTime(h));
    }
    var q := BinsBetween(lo, hi);
    assert ResampleWhole(PreviewAt, h) == Grid(PreviewAt, h, lo, q + 1);
    forall k | 0 <= k < q + 1 ensures PreviewAt(h, lo + k * Width).time == lo + k * Width {
    }
    GridGridded(PreviewAt, h, lo, q + 1);
  }

  // ---------------------------------------------------------------------------------------
  // The per-day pass on a table that is already on the grid.

  /** A bin that holds a single reading of the table holds just that one. */
  lemma {:induction false} InBucketSingle(rows: seq<Row>, k: int, b: int)
    requires 0 <= k < |rows| && Bucket(rows[k].time) == b
    requires forall j :: 0 <= j < |rows| && j != k ==> Bucket(rows[j].time) != b
    ensures InBucket(rows, b) == [rows[k]]
  {
    var rest := rows[1..];
    if k == 0 {
      forall r | r in rest ensures Bucket(r.time) != b {
        var j :| 0 <= j < |rest| && rest[j] == r;
        assert r == rows[j + 1];
      }
      InBucketNone(rest, b);
    } else {
      forall j | 0 <= j < |rest| && j != k - 1 ensures Bucket(rest[j].time) != b {
        assert rest[j] == rows[j + 1];
      }
      InBucketSingle(rest, k - 1, b);
    }
  }

  /** On the grid, every bin holds exactly its own row. */
  lemma InBucketGridded(rows: seq<Row>, k: int)
    requires Gridded(rows) && 0 <= k < |rows|
    ensures InBucket(rows, rows[k].time) == [rows[k]]
  {
    var b := rows[k].time;
    assert Bucket(b) == b by {
      assert b == rows[0].time + k * Width;
    }
    forall j | 0 <= j < |rows| && j != k ensures Bucket(rows[j].time) != b {
      if j < k {
        assert rows[j].time < b;
      } else {
        assert rows[j].time >= b + Width;
      }
    }
    InBucketSingle(rows, k, b);
  }

  /** `mean` and `last` of a single row are that row's value. */
  lemma MeanOne(r: Row, f: Row -> Option<real>)
    ensures Mean([r], f) == f(r)
  {
    assert [r][1..] == [];
    assert Count([r], f) == if f(r).Some? then 1.0 else 0.0;
    assert Sum([r], f) == if f(r).Some? then f(r).value else 0.0;
  }

  lemma LastOne<T>(r: Row, f: Row -> Option<T>)
    ensures Last([r], f) == f(r)
  {
    assert [r][..0] == [];
  }

  /** The `sampling` row of a bin holding a single reading is that reading, moved to the bin
      start. */
  lemma SamplingSingle(rows: seq<Row>, b: int, r: Row)
    requires InBucket(rows, b) == [r]
    ensures Sampling(rows, b) == r.(time := b)
  {
    MeanOne(r, (r: Row) => r.accX);
    MeanOne(r, (r: Row) => r.accY);
    MeanOne(r, (r: Row) => r.accZ);
    MeanOne(r, (r: Row) => r.gyrX);
    MeanOne(r, (r: Row) => r.gyrY);
    MeanOne(r, (r: Row) => r.gyrZ);
    LastOne(r, (r: Row) => r.participant);
    LastOne(r, (r: Row) => r.exercise);
    LastOne(r, (r: Row) => r.category);
    LastOne(r, (r: Row) => r.setNumber);
  }

  /** The earliest and latest readings of a table on the grid are its first and last rows. */
  lemma GriddedSpan(rows: seq<Row>)
    requires Gridded(rows)
    ensures MinTime(rows) == rows[0].time
    ensures MaxTime(rows) == rows[0].time + (|rows| - 1) * Width
  {
    TimeRange(rows);
    assert rows[0] in rows && rows[|rows| - 1] in rows;
  }

  /** Resampling a table that is already on the grid with `sampling` gives it back. */
  lemma GriddedResample(rows: seq<Row>)
    requires Gridded(rows)
    ensures ResampleWhole(Sampling, rows) == rows
  {
    var lo, n := rows[0].time, |rows|;
    assert ResampleWhole(Sampling, rows) == Grid(Sampling, rows, lo, n) by {
      GriddedSpan(rows);
      assert Bucket(lo) == lo && Bucket(lo + (n - 1) * Width) == lo + (n - 1) * Width;
      ResampleWholeIsGrid(Sampling, rows, lo, n);
    }
    GriddedGrid(rows);
  }

  /** Each bin of a table on the grid holds exactly its own row, which `sampling` gives back. */
  lemma GriddedGrid(rows: seq<Row>)
    requires Gridded(rows)
    ensures Grid(Sampling, rows, rows[0].time, |rows|) == rows
  {
    var agg: Aggregation := Sampling;
    forall k | 0 <= k < |rows| ensures agg(rows, rows[k].time) == rows[k] {
      GriddedBin(rows, k);
    }
    GridIs(agg, rows, rows[0].time, rows);
  }

  /** A grid whose every bin aggregates to the row of `want` that carries its bin start is
      `want`. */
  lemma GridIs(agg: Aggregation, rows: seq<Row>, lo: int, want: seq<Row>)
    requires forall k :: 0 <= k < |want| ==> want[k].time == lo + k * Width
    requires forall k :: 0 <= k < |want| ==> agg(rows, want[k].time) == want[k]
    ensures Grid(agg, rows, lo, |want|) == want
  {
    var g := Grid(agg, rows, lo, |want|);
    GridAt(agg, rows, lo, |want|);
    assert forall k :: 0 <= k < |want| ==> g[k] == want[k];
  }

  /** `sampling` of the bin of a row of a table on the grid gives that row back. */
  lemma GriddedBin(rows: seq<Row>, k: int)
    requires Gridded(rows) && 0 <= k < |rows|
    ensures Sampling(rows, rows[k].time) == rows[k]
  {
    InBucketGridded(rows, k);
    SamplingSingle(rows, rows[k].time, rows[k]);
  }

  /** Lines 127-129 on a table already on the grid only drop the rows with a missing cell. */
  lemma GriddedByDay(rows: seq<Row>)
    requires Gridded(rows)
    ensures ResampleByDay(Sampling, rows) == Success(DropNA(rows))
  {
    SamplingIsBinLocal();
    ResampleByDayIsWhole(Sampling, rows);
    GriddedResample(rows);
  }

  // ---------------------------------------------------------------------------------------
  // The cast of line 133.

  /** A row of the exported table: `set` is an integer column. */
  datatype Sample = Sample(time: int,
                           accX: Option<real>, accY: Option<real>, accZ: Option<real>,
                           gyrX: Option<real>, gyrY: Option<real>, gyrZ: Option<real>,
                           participant: Option<string>, exercise: Option<string>, category: Option<string>,
                           setNumber: int)

  /** `astype(int)` of a number: its integer part, rounding toward zero. */
  function Trunc(x: real): (n: int)
    ensures 0.0 <= x ==> n as real <= x < n as real + 1.0
    ensures x < 0.0 ==> n as real - 1.0 < x <= n as real
  {
    if x >= 0.0 then x.Floor else -((-x).Floor)
  }

  /** A whole number is cast to itself. */
  lemma TruncWhole(n: int)
    ensures Trunc(n as real) == n
  {
  }

  function CastRow(r: Row): Sample
    requires r.setNumber.Some?
  {
    Sample(r.time, r.accX, r.accY, r.accZ, r.gyrX, r.gyrY, r.gyrZ,
           r.participant, r.exercise, r.category, Trunc(r.setNumber.value))
  }

  /** A sample read back as a row of the table. */
  function AsRow(s: Sample): Row
  {
    Row(s.time, s.accX, s.accY, s.accZ, s.gyrX, s.gyrY, s.gyrZ,
        s.participant, s.exercise, s.category, Some(s.setNumber as real))
  }

  /** The number has no fractional part. */
  predicate Whole(x: real)
  {
    x == x.Floor as real
  }

  /** The cast loses nothing on a row whose `set` is whole, and reading a sample back as a
      row and casting it again gives the sample. */
  lemma CastRoundTrip(r: Row, s: Sample)
    requires r.setNumber.Some? && Whole(r.setNumber.value)
    ensures AsRow(CastRow(r)) == r
    ensures CastRow(AsRow(s)) == s
  {
    TruncWhole(r.setNumber.value.Floor);
    TruncWhole(s.setNumber);
  }

  /** Line 133: `data_resampled["set"].astype(int)`, which raises on a missing value. */
  function Cast(rows: seq<Row>): (r: Result<seq<Sample>>)
    ensures r.Success? ==> |r.value| == |rows|
    ensures r.Failure? ==> r.error == MissingToInt
  {
    if rows == [] then Success([])
    else if rows[0].setNumber.None? then Failure(MissingToInt)
    else
      var rest :- Cast(rows[1..]);
      Success([CastRow(rows[0])] + rest)
  }

  /** The cast fails exactly when a `set` is missing; otherwise it converts row by row. */
  lemma {:induction false} CastSpec(rows: seq<Row>)
    ensures Cast(rows).Success? <==> forall i :: 0 <= i < |rows| ==> rows[i].setNumber.Some?
    ensures Cast(rows).Failure? ==> Cast(rows).error == MissingToInt
    ensures Cast(rows).Success? ==>
      && |Cast(rows).value| == |rows|
      && forall i :: 0 <= i < |rows| ==> rows[i].setNumber.Some? && Cast(rows).value[i] == CastRow(rows[i])
  {
    if rows != [] {
      CastSpec(rows[1..]);
      if forall i :: 0 <= i < |rows| ==> rows[i].setNumber.Some? {
        forall i | 0 <= i < |rows[1..]| ensures rows[1..][i].setNumber.Some? {
          assert rows[1..][i] == rows[i + 1];
        }
      } else if rows[0].setNumber.Some? {
        var i :| 0 <= i < |rows| && rows[i].setNumber.None?;
        assert rows[1..][i - 1] == rows[i];
      }
    }
  }

  /** After `dropna()` no `set` is missing, so the cast always succeeds. */
  lemma CastAfterDropNA(rows: seq<Row>)
    ensures Cast(DropNA(rows)).Success?
    ensures |Cast(DropNA(rows)).value| == |DropNA(rows)|
  {
    var kept := DropNA(rows);
    DropNAMembers(rows);
    forall i | 0 <= i < |kept| ensures kept[i].setNumber.Some? {
      assert kept[i] in kept;
    }
    CastSpec(kept);
  }

  // ---------------------------------------------------------------------------------------
  // The script's tail as written, and the corrected tail.

  /** Lines 118-133 as written: preview, per-day pass on the preview, cast. */
  function ScriptTail(merged: seq<Row>): (r: Result<seq<Sample>>)
    ensures merged == [] ==> r == Failure(NothingToConcatenate)
  {
    var resampled :- ResampleByDay(Sampling, Preview(merged));
    Cast(resampled)
  }

  /** Lines 127-133 on the whole merged table. */
  function CorrectedTail(merged: seq<Row>): (r: Result<seq<Sample>>)
    ensures merged == [] ==> r == Failure(NothingToConcatenate)
  {
    var resampled :- ResampleByDay(Sampling, merged);
    Cast(resampled)
  }

  /** Only the first 1000 rows reach the preview. */
  lemma PreviewHead(merged: seq<Row>)
    ensures Preview(Head(merged)) == Preview(merged)
    ensures Preview(merged) == [] <==> merged == []
  {
    assert Head(Head(merged)) == Head(merged);
    if merged != [] {
      PreviewGridded(merged);
    }
  }

  /** The script as written: it fails only on an empty table, never looks past row 1000, and
      exports the complete rows of the preview with their sets cast. */
  lemma ScriptTailSpec(merged: seq<Row>)
    ensures ScriptTail(merged).Failure? <==> merged == []
    ensures merged == [] ==> ScriptTail(merged) == Failure(NothingToConcatenate)
    ensures ScriptTail(merged) == ScriptTail(Head(merged))
    ensures merged != [] ==> ScriptTail(merged) == Cast(DropNA(Preview(merged)))
  {
    PreviewHead(merged);
    if merged != [] {
      PreviewGridded(merged);
      GriddedByDay(Preview(merged));
      CastAfterDropNA(Preview(merged));
    }
  }

  /** Every `set` of the table is a whole number. */
  predicate WholeSets(rows: seq<Row>)
  {
    forall i :: 0 <= i < |rows| && rows[i].setNumber.Some? ==> Whole(rows[i].setNumber.value)
  }

  /** `last` of whole set numbers is whole. */
  lemma SamplingWholeSet(rows: seq<Row>, b: int)
    requires WholeSets(rows)
    requires Sampling(rows, b).setNumber.Some?
    ensures Whole(Sampling(rows, b).setNumber.value)
  {
    var bs := InBucket(rows, b);
    var f := (r: Row) => r.setNumber;
    LastSpec(bs, f);
    InBucketMembers(rows, b);
    var k :| 0 <= k < |bs| && f(bs[k]) == Last(bs, f) &&
      forall j :: 0 <= j < |bs| && f(bs[j]).Some? ==> bs[j].time <= bs[k].time;
    assert bs[k] in rows;
  }

  /** Casting rows whose sets are all present and whole succeeds, keeps the time order, and
      its samples are exactly the rows read back. */
  lemma CastMembers(rows: seq<Row>)
    requires forall i :: 0 <= i < |rows| ==> rows[i].setNumber.Some? && Whole(rows[i].setNumber.value)
    ensures Cast(rows).Success?
    ensures (forall i, j :: 0 <= i < j < |rows| ==> rows[i].time < rows[j].time) ==>
      forall i, j :: 0 <= i < j < |Cast(rows).value| ==> Cast(rows).value[i].time < Cast(rows).value[j].time
    ensures forall s :: s in Cast(rows).value <==> AsRow(s) in rows
  {
    CastSpec(rows);
    var out := Cast(rows).value;
    forall s ensures s in out <==> AsRow(s) in rows {
      if s in out {
        var i :| 0 <= i < |out| && out[i] == s;
        CastRoundTrip(rows[i], s);
      }
      if AsRow(s) in rows {
        var i :| 0 <= i < |rows| && rows[i] == AsRow(s);
        CastRoundTrip(rows[i], s);
        assert out[i] == s;
      }
    }
  }

  /** The `set` of every resampled row is present and whole. */
  lemma ResampledSets(merged: seq<Row>)
    requires WholeSets(merged) && merged != []
    ensures ResampleByDay(Sampling, merged).Success?
    ensures var resampled := ResampleByDay(Sampling, merged).value;
      forall i :: 0 <= i < |resampled| ==>
        resampled[i].setNumber.Some? && Whole(resampled[i].setNumber.value)
  {
    SamplingIsBinLocal();
    ResampleByDaySpec(Sampling, merged);
    var resampled := ResampleByDay(Sampling, merged).value;
    forall i | 0 <= i < |resampled|
      ensures resampled[i].setNumber.Some? && Whole(resampled[i].setNumber.value)
    {
      assert resampled[i] in resampled;
      SamplingWholeSet(merged, resampled[i].time);
    }
  }

  /** The corrected tail: it fails only on an empty table, and otherwise its samples, read
      back as rows, are exactly the complete `sampling` rows of the 200 ms bins from the
      earliest reading's bin to the latest's, in time order, with every set number kept. */
  lemma CorrectedTailSpec(merged: seq<Row>)
    requires WholeSets(merged)
    ensures CorrectedTail(merged).Failure? <==> merged == []
    ensures merged == [] ==> CorrectedTail(merged) == Failure(NothingToConcatenate)
    ensures merged != [] ==>
      var out := CorrectedTail(merged).value;
      && (forall i, j :: 0 <= i < j < |out| ==> out[i].time < out[j].time)
      && forall s :: s in out <==>
           && Complete(AsRow(s)) && AsRow(s) == Sampling(merged, s.time) && s.time % Width == 0
           && Bucket(MinTime(merged)) <= s.time <= Bucket(MaxTime(merged))
  {
    if merged != [] {
      ResampledSets(merged);
      var resampled := ResampleByDay(Sampling, merged).value;
      SamplingIsBinLocal();
      ResampleByDaySpec(Sampling, merged);
      CastMembers(resampled);
      assert CorrectedTail(merged) == Cast(resampled);
    }
  }

  // ---------------------------------------------------------------------------------------
  // The whole script.

  /** The script from the listed files to the table it exports. */
  function ScriptOutput(files: seq<RawFile>): (r: Result<seq<Sample>>)
    ensures Ingest.Ingest(files).Failure? ==> r == Failure(Ingest.Ingest(files).error)
    ensures files == [] ==> r == Failure(NoFiles)
  {
    var tables :- Ingest.Ingest(files);
    var merged :- Merge.Merge(tables.acc, tables.gyr);
    ScriptTail(merged)
  }

  /** The same with the per-day pass on the whole merged table. */
  function Preprocess(files: seq<RawFile>): (r: Result<seq<Sample>>)
    ensures Ingest.Ingest(files).Failure? ==> r == Failure(Ingest.Ingest(files).error)
    ensures files == [] ==> r == Failure(NoFiles)
  {
    var tables :- Ingest.Ingest(files);
    var merged :- Merge.Merge(tables.acc, tables.gyr);
    CorrectedTail(merged)
  }

  /** The script and the corrected pipeline fail on the same inputs with the same error:
      they differ only in the rows they export. */
  lemma SameFailures(files: seq<RawFile>)
    ensures ScriptOutput(files).Failure? <==> Preprocess(files).Failure?
    ensures ScriptOutput(files).Failure? ==> ScriptOutput(files).error == Preprocess(files).error
  {
    var tables := Ingest.Ingest(files);
    if tables.Success? {
      var merged := Merge.Merge(tables.value.acc, tables.value.gyr);
      if merged.Success? {
        MergeWholeSets(tables.value.acc, tables.value.gyr);
        ScriptTailSpec(merged.value);
        CorrectedTailSpec(merged.value);
      }
    }
  }

  /** The merged table's set numbers are whole: they come from the integer counters. */
  lemma MergeWholeSets(acc: seq<SensorRow>, gyr: seq<SensorRow>)
    requires Merge.Merge(acc, gyr).Success?
    ensures WholeSets(Merge.Merge(acc, gyr).value)
  {
  }

  // ---------------------------------------------------------------------------------------
  // The preview replaces the table (lines 118-122).

  /** A complete merged row at time `t`. */
  function Full(t: int): Row
  {
    Row(t, Some(1.0), Some(1.0), Some(1.0), Some(2.0), Some(2.0), Some(2.0),
        Some("A"), Some("bench"), Some("heavy"), Some(1.0))
  }

  /** A single complete reading at 100 ms: the script exports nothing, because `ffill` finds
      no text value at or before the bin start 0 ... */
  lemma ScriptDropsLoneReading()
    ensures ScriptTail([Full(100)]) == Success([])
  {
    var rows := [Full(100)];
    assert Bucket(100) == 0;
    assert Head(rows) == rows;
    assert Preview(rows) == [PreviewAt(rows, 0)];
    assert AtOrBefore(rows, 0).None?;
    assert DropNA(Preview(rows)) == [];
    ScriptTailSpec(rows);
  }

  /** ... while the corrected tail exports the reading's bin. */
  lemma CorrectedKeepsLoneReading()
    ensures CorrectedTail([Full(100)]) == Success([CastRow(Full(0))])
  {
    LoneReadingResampled();
    CastOne(Full(0));
  }

  lemma CastOne(r: Row)
    requires r.setNumber.Some?
    ensures Cast([r]) == Success([CastRow(r)])
  {
    assert [r][1..] == [];
    assert [CastRow(r)] + [] == [CastRow(r)];
  }

  /** The corrected per-day pass keeps the lone reading's bin. */
  lemma LoneReadingResampled()
    ensures ResampleByDay(Sampling, [Full(100)]) == Success([Full(0)])
  {
    var rows := [Full(100)];
    assert ResampleByDay(Sampling, rows) == Success(DropNA(ResampleWhole(Sampling, rows))) by {
      SamplingIsBinLocal();
      ResampleByDayIsWhole(Sampling, rows);
    }
    SingleReadingBin(Full(100));
    assert Full(100).(time := Bucket(100)) == Full(0);
    assert DropNA([Full(0)]) == [Full(0)];
  }

  /** A table of one reading resamples to that reading, moved to its bin start. */
  lemma SingleReadingBin(r: Row)
    ensures ResampleWhole(Sampling, [r]) == [r.(time := Bucket(r.time))]
  {
    var rows, b := [r], Bucket(r.time);
    assert MinTime(rows) == r.time == MaxTime(rows);
    GridAt(Sampling, rows, b, 1);
    assert InBucket(rows, b) == [r] by {
      assert rows[1..] == [];
    }
    SamplingSingle(rows, b, r);
  }
}
