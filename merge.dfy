/** The merge of lines 76-93 of src/data/make_dataset.py:
    `pd.concat([acc_df.iloc[:, :3], gyr_df], axis=1)` puts the three accelerometer axes
    beside the seven gyroscope columns, aligned on the timestamp index, and the ten
    columns are then renamed. pandas first builds the index both tables are aligned on:
    - the accelerometer's own index when the two indexes are equal (same timestamps in the
      same order) or the gyroscope's is empty, and the gyroscope's when the accelerometer's
      is empty;
    - otherwise the union of the two, sorted by time (both are datetime indexes, and pandas
      sorts the union of datetime indexes), each timestamp kept as many times as the index
      that repeats it most.
    A table whose index is that union is taken row by row. Any other table is reindexed: its
    row at each timestamp of the union is looked up, missing when it has none, and a table
    with a repeated timestamp cannot be reindexed (InvalidIndexError).
    The result of `data_merged.dropna()` at line 77 is not assigned, so the merged table
    keeps its rows with missing cells. */
module Merge {
  import opened Results
  import opened Ingest
  import opened Frame

  /** The seven columns a sensor table has after lines 49-56, in order: the three axes,
      participant, label, category and set. */
  function SensorCells(r: SensorRow): (cs: seq<Cell>)
    ensures |cs| == 7
  {
    [Num(Some(r.x)), Num(Some(r.y)), Num(Some(r.z)),
     Text(Some(r.participant)), Text(Some(r.exercise)), Text(Some(r.category)), Num(Some(r.setNumber as real))]
  }

  /** The merged row at timestamp `t` from the accelerometer row and the gyroscope row that
      have it, if any. */
  function Combine(t: int, a: Option<SensorRow>, g: Option<SensorRow>): (r: Row)
    ensures r.time == t
    ensures (r.accX.Some? <==> a.Some?) && (r.accY.Some? <==> a.Some?) && (r.accZ.Some? <==> a.Some?)
    ensures (r.gyrX.Some? <==> g.Some?) && (r.gyrY.Some? <==> g.Some?) && (r.gyrZ.Some? <==> g.Some?)
    ensures (r.participant.Some? <==> g.Some?) && (r.exercise.Some? <==> g.Some?)
    ensures (r.category.Some? <==> g.Some?) && (r.setNumber.Some? <==> g.Some?)
  {
    Row(t,
        if a.Some? then Some(a.value.x) else None,
        if a.Some? then Some(a.value.y) else None,
        if a.Some? then Some(a.value.z) else None,
        if g.Some? then Some(g.value.x) else None,
        if g.Some? then Some(g.value.y) else None,
        if g.Some? then Some(g.value.z) else None,
        if g.Some? then Some(g.value.participant) else None,
        if g.Some? then Some(g.value.exercise) else None,
        if g.Some? then Some(g.value.category) else None,
        if g.Some? then Some(g.value.setNumber as real) else None)
  }

  /** The index of a sensor table. */
  function Times(rows: seq<SensorRow>): (ts: seq<int>)
    ensures |ts| == |rows| && forall i :: 0 <= i < |rows| ==> ts[i] == rows[i].time
  {
    seq(|rows|, i requires 0 <= i < |rows| => rows[i].time)
  }

  predicate Distinct(ts: seq<int>)
  {
    forall i, j :: 0 <= i < j < |ts| ==> ts[i] != ts[j]
  }

  /** The row of `rows` at timestamp `t`, if any (the first one). */
  function Find(rows: seq<SensorRow>, t: int): (r: Option<SensorRow>)
    ensures r.Some? <==> t in Times(rows)
    ensures r.Some? ==> r.value in rows && r.value.time == t
  {
    if rows == [] then None
    else if rows[0].time == t then Some(rows[0])
    else
      var r := Find(rows[1..], t);
      assert Times(rows) == [rows[0].time] + Times(rows[1..]);
      r
  }

  // ---------------------------------------------------------------------------------------
  // The index both tables are aligned on.

  predicate Ascending(ts: seq<int>)
  {
    forall i, j :: 0 <= i < j < |ts| ==> ts[i] <= ts[j]
  }

  function Max(x: nat, y: nat): nat
  {
    if x < y then y else x
  }

  /** No timestamp of an ascending index is below its first. */
  lemma BelowHead(ts: seq<int>, t: int)
    requires Ascending(ts) && ts != [] && t < ts[0]
    ensures t !in ts
  {
  }

  /** An ascending index with `t` inserted in its place. */
  function Insert(t: int, ts: seq<int>): (r: seq<int>)
    requires Ascending(ts)
    ensures Ascending(r) && multiset(r) == multiset(ts) + multiset{t}
    decreases |ts|
  {
    if ts == [] || t <= ts[0] then
      ConsAscending(t, ts);
      [t] + ts
    else
      var rest := Insert(t, ts[1..]);
      assert ts == [ts[0]] + ts[1..];
      CountedIn(rest, ts[1..] + [t]);
      ConsAscending(ts[0], rest);
      [ts[0]] + rest
  }

  /** A timestamp no greater than every timestamp of an ascending index can go before it. */
  lemma ConsAscending(x: int, ts: seq<int>)
    requires Ascending(ts)
    requires forall y :: y in ts ==> x <= y
    ensures Ascending([x] + ts)
  {
    var r := [x] + ts;
    forall i, j | 0 <= i < j < |r| ensures r[i] <= r[j] {
      assert r[j] == ts[j - 1] && ts[j - 1] in ts;
      if i > 0 {
        assert r[i] == ts[i - 1];
      }
    }
  }

  /** Two indexes holding the same timestamps as often hold the same timestamps. */
  lemma CountedIn(u: seq<int>, v: seq<int>)
    requires multiset(u) == multiset(v)
    ensures forall x :: x in u <==> x in v
  {
    forall x ensures x in u <==> x in v {
      assert x in u <==> x in multiset(u);
      assert x in v <==> x in multiset(v);
    }
  }

  /** An index sorted by time. */
  function Sort(ts: seq<int>): (r: seq<int>)
    ensures Ascending(r) && multiset(r) == multiset(ts)
  {
    if ts == [] then []
    else
      assert ts == [ts[0]] + ts[1..];
      Insert(ts[0], Sort(ts[1..]))
  }

  /** The union of two ascending indexes, ascending, each timestamp as many times as the
      index that holds it more often. */
  function UnionAscending(a: seq<int>, b: seq<int>): (u: seq<int>)
    requires Ascending(a) && Ascending(b)
    ensures Ascending(u)
    ensures forall t :: multiset(u)[t] == Max(multiset(a)[t], multiset(b)[t])
    decreases |a| + |b|
  {
    if a == [] then b
    else if b == [] then a
    else if a[0] < b[0] then
      var rest := UnionAscending(a[1..], b);
      UnionLeft(a, b, rest);
      [a[0]] + rest
    else if b[0] < a[0] then
      var rest := UnionAscending(a, b[1..]);
      UnionLeft(b, a, rest);
      [b[0]] + rest
    else
      var rest := UnionAscending(a[1..], b[1..]);
      UnionBoth(a, b, rest);
      [a[0]] + rest
  }

  /** The smaller first timestamp goes before the union of the rest. */
  lemma UnionLeft(a: seq<int>, b: seq<int>, rest: seq<int>)
    requires Ascending(a) && Ascending(b) && a != [] && b != [] && a[0] < b[0]
    requires Ascending(rest) && forall t :: multiset(rest)[t] == Max(multiset(a[1..])[t], multiset(b)[t])
    ensures Ascending([a[0]] + rest)
    ensures forall t :: multiset([a[0]] + rest)[t] == Max(multiset(a)[t], multiset(b)[t])
    ensures forall t :: multiset([a[0]] + rest)[t] == Max(multiset(b)[t], multiset(a)[t])
  {
    assert a == [a[0]] + a[1..];
    AtLeastHead(a);
    AtLeastHead(b);
    UnionMembers(rest, a[1..], b);
    ConsAscending(a[0], rest);
    BelowHead(b, a[0]);
    forall t ensures multiset([a[0]] + rest)[t] == Max(multiset(a)[t], multiset(b)[t]) {
      assert multiset([a[0]] + rest) == multiset{a[0]} + multiset(rest);
      assert multiset(a) == multiset{a[0]} + multiset(a[1..]);
      if t == a[0] {
        assert multiset(b)[t] == 0;
      }
    }
  }

  /** A first timestamp the two indexes share goes once before the union of the rest. */
  lemma UnionBoth(a: seq<int>, b: seq<int>, rest: seq<int>)
    requires Ascending(a) && Ascending(b) && a != [] && b != [] && a[0] == b[0]
    requires Ascending(rest) && forall t :: multiset(rest)[t] == Max(multiset(a[1..])[t], multiset(b[1..])[t])
    ensures Ascending([a[0]] + rest)
    ensures forall t :: multiset([a[0]] + rest)[t] == Max(multiset(a)[t], multiset(b)[t])
  {
    assert a == [a[0]] + a[1..] && b == [b[0]] + b[1..];
    AtLeastHead(a);
    AtLeastHead(b);
    UnionMembers(rest, a[1..], b[1..]);
    ConsAscending(a[0], rest);
    forall t ensures multiset([a[0]] + rest)[t] == Max(multiset(a)[t], multiset(b)[t]) {
      assert multiset([a[0]] + rest) == multiset{a[0]} + multiset(rest);
      assert multiset(a) == multiset{a[0]} + multiset(a[1..]);
      assert multiset(b) == multiset{a[0]} + multiset(b[1..]);
    }
  }

  /** Every timestamp of a non-empty ascending index is at least its first. */
  lemma AtLeastHead(ts: seq<int>)
    requires Ascending(ts) && ts != []
    ensures forall y :: y in ts ==> ts[0] <= y
  {
  }

  /** An index holding each timestamp as often as the one of `a` and `b` that holds it more
      holds exactly the timestamps of `a` and `b`. */
  lemma UnionMembers(u: seq<int>, a: seq<int>, b: seq<int>)
    requires forall t :: multiset(u)[t] == Max(multiset(a)[t], multiset(b)[t])
    ensures forall x :: x in u <==> x in a || x in b
  {
    forall x ensures x in u <==> x in a || x in b {
      assert x in u <==> x in multiset(u);
      assert x in a <==> x in multiset(a);
      assert x in b <==> x in multiset(b);
    }
  }

  /** The index `pd.concat(axis=1)` aligns the two tables on. */
  function UnionIndex(a: seq<int>, b: seq<int>): (u: seq<int>)
    ensures forall t :: multiset(u)[t] == Max(multiset(a)[t], multiset(b)[t])
    ensures forall t :: t in u <==> t in a || t in b
    ensures a != b && a != [] && b != [] ==> Ascending(u)
  {
    var u := if a == b || b == [] then a
             else if a == [] then b
             else UnionAscending(Sort(a), Sort(b));
    UnionMembers(u, a, b);
    u
  }

  /** The row of `rows` at position `i` of the index: by position when the table's index
      is the index itself, otherwise looked up by timestamp. */
  function Aligned(rows: seq<SensorRow>, index: seq<int>, i: int): (r: Option<SensorRow>)
    requires 0 <= i < |index|
    ensures r.Some? <==> index[i] in Times(rows)
    ensures r.Some? ==> r.value in rows && r.value.time == index[i]
  {
    if Times(rows) == index then Some(rows[i]) else Find(rows, index[i])
  }

  /** A table can be aligned on `index`: it is that index, or it can be reindexed because
      its timestamps are distinct. */
  predicate Alignable(ts: seq<int>, index: seq<int>)
  {
    ts == index || Distinct(ts)
  }

  /** `pd.concat([acc_df.iloc[:, :3], gyr_df], axis=1)` followed by the renaming. */
  function Merge(acc: seq<SensorRow>, gyr: seq<SensorRow>): (r: Result<seq<Row>>)
    ensures r.Failure? ==> r.error == DuplicateTimestamps
  {
    var index := UnionIndex(Times(acc), Times(gyr));
    if !Alignable(Times(acc), index) || !Alignable(Times(gyr), index) then
      Failure(DuplicateTimestamps)
    else
      Success(seq(|index|, i requires 0 <= i < |index| =>
        Combine(index[i], Aligned(acc, index, i), Aligned(gyr, index, i))))
  }

  // ---------------------------------------------------------------------------------------
  // What the merged table holds.

  /** The renamed layout: the first three columns are the accelerometer table's first three,
      the other seven are the gyroscope table's seven, in order. */
  lemma MergeLayout(t: int, a: SensorRow, g: SensorRow)
    ensures |Cells(Combine(t, Some(a), Some(g)))| == |MergedColumns| == 10
    ensures Cells(Combine(t, Some(a), Some(g))) == SensorCells(a)[..3] + SensorCells(g)
  {
  }

  /** A merged row is complete exactly when both sensors have a reading at its timestamp. */
  lemma CombineComplete(t: int, a: Option<SensorRow>, g: Option<SensorRow>)
    ensures Complete(Combine(t, a, g)) <==> a.Some? && g.Some?
  {
  }

  /** Merging fails exactly when a table with a repeated timestamp would have to be
      reindexed, because its index is not the one both tables are aligned on; two tables
      without repeated timestamps always merge, and so do two tables with equal indexes. */
  lemma MergeFails(acc: seq<SensorRow>, gyr: seq<SensorRow>)
    ensures var index := UnionIndex(Times(acc), Times(gyr));
      Merge(acc, gyr).Failure? <==>
        (!Distinct(Times(acc)) && Times(acc) != index) || (!Distinct(Times(gyr)) && Times(gyr) != index)
    ensures Distinct(Times(acc)) && Distinct(Times(gyr)) ==> Merge(acc, gyr).Success?
    ensures Times(acc) == Times(gyr) ==> Merge(acc, gyr).Success?
  {
  }

  /** The merged table has a row for every timestamp of either table and no other, in the
      order of the aligning index, and a row is complete exactly when both tables have its
      timestamp. */
  lemma MergeRows(acc: seq<SensorRow>, gyr: seq<SensorRow>)
    requires Merge(acc, gyr).Success?
    ensures var ms, index := Merge(acc, gyr).value, UnionIndex(Times(acc), Times(gyr));
      |ms| == |index| && forall i :: 0 <= i < |ms| ==> ms[i].time == index[i]
    ensures var ms := Merge(acc, gyr).value;
      forall t :: (exists i :: 0 <= i < |ms| && ms[i].time == t) <==> t in Times(acc) || t in Times(gyr)
    ensures var ms := Merge(acc, gyr).value;
      forall i :: 0 <= i < |ms| ==> (Complete(ms[i]) <==> ms[i].time in Times(acc) && ms[i].time in Times(gyr))
  {
    var ms, index := Merge(acc, gyr).value, UnionIndex(Times(acc), Times(gyr));
    forall t | t in Times(acc) || t in Times(gyr) ensures exists i :: 0 <= i < |ms| && ms[i].time == t {
      assert t in index;
      var i :| 0 <= i < |index| && index[i] == t;
      assert ms[i].time == t;
    }
    forall i | 0 <= i < |ms|
      ensures ms[i].time in Times(acc) || ms[i].time in Times(gyr)
      ensures Complete(ms[i]) <==> ms[i].time in Times(acc) && ms[i].time in Times(gyr)
    {
      assert ms[i].time == index[i] && index[i] in index;
      CombineComplete(index[i], Aligned(acc, index, i), Aligned(gyr, index, i));
    }
  }

  /** Row `i` of the merged table is aligned from position `i` of the index. */
  lemma MergeAt(acc: seq<SensorRow>, gyr: seq<SensorRow>, i: int)
    requires Merge(acc, gyr).Success?
    requires 0 <= i < |UnionIndex(Times(acc), Times(gyr))|
    ensures var index := UnionIndex(Times(acc), Times(gyr));
      |Merge(acc, gyr).value| == |index| &&
      Merge(acc, gyr).value[i] == Combine(index[i], Aligned(acc, index, i), Aligned(gyr, index, i))
  {
  }

  /** Two tables with different, non-empty indexes merge in time order: the merged rows run
      through the timestamps of both tables sorted, whatever order the files gave them. */
  lemma MergeOrder(acc: seq<SensorRow>, gyr: seq<SensorRow>)
    requires Merge(acc, gyr).Success?
    requires Times(acc) != Times(gyr) && acc != [] && gyr != []
    ensures var ms := Merge(acc, gyr).value;
      forall i, j :: 0 <= i < j < |ms| ==> ms[i].time <= ms[j].time
  {
    MergeRows(acc, gyr);
  }

  /** An accelerometer reading and two gyroscope readings, the later one at the
      accelerometer's time, merge into two rows in time order: the earlier has only
      gyroscope cells, the later is complete. */
  lemma MergeSortsUnion(acc: seq<SensorRow>, gyr: seq<SensorRow>)
    requires |acc| == 1 && |gyr| == 2 && gyr[0].time < acc[0].time == gyr[1].time
    ensures Merge(acc, gyr).Success?
    ensures var ms := Merge(acc, gyr).value;
      |ms| == 2 && ms[0].time == gyr[0].time && ms[1].time == acc[0].time && !Complete(ms[0]) && Complete(ms[1])
  {
    var t1, t2 := gyr[0].time, acc[0].time;
    SortsUnionIndex(acc, gyr);
    var index := UnionIndex(Times(acc), Times(gyr));
    MergeAt(acc, gyr, 0);
    MergeAt(acc, gyr, 1);
    CombineComplete(t1, Aligned(acc, index, 0), Aligned(gyr, index, 0));
    CombineComplete(t2, Aligned(acc, index, 1), Aligned(gyr, index, 1));
  }

  /** The indexes of that merge, and the index it aligns on. */
  lemma SortsUnionIndex(acc: seq<SensorRow>, gyr: seq<SensorRow>)
    requires |acc| == 1 && |gyr| == 2 && gyr[0].time < acc[0].time == gyr[1].time
    ensures Times(acc) == [acc[0].time] && Times(gyr) == [gyr[0].time, acc[0].time]
    ensures UnionIndex(Times(acc), Times(gyr)) == [gyr[0].time, acc[0].time]
    ensures Merge(acc, gyr).Success?
  {
    var t1, t2 := gyr[0].time, acc[0].time;
    assert Times(acc) == [t2];
    assert Times(gyr) == [t1, t2];
    SortedUnion(t1, t2);
    assert Distinct(Times(acc)) && Distinct(Times(gyr));
    MergeFails(acc, gyr);
  }

  /** The index of that merge is the two timestamps in order. */
  lemma SortedUnion(t1: int, t2: int)
    requires t1 < t2
    ensures UnionIndex([t2], [t1, t2]) == [t1, t2]
  {
    assert Sort([t2]) == [t2] by {
      assert [t2][1..] == [];
    }
    assert Sort([t1, t2]) == [t1, t2] by {
      assert [t1, t2][1..] == [t2];
    }
    assert [t1, t2][1..] == [t2];
    assert [t2][1..] == [];
    assert UnionAscending([t2], [t2]) == [t2];
  }

  /** A repeated accelerometer timestamp is aligned row by row when the union is the
      accelerometer's index, ... */
  lemma MergeRepeatedUnion(a1: SensorRow, a2: SensorRow, g: SensorRow)
    requires a1.time == a2.time == g.time
    ensures Merge([a1, a2], [g]).Success?
    ensures var ms := Merge([a1, a2], [g]).value;
      |ms| == 2 && Complete(ms[0]) && Complete(ms[1])
  {
    var acc, gyr, t := [a1, a2], [g], g.time;
    assert Times(acc) == [t, t] && Times(gyr) == [t];
    assert Sort([t]) == [t] by {
      assert [t][1..] == [];
    }
    assert Sort([t, t]) == [t, t] by {
      assert [t, t][1..] == [t];
    }
    assert UnionAscending([t, t], [t]) == [t, t] by {
      assert [t, t][1..] == [t];
      assert [t][1..] == [];
      assert UnionAscending([t], []) == [t];
    }
    var index := UnionIndex(Times(acc), Times(gyr));
    assert index == [t, t];
    var ms := Merge(acc, gyr).value;
    CombineComplete(t, Aligned(acc, index, 0), Aligned(gyr, index, 0));
    CombineComplete(t, Aligned(acc, index, 1), Aligned(gyr, index, 1));
  }

  /** ... and cannot be reindexed when the union has other timestamps. */
  lemma MergeRepeatedReindexed(a1: SensorRow, a2: SensorRow, g: SensorRow)
    requires a1.time == a2.time != g.time
    ensures Merge([a1, a2], [g]) == Failure(DuplicateTimestamps)
  {
    var acc, gyr := [a1, a2], [g];
    assert Times(acc) == [a1.time, a1.time] && Times(gyr) == [g.time];
    var index := UnionIndex(Times(acc), Times(gyr));
    assert g.time in index;
    assert !Distinct(Times(acc)) && Times(acc) != index;
  }
}
