/** The merged table of src/data/make_dataset.py (lines 76-93): one row per timestamp with
    the ten columns acc_x, acc_y, acc_z, gyr_x, gyr_y, gyr_z, participant, label, category,
    set. A missing cell (NaN in pandas) is `None`. The `set` column holds numbers that
    pandas stores as floats once a missing value has entered it, so it is a real here. */
module Frame {
  import opened Results

  datatype Row = Row(time: int,
                     accX: Option<real>, accY: Option<real>, accZ: Option<real>,
                     gyrX: Option<real>, gyrY: Option<real>, gyrZ: Option<real>,
                     participant: Option<string>, exercise: Option<string>, category: Option<string>,
                     setNumber: Option<real>)

  /** The column names assigned at lines 82-93, in order. */
  const MergedColumns: seq<string> :=
    ["acc_x", "acc_y", "acc_z", "gyr_x", "gyr_y", "gyr_z", "participant", "label", "category", "set"]

  /** A cell of a table: a number or a text, either possibly missing. */
  datatype Cell = Num(num: Option<real>) | Text(text: Option<string>)

  /** The cells of a row in column order. */
  function Cells(r: Row): (cs: seq<Cell>)
    ensures |cs| == |MergedColumns|
  {
    [Num(r.accX), Num(r.accY), Num(r.accZ), Num(r.gyrX), Num(r.gyrY), Num(r.gyrZ),
     Text(r.participant), Text(r.exercise), Text(r.category), Num(r.setNumber)]
  }

  predicate Present(c: Cell)
  {
    match c
    case Num(v) => v.Some?
    case Text(v) => v.Some?
  }

  /** No cell of the row is missing: the rows `dropna()` keeps. */
  predicate Complete(r: Row)
  {
    && r.accX.Some? && r.accY.Some? && r.accZ.Some?
    && r.gyrX.Some? && r.gyrY.Some? && r.gyrZ.Some?
    && r.participant.Some? && r.exercise.Some? && r.category.Some? && r.setNumber.Some?
  }

  /** A complete row is one whose every column has a value. */
  lemma CompleteCells(r: Row)
    ensures Complete(r) <==> forall i :: 0 <= i < |Cells(r)| ==> Present(Cells(r)[i])
  {
    var cs := Cells(r);
    if forall i :: 0 <= i < |cs| ==> Present(cs[i]) {
      assert Present(cs[0]) && Present(cs[1]) && Present(cs[2]) && Present(cs[3]) && Present(cs[4]);
      assert Present(cs[5]) && Present(cs[6]) && Present(cs[7]) && Present(cs[8]) && Present(cs[9]);
    }
  }

  /** What `dropna()` keeps of one row. */
  function Keep(r: Row): seq<Row>
  {
    if Complete(r) then [r] else []
  }

  /** `dropna()`: the complete rows, in their order. */
  function DropNA(rows: seq<Row>): (kept: seq<Row>)
    ensures |kept| <= |rows|
  {
    if rows == [] then [] else Keep(rows[0]) + DropNA(rows[1..])
  }

  /** `dropna()` keeps exactly the complete rows. */
  lemma {:induction false} DropNAMembers(rows: seq<Row>)
    ensures forall r :: r in DropNA(rows) <==> r in rows && Complete(r)
  {
    if rows != [] {
      DropNAMembers(rows[1..]);
      assert forall r :: r in rows <==> r == rows[0] || r in rows[1..];
    }
  }

  lemma {:induction false} DropNAAppend(a: seq<Row>, b: seq<Row>)
    ensures DropNA(a + b) == DropNA(a) + DropNA(b)
  {
    if a == [] {
      assert a + b == b;
    } else {
      assert (a + b)[0] == a[0];
      assert (a + b)[1..] == a[1..] + b;
      DropNAAppend(a[1..], b);
    }
  }

  /** Dropping is idempotent, and a table without missing cells is kept whole. */
  lemma {:induction false} DropNAKeepsComplete(rows: seq<Row>)
    requires forall i :: 0 <= i < |rows| ==> Complete(rows[i])
    ensures DropNA(rows) == rows
  {
    if rows != [] {
      DropNAKeepsComplete(rows[1..]);
      assert [rows[0]] + rows[1..] == rows;
    }
  }

  lemma {:induction false} DropNAIdempotent(rows: seq<Row>)
    ensures DropNA(DropNA(rows)) == DropNA(rows)
  {
    var kept := DropNA(rows);
    DropNAMembers(rows);
    forall i | 0 <= i < |kept| ensures Complete(kept[i]) {
      assert kept[i] in kept;
    }
    DropNAKeepsComplete(kept);
  }
}
