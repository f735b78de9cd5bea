/** `read_data_from_files` (src/data/make_dataset.py, lines 13-58): every recording file is
    tagged from its name; a file whose name contains "Accelerometer" gets the next
    accelerometer set number and its rows are appended to the accelerometer table, and
    independently a file whose name contains "Gyroscope" gets the next gyroscope set number
    and its rows are appended to the gyroscope table. Reading the CSV is not modelled: each
    file arrives with its rows. */
module Ingest {
  import opened Results
  import opened PyStr
  import opened FileNames

  datatype Sensor = Accelerometer | Gyroscope

  /** The substring of a file name that selects a sensor's table. */
  function Marker(s: Sensor): string
  {
    match s
    case Accelerometer => "Accelerometer"
    case Gyroscope => "Gyroscope"
  }

  /** One row of a MetaMotion CSV export: "epoch (ms)", "time (01:00)", "elapsed (s)" and the
      three axes. */
  datatype RawRow = RawRow(epochMs: int, clock: string, elapsed: real, x: real, y: real, z: real)

  datatype RawFile = RawFile(name: string, rows: seq<RawRow>)

  /** A row of a sensor table: the epoch milliseconds are the index, the three raw time
      columns are deleted, and the file's tag and set number are attached. */
  datatype SensorRow = SensorRow(time: int, x: real, y: real, z: real,
                                 participant: string, exercise: string, category: string, setNumber: int)

  /** The rows of one file, indexed by their epoch and tagged (lines 28-30, 34 or 39, 45-56). */
  function TagRows(rows: seq<RawRow>, tag: Tag, setNumber: int): (t: seq<SensorRow>)
    ensures |t| == |rows|
    ensures forall i :: 0 <= i < |t| ==>
      t[i].time == rows[i].epochMs && t[i].x == rows[i].x && t[i].y == rows[i].y && t[i].z == rows[i].z
    ensures forall r :: r in t ==>
      r.participant == tag.participant && r.exercise == tag.exercise &&
      r.category == tag.category && r.setNumber == setNumber
  {
    seq(|rows|, i requires 0 <= i < |rows| =>
      SensorRow(rows[i].epochMs, rows[i].x, rows[i].y, rows[i].z,
                tag.participant, tag.exercise, tag.category, setNumber))
  }

  /** What the loop body learns from a file before touching the tables: its tag and which
      of the two markers its name contains. */
  datatype Classified = Classified(tag: Tag, isAcc: bool, isGyr: bool, rows: seq<RawRow>)

  /** Lines 22-24 and the two membership tests of lines 33 and 38. */
  function Classify(f: RawFile): (r: Result<Classified>)
    ensures r.Success? <==> |Split(f.name, '-')| >= 3
    ensures r.Failure? ==> r.error == MalformedName(f.name)
    ensures r.Success? ==> r.value.rows == f.rows
  {
    var tag :- ParseTag(f.name);
    Success(Classified(tag, Contains(f.name, Marker(Accelerometer)), Contains(f.name, Marker(Gyroscope)), f.rows))
  }

  /** The loop's state: the next set number of each sensor and the two growing tables. */
  datatype Progress = Progress(accSet: int, gyrSet: int, acc: seq<SensorRow>, gyr: seq<SensorRow>)

  const Start := Progress(1, 1, [], [])

  /** The two independent `if`s of lines 33-41. */
  function Apply(p: Progress, c: Classified): (q: Progress)
    ensures q.accSet == p.accSet + (if c.isAcc then 1 else 0)
    ensures q.gyrSet == p.gyrSet + (if c.isGyr then 1 else 0)
    ensures p.acc <= q.acc && p.gyr <= q.gyr
    ensures |q.acc| == |p.acc| + (if c.isAcc then |c.rows| else 0)
    ensures |q.gyr| == |p.gyr| + (if c.isGyr then |c.rows| else 0)
    ensures forall r :: r in q.acc[|p.acc|..] ==> r.setNumber == p.accSet
    ensures forall r :: r in q.gyr[|p.gyr|..] ==> r.setNumber == p.gyrSet
  {
    var p1 := if c.isAcc then p.(acc := p.acc + TagRows(c.rows, c.tag, p.accSet), accSet := p.accSet + 1)
              else p;
    if c.isGyr then p1.(gyr := p1.gyr + TagRows(c.rows, c.tag, p1.gyrSet), gyrSet := p1.gyrSet + 1)
    else p1
  }

  /** One iteration of the loop (lines 20-41). */
  function Step(p: Progress, f: RawFile): (r: Result<Progress>)
    ensures r.Success? <==> |Split(f.name, '-')| >= 3
    ensures r.Failure? ==> r.error == MalformedName(f.name)
    ensures r.Success? ==> p.acc <= r.value.acc && p.gyr <= r.value.gyr
    ensures r.Success? ==> p.accSet <= r.value.accSet <= p.accSet + 1 && p.gyrSet <= r.value.gyrSet <= p.gyrSet + 1
  {
    var c :- Classify(f);
    Success(Apply(p, c))
  }

  /** The loop over the remaining files, from state `p`. */
  function Run(p: Progress, files: seq<RawFile>): (r: Result<Progress>)
    ensures r.Success? <==> forall i :: 0 <= i < |files| ==> |Split(files[i].name, '-')| >= 3
    ensures r.Success? ==> p.acc <= r.value.acc && p.gyr <= r.value.gyr
    ensures r.Success? ==> p.accSet <= r.value.accSet <= p.accSet + |files|
    ensures r.Success? ==> p.gyrSet <= r.value.gyrSet <= p.gyrSet + |files|
    decreases |files|
  {
    if files == [] then Success(p)
    else
      var p' :- Step(p, files[0]);
      Run(p', files[1..])
  }

  /** The two tables `read_data_from_files` returns, or the exception it raises: an IndexError
      from a malformed name, a NameError when there is no file at all (line 43), a KeyError
      when no file of a sensor was seen and its table has no "epoch (ms)" column (45-46). */
  datatype Tables = Tables(acc: seq<SensorRow>, gyr: seq<SensorRow>)

  function Ingest(files: seq<RawFile>): (r: Result<Tables>)
    ensures files == [] ==> r == Failure(NoFiles)
    ensures r.Success? ==> forall i :: 0 <= i < |files| ==> |Split(files[i].name, '-')| >= 3
  {
    var p :- Run(Start, files);
    if files == [] then Failure(NoFiles)
    else if p.accSet == 1 then Failure(NoSensorFiles(Marker(Accelerometer)))
    else if p.gyrSet == 1 then Failure(NoSensorFiles(Marker(Gyroscope)))
    else Success(Tables(p.acc, p.gyr))
  }

  /** The loop from file `i` on: one step, then the rest. */
  lemma RunAt(p: Progress, files: seq<RawFile>, i: int)
    requires 0 <= i < |files|
    ensures Run(p, files[i..]) == match Step(p, files[i])
      case Success(q) => Run(q, files[i + 1..])
      case Failure(e) => Failure(e)
  {
    assert files[i..][0] == files[i] && files[i..][1..] == files[i + 1..];
  }

  /** The step for a name with fewer than three fields raises. */
  lemma StepMalformed(p: Progress, f: RawFile)
    requires |Split(f.name, '-')| < 3
    ensures Step(p, f) == Failure(MalformedName(f.name))
  {
  }

  /** A name with three fields or more is classified by its first three fields and the two
      markers. */
  lemma ClassifyWellFormed(f: RawFile)
    requires |Split(f.name, '-')| >= 3
    ensures var fields := Split(f.name, '-');
      Classify(f) == Success(Classified(Tag(ParticipantOf(fields[0]), fields[1], CategoryOf(fields[2])),
                                        Contains(f.name, "Accelerometer"), Contains(f.name, "Gyroscope"), f.rows))
  {
  }

  /** One pass of the loop extends the classified prefix by one file. */
  lemma LoopStep(files: seq<RawFile>, i: int, done: seq<Classified>, c: Classified)
    requires 0 <= i < |files|
    requires ClassifyAll(files[..i]) == Success(done) && Classify(files[i]) == Success(c)
    ensures ClassifyAll(files[..i + 1]) == Success(done + [c])
  {
    TakeSnoc(files, i);
    ClassifyAllSnoc(files[..i], files[i]);
  }

  /** One more file in closed form is one more pass of the loop body. */
  lemma AfterSnoc(p: Progress, done: seq<Classified>, c: Classified)
    ensures After(p, done + [c]) == Apply(After(p, done), c)
  {
    ApplyAfter(After(p, done), c);
    AfterAppend(p, done, [c]);
  }

  /** The loop invariant survives one well-formed file. */
  lemma InvariantStep(files: seq<RawFile>, i: int, q: Progress, done: seq<Classified>, c: Classified)
    requires 0 <= i < |files|
    requires Run(Start, files) == Run(q, files[i..])
    requires ClassifyAll(files[..i]) == Success(done) && q == After(Start, done)
    requires Classify(files[i]) == Success(c)
    ensures Run(Start, files) == Run(Apply(q, c), files[i + 1..])
    ensures ClassifyAll(files[..i + 1]) == Success(done + [c])
    ensures Apply(q, c) == After(Start, done + [c])
  {
    RunAt(q, files, i);
    LoopStep(files, i, done, c);
    AfterSnoc(Start, done, c);
  }

  /** The body of the loop once the file is tagged (lines 33-41): a file whose name holds a
      sensor's marker is appended to that sensor's table with the sensor's next set number. */
  method AddFile(f: RawFile, tag: Tag, accSet: int, gyrSet: int, accDf: seq<SensorRow>, gyrDf: seq<SensorRow>)
    returns (accSet': int, gyrSet': int, accDf': seq<SensorRow>, gyrDf': seq<SensorRow>)
    ensures Progress(accSet', gyrSet', accDf', gyrDf') ==
      Apply(Progress(accSet, gyrSet, accDf, gyrDf),
            Classified(tag, Contains(f.name, "Accelerometer"), Contains(f.name, "Gyroscope"), f.rows))
  {
    accSet', gyrSet', accDf', gyrDf' := accSet, gyrSet, accDf, gyrDf;
    if Contains(f.name, "Accelerometer") {
      accDf' := accDf' + TagRows(f.rows, tag, accSet');
      accSet' := accSet' + 1;
    }
    if Contains(f.name, "Gyroscope") {
      gyrDf' := gyrDf' + TagRows(f.rows, tag, gyrSet');
      gyrSet' := gyrSet' + 1;
    }
  }

  /** The loop of lines 13-58 as it runs: two counters and two tables updated file by file. */
  method ReadDataFromFiles(files: seq<RawFile>) returns (r: Result<Tables>)
    ensures r == Ingest(files)
  {
    var accSet, gyrSet := 1, 1;
    var accDf: seq<SensorRow>, gyrDf: seq<SensorRow> := [], [];
    ghost var done: seq<Classified> := [];
    ghost var p := Start;
    var i := 0;
    while i < |files|
      invariant 0 <= i <= |files|
      invariant p == Progress(accSet, gyrSet, accDf, gyrDf)
      invariant Run(Start, files) == Run(p, files[i..])
      invariant ClassifyAll(files[..i]) == Success(done) && p == After(Start, done)
    {
      var f := files[i];
      var fields := Split(f.name, '-');
      if |fields| < 3 {
        RunAt(p, files, i);
        StepMalformed(p, f);
        return Failure(MalformedName(f.name));
      }
      var tag := Tag(ParticipantOf(fields[0]), fields[1], CategoryOf(fields[2]));
      ghost var c := Classified(tag, Contains(f.name, "Accelerometer"), Contains(f.name, "Gyroscope"), f.rows);
      accSet, gyrSet, accDf, gyrDf := AddFile(f, tag, accSet, gyrSet, accDf, gyrDf);
      assert Classify(f) == Success(c) by {
        ClassifyWellFormed(f);
      }
      InvariantStep(files, i, p, done, c);
      p, done := Apply(p, c), done + [c];
      i := i + 1;
    }
    assert files[i..] == [];
    if |files| == 0 {
      return Failure(NoFiles);
    }
    if accSet == 1 {
      return Failure(NoSensorFiles("Accelerometer"));
    }
    if gyrSet == 1 {
      return Failure(NoSensorFiles("Gyroscope"));
    }
    return Success(Tables(accDf, gyrDf));
  }

  // ---------------------------------------------------------------------------------------
  // A reference definition: the k-th file of a sensor, in processing order, gets set k.

  /** Whether a classified file goes to sensor `s`'s table. */
  predicate Selects(c: Classified, s: Sensor)
  {
    match s
    case Accelerometer => c.isAcc
    case Gyroscope => c.isGyr
  }

  /** The files of sensor `s`, in processing order. */
  function Picked(cs: seq<Classified>, s: Sensor): (ps: seq<Classified>)
    ensures |ps| <= |cs|
  {
    if cs == [] then []
    else (if Selects(cs[0], s) then [cs[0]] else []) + Picked(cs[1..], s)
  }

  /** A sensor's files are exactly the files that select it. */
  lemma {:induction false} PickedMembers(cs: seq<Classified>, s: Sensor)
    ensures forall c :: c in Picked(cs, s) <==> c in cs && Selects(c, s)
  {
    if cs != [] {
      PickedMembers(cs[1..], s);
      assert forall c :: c in cs <==> c == cs[0] || c in cs[1..];
    }
  }

  /** The tagged rows of `cs`, the first file numbered `first`, the next `first + 1`, and so on. */
  function Numbered(cs: seq<Classified>, first: int): seq<SensorRow>
  {
    if cs == [] then []
    else TagRows(cs[0].rows, cs[0].tag, first) + Numbered(cs[1..], first + 1)
  }

  /** The state after the files `cs`, from state `p`, in closed form: each counter advanced
      once per file of its sensor, each table extended by that sensor's files numbered on
      from the counter's value in `p`. */
  function After(p: Progress, cs: seq<Classified>): Progress
  {
    var accFiles, gyrFiles := Picked(cs, Accelerometer), Picked(cs, Gyroscope);
    Progress(p.accSet + |accFiles|, p.gyrSet + |gyrFiles|,
             p.acc + Numbered(accFiles, p.accSet), p.gyr + Numbered(gyrFiles, p.gyrSet))
  }

  /** Every file classified, or the error of the first whose name is malformed. */
  function ClassifyAll(files: seq<RawFile>): Result<seq<Classified>>
    decreases |files|
  {
    if files == [] then Success([])
    else
      var c :- Classify(files[0]);
      var cs :- ClassifyAll(files[1..]);
      Success([c] + cs)
  }

  lemma {:induction false} PickedAppend(a: seq<Classified>, b: seq<Classified>, s: Sensor)
    ensures Picked(a + b, s) == Picked(a, s) + Picked(b, s)
  {
    if a == [] {
      assert a + b == b;
    } else {
      assert (a + b)[0] == a[0];
      assert (a + b)[1..] == a[1..] + b;
      PickedAppend(a[1..], b, s);
    }
  }

  lemma {:induction false} NumberedAppend(a: seq<Classified>, b: seq<Classified>, first: int)
    ensures Numbered(a + b, first) == Numbered(a, first) + Numbered(b, first + |a|)
  {
    if a == [] {
      assert a + b == b;
    } else {
      assert (a + b)[0] == a[0];
      assert (a + b)[1..] == a[1..] + b;
      NumberedAppend(a[1..], b, first + 1);
    }
  }

  /** One pass of the loop body is the closed form for a single file. */
  lemma ApplyAfter(p: Progress, c: Classified)
    ensures Apply(p, c) == After(p, [c])
  {
    assert [c][1..] == [];
    assert Numbered([c], p.accSet) == TagRows(c.rows, c.tag, p.accSet);
    assert Numbered([c], p.gyrSet) == TagRows(c.rows, c.tag, p.gyrSet);
  }

  /** Extending a table by two numbered stretches is extending it by their concatenation. */
  lemma TableAppend(t: seq<SensorRow>, a: seq<Classified>, b: seq<Classified>, first: int)
    ensures (t + Numbered(a, first)) + Numbered(b, first + |a|) == t + Numbered(a + b, first)
  {
    NumberedAppend(a, b, first);
  }

  /** The closed form of two stretches of files composes. */
  lemma AfterAppend(p: Progress, a: seq<Classified>, b: seq<Classified>)
    ensures After(After(p, a), b) == After(p, a + b)
  {
    var q := After(p, a);
    PickedAppend(a, b, Accelerometer);
    PickedAppend(a, b, Gyroscope);
    TableAppend(p.acc, Picked(a, Accelerometer), Picked(b, Accelerometer), p.accSet);
    TableAppend(p.gyr, Picked(a, Gyroscope), Picked(b, Gyroscope), p.gyrSet);
    assert After(q, b).acc == After(p, a + b).acc;
    assert After(q, b).gyr == After(p, a + b).gyr;
  }

  /** The loop reaches the closed-form state over the classified files, or stops with the
      first malformed name's error. */
  lemma {:induction false} RunClosedForm(p: Progress, files: seq<RawFile>)
    ensures Run(p, files) == match ClassifyAll(files)
      case Success(cs) => Success(After(p, cs))
      case Failure(e) => Failure(e)
    decreases |files|
  {
    if files == [] {
      assert After(p, []) == p;
    } else {
      match Classify(files[0])
      case Failure(_) =>
      case Success(c) =>
        ApplyAfter(p, c);
        RunClosedForm(Apply(p, c), files[1..]);
        match ClassifyAll(files[1..])
        case Failure(_) =>
        case Success(cs) =>
          AfterAppend(p, [c], cs);
    }
  }

  /** `read_data_from_files` in closed form: the error of the first malformed name, the
      NameError of an empty file list, the KeyError of a sensor without files, or each
      sensor's files numbered from 1 in processing order. */
  lemma IngestClosedForm(files: seq<RawFile>)
    ensures Ingest(files) == match ClassifyAll(files)
      case Failure(e) => Failure(e)
      case Success(cs) =>
        if files == [] then Failure(NoFiles)
        else if Picked(cs, Accelerometer) == [] then Failure(NoSensorFiles("Accelerometer"))
        else if Picked(cs, Gyroscope) == [] then Failure(NoSensorFiles("Gyroscope"))
        else Success(Tables(Numbered(Picked(cs, Accelerometer), 1), Numbered(Picked(cs, Gyroscope), 1)))
  {
    RunClosedForm(Start, files);
    match ClassifyAll(files)
    case Failure(_) =>
    case Success(cs) =>
      assert Run(Start, files) == Success(After(Start, cs));
      AfterStart(cs);
  }

  /** From the loop's initial state, each sensor's files are numbered from 1. */
  lemma AfterStart(cs: seq<Classified>)
    ensures After(Start, cs) == Progress(1 + |Picked(cs, Accelerometer)|, 1 + |Picked(cs, Gyroscope)|,
                                         Numbered(Picked(cs, Accelerometer), 1), Numbered(Picked(cs, Gyroscope), 1))
  {
    var acc, gyr := Numbered(Picked(cs, Accelerometer), 1), Numbered(Picked(cs, Gyroscope), 1);
    assert [] + acc == acc && [] + gyr == gyr;
  }

  /** Classification succeeds exactly when every name has three fields. */
  lemma {:induction false} ClassifyAllSuccess(files: seq<RawFile>)
    ensures ClassifyAll(files).Success? <==> forall i :: 0 <= i < |files| ==> Classify(files[i]).Success?
    decreases |files|
  {
    if files != [] {
      var rest := files[1..];
      ClassifyAllSuccess(rest);
      ClassifyAllCons(files);
      if ClassifyAll(files).Success? {
        forall i | 0 <= i < |files| ensures Classify(files[i]).Success? {
          if i > 0 {
            TailAt(files, i);
          }
        }
      } else if Classify(files[0]).Success? {
        var i :| 0 <= i < |rest| && !Classify(rest[i]).Success?;
        TailAt(files, i + 1);
      }
    }
  }

  /** A successful classification classifies each file in place. */
  lemma {:induction false} ClassifyAllValues(files: seq<RawFile>)
    requires ClassifyAll(files).Success?
    ensures |ClassifyAll(files).value| == |files|
    ensures forall i :: 0 <= i < |files| ==> Classify(files[i]) == Success(ClassifyAll(files).value[i])
    decreases |files|
  {
    if files != [] {
      var rest := files[1..];
      ClassifyAllCons(files);
      ClassifyAllValues(rest);
      var out, head, tail := ClassifyAll(files).value, Classify(files[0]).value, ClassifyAll(rest).value;
      assert out == [head] + tail;
      forall i | 0 <= i < |files| ensures Classify(files[i]) == Success(out[i]) {
        if i == 0 {
          assert out[0] == head;
        } else {
          TailAt(files, i);
          ConsAt(out, head, tail, i);
        }
      }
    }
  }

  /** File `i` is the first whose name has fewer than three fields. */
  predicate FirstMalformedAt(files: seq<RawFile>, i: int)
  {
    0 <= i < |files| && ParseTag(files[i].name).Failure? &&
    forall j :: 0 <= j < i ==> ParseTag(files[j].name).Success?
  }

  /** When classification fails, it fails with the IndexError of the first malformed name. */
  lemma {:induction false} ClassifyAllFailure(files: seq<RawFile>)
    requires ClassifyAll(files).Failure?
    ensures exists i :: FirstMalformedAt(files, i) && ClassifyAll(files).error == MalformedName(files[i].name)
    decreases |files|
  {
    if ParseTag(files[0].name).Failure? {
      assert FirstMalformedAt(files, 0);
    } else {
      ClassifyAllFailure(files[1..]);
      var i :| FirstMalformedAt(files[1..], i) && ClassifyAll(files[1..]).error == MalformedName(files[1..][i].name);
      assert forall j :: 1 <= j < i + 1 ==> files[j] == files[1..][j - 1];
      assert FirstMalformedAt(files, i + 1);
    }
  }

  lemma ClassifyOne(f: RawFile)
    requires Classify(f).Success?
    ensures ClassifyAll([f]) == Success([Classify(f).value])
  {
    assert [f][1..] == [];
    assert ClassifyAll([f][1..]) == Success([]);
    assert [Classify(f).value] + [] == [Classify(f).value];
  }

  lemma ClassifyAllCons(files: seq<RawFile>)
    requires files != []
    ensures ClassifyAll(files) == match Classify(files[0])
      case Failure(e) => Failure(e)
      case Success(c) => match ClassifyAll(files[1..])
        case Failure(e) => Failure(e)
        case Success(cs) => Success([c] + cs)
  {
  }

  /** Classifying one more file extends the classified prefix. */
  lemma {:induction false} ClassifyAllSnoc(files: seq<RawFile>, f: RawFile)
    requires ClassifyAll(files).Success? && Classify(f).Success?
    ensures ClassifyAll(files + [f]) == Success(ClassifyAll(files).value + [Classify(f).value])
    decreases |files|
  {
    if files == [] {
      assert files + [f] == [f];
      assert ClassifyAll(files).value + [Classify(f).value] == [Classify(f).value];
      ClassifyOne(f);
    } else {
      ClassifyAllCons(files);
      var c0, rest, cf := Classify(files[0]).value, ClassifyAll(files[1..]).value, Classify(f).value;
      ClassifyAllSnoc(files[1..], f);
      ClassifyAllConsSnoc(files, f, c0, rest + [cf]);
      assert [c0] + (rest + [cf]) == ([c0] + rest) + [cf];
    }
  }

  /** Classifying `files + [f]` classifies the first file, then the rest and `f`. */
  lemma ClassifyAllConsSnoc(files: seq<RawFile>, f: RawFile, c0: Classified, tail: seq<Classified>)
    requires files != [] && Classify(files[0]) == Success(c0)
    requires ClassifyAll(files[1..] + [f]) == Success(tail)
    ensures ClassifyAll(files + [f]) == Success([c0] + tail)
  {
    var g := files + [f];
    TailSnoc(files, f);
    ClassifyAllCons(g);
  }

  /** The first `i + 1` elements are the first `i` and element `i`. */
  lemma TakeSnoc<T>(s: seq<T>, i: int)
    requires 0 <= i < |s|
    ensures s[..i + 1] == s[..i] + [s[i]]
  {
  }

  /** Element `i > 0` of a list is element `i - 1` of its tail. */
  lemma TailAt<T>(s: seq<T>, i: int)
    requires 0 < i < |s|
    ensures s[i] == s[1..][i - 1]
  {
  }

  /** Element `i > 0` of `[x] + t` is element `i - 1` of `t`. */
  lemma ConsAt<T>(s: seq<T>, x: T, t: seq<T>, i: int)
    requires s == [x] + t && 0 < i < |s|
    ensures s[i] == t[i - 1]
  {
  }

  /** Appending after a non-empty list keeps its head and appends after its tail. */
  lemma TailSnoc<T>(s: seq<T>, x: T)
    requires s != []
    ensures (s + [x])[0] == s[0] && (s + [x])[1..] == s[1..] + [x]
  {
  }

  /** The rows of the `k`-th file of a numbered list carry set number `first + k`, between
      the rows of the files before it and those after it. */
  lemma {:induction false} NumberedAt(cs: seq<Classified>, first: int, k: int)
    requires 0 <= k < |cs|
    ensures Numbered(cs, first) ==
      Numbered(cs[..k], first) + TagRows(cs[k].rows, cs[k].tag, first + k) + Numbered(cs[k + 1..], first + k + 1)
  {
    assert cs == cs[..k] + cs[k..];
    NumberedAppend(cs[..k], cs[k..], first);
    assert cs[k..][0] == cs[k] && cs[k..][1..] == cs[k + 1..];
  }

  /** Row `r` carries the tag of file `c` and set number `setNumber`. */
  predicate FromFile(r: SensorRow, c: Classified, setNumber: int)
  {
    r.setNumber == setNumber && r.participant == c.tag.participant &&
    r.exercise == c.tag.exercise && r.category == c.tag.category
  }

  /** Numbering from `first` uses exactly the set numbers `first` .. `first + |cs| - 1`, one
      per file whatever its number of rows, and each row carries its own file's tag. */
  lemma {:induction false} NumberedSets(cs: seq<Classified>, first: int)
    ensures forall r :: r in Numbered(cs, first) ==> first <= r.setNumber < first + |cs|
    ensures forall r :: r in Numbered(cs, first) ==> exists k :: 0 <= k < |cs| && FromFile(r, cs[k], first + k)
    decreases |cs|
  {
    if cs != [] {
      NumberedSets(cs[1..], first + 1);
      forall r | r in Numbered(cs, first)
        ensures exists k :: 0 <= k < |cs| && FromFile(r, cs[k], first + k)
      {
        if r in TagRows(cs[0].rows, cs[0].tag, first) {
          assert FromFile(r, cs[0], first);
        } else {
          var k :| 0 <= k < |cs[1..]| && FromFile(r, cs[1..][k], first + 1 + k);
          assert FromFile(r, cs[k + 1], first + (k + 1));
        }
      }
    }
  }

  /** A sensor's table is built from that sensor's files alone: dropping every other file
      changes neither its counter nor its rows. */
  lemma {:induction false} PickedPicked(cs: seq<Classified>, s: Sensor)
    ensures Picked(Picked(cs, s), s) == Picked(cs, s)
  {
    if cs != [] {
      PickedPicked(cs[1..], s);
      if Selects(cs[0], s) {
        var ps := Picked(cs[1..], s);
        assert Picked(cs, s) == [cs[0]] + ps;
        assert ([cs[0]] + ps)[0] == cs[0] && ([cs[0]] + ps)[1..] == ps;
        assert Picked([cs[0]] + ps, s) == [cs[0]] + Picked(ps, s);
      } else {
        assert Picked(cs, s) == [] + Picked(cs[1..], s) == Picked(cs[1..], s);
      }
    }
  }

  lemma AccIgnoresOtherFiles(p: Progress, cs: seq<Classified>)
    ensures After(p, cs).acc == After(p, Picked(cs, Accelerometer)).acc
    ensures After(p, cs).accSet == After(p, Picked(cs, Accelerometer)).accSet
  {
    PickedPicked(cs, Accelerometer);
  }

  lemma GyrIgnoresOtherFiles(p: Progress, cs: seq<Classified>)
    ensures After(p, cs).gyr == After(p, Picked(cs, Gyroscope)).gyr
    ensures After(p, cs).gyrSet == After(p, Picked(cs, Gyroscope)).gyrSet
  {
    PickedPicked(cs, Gyroscope);
  }

  /** A file of neither sensor changes nothing; a file of both is appended to both tables,
      each with its own sensor's next set number. */
  lemma ApplyNeither(p: Progress, c: Classified)
    requires !c.isAcc && !c.isGyr
    ensures Apply(p, c) == p
  {
  }

  lemma ApplyBoth(p: Progress, c: Classified)
    requires c.isAcc && c.isGyr
    ensures Apply(p, c) == Progress(p.accSet + 1, p.gyrSet + 1,
      p.acc + TagRows(c.rows, c.tag, p.accSet), p.gyr + TagRows(c.rows, c.tag, p.gyrSet))
  {
  }
}
