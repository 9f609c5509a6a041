/**
 * `incremental_pipeline`: every CSV file of the input folder, chunk by chunk,
 * transformed and appended to the master file, and the rows without a
 * student identifier appended to the missing-ID file. A file on disk is an
 * `Option` of its lines: `None` when it does not exist.
 */
module Pipelines {
  import opened Wrappers
  import opened Text
  import opened FileNames
  import opened Tables
  import opened Chunks
  import opened ChunkFrames

  // ----- CSV files written with `to_csv(mode='a', header=..., index=False)` -----

  /** A line of a CSV file: the column names, or one row's cells in column order. */
  datatype Line = Header(names: seq<string>) | Record(cells: seq<Option<string>>)

  /** The data lines `to_csv` writes for a frame, one per row, in row order. */
  function Records(t: Table): (r: seq<Line>)
    requires WellFormed(t)
    ensures |r| == |t.rows|
    ensures forall j :: 0 <= j < |r| ==> r[j].Record? && |r[j].cells| == |t.columns|
    ensures forall j, i :: 0 <= j < |r| && 0 <= i < |t.columns| ==> r[j].cells[i] == t.rows[j][t.columns[i]]
  {
    seq(|t.rows|, j requires 0 <= j < |t.rows| =>
      Record(seq(|t.columns|, i requires 0 <= i < |t.columns| => t.rows[j][t.columns[i]])))
  }

  /** The row a data line stands for under the header `cols`: column
      `cols[i]` holds cell `i`. */
  function RowOf(cols: seq<string>, cells: seq<Option<string>>): Row
    requires |cells| == |cols| && Distinct(cols)
  {
    map i | 0 <= i < |cols| :: cols[i] := cells[i]
  }

  /** The record for row `j` lists row `j`'s cells in header order: read
      under the frame's header, record `j` is row `j`. This is about the
      abstract record line, not the CSV text `to_csv` writes for it. */
  lemma RecordsRoundTrip(t: Table, j: nat)
    requires WellFormed(t) && j < |t.rows|
    ensures RowOf(t.columns, Records(t)[j].cells) == t.rows[j]
  {
    var cells := Records(t)[j].cells;
    var r := RowOf(t.columns, cells);
    forall k | k in t.rows[j] ensures k in r && r[k] == t.rows[j][k] {
      assert k in Elems(t.columns);
      var i := IndexOf(t.columns, k);
      assert cells[i] == t.rows[j][t.columns[i]];
    }
    assert r.Keys == t.rows[j].Keys;
  }

  /** Lines 90 and 95: `header=not os.path.exists(file)`, so the header is
      written only when the file is created; the rows always follow. */
  function AppendCsv(file: Option<seq<Line>>, t: Table): (r: Option<seq<Line>>)
    requires WellFormed(t)
  {
    match file
    case None => Some([Header(t.columns)] + Records(t))
    case Some(lines) => Some(lines + Records(t))
  }

  predicate AllWellFormed(ts: seq<Table>) {
    forall i :: 0 <= i < |ts| ==> WellFormed(ts[i])
  }

  /** The frames `ts` appended one after the other. */
  function AppendAll(file: Option<seq<Line>>, ts: seq<Table>): Option<seq<Line>>
    requires AllWellFormed(ts)
    decreases |ts|
  {
    if ts == [] then file
    else AppendCsv(AppendAll(file, ts[..|ts| - 1]), ts[|ts| - 1])
  }

  /** The data lines of all of `ts`, in order. */
  function AllRecords(ts: seq<Table>): seq<Line>
    requires AllWellFormed(ts)
    decreases |ts|
  {
    if ts == [] then [] else AllRecords(ts[..|ts| - 1]) + Records(ts[|ts| - 1])
  }

  /** Appending to an existing file adds the rows of every frame, in order,
      and no header, whatever the frames' columns. */
  lemma {:induction false} AppendExisting(lines: seq<Line>, ts: seq<Table>)
    requires AllWellFormed(ts)
    ensures AppendAll(Some(lines), ts) == Some(lines + AllRecords(ts))
    decreases |ts|
  {
    if ts == [] {
      assert lines + AllRecords(ts) == lines;
    } else {
      var init, last := ts[..|ts| - 1], ts[|ts| - 1];
      assert AllWellFormed(init);
      AppendExisting(lines, init);
      assert AllRecords(ts) == AllRecords(init) + Records(last);
      assert lines + AllRecords(init) + Records(last) == lines + (AllRecords(init) + Records(last));
    }
  }

  /** A file is created only by a first append, with the header of the first
      frame; every later append adds its rows and nothing else. */
  lemma {:induction false} HeaderOnce(ts: seq<Table>)
    requires AllWellFormed(ts)
    ensures ts == [] ==> AppendAll(None, ts) == None
    ensures ts != [] ==> AppendAll(None, ts) == Some([Header(ts[0].columns)] + AllRecords(ts))
    decreases |ts|
  {
    if ts != [] {
      var init, last := ts[..|ts| - 1], ts[|ts| - 1];
      assert AllWellFormed(init);
      if init == [] {
        assert AllRecords(ts) == Records(last);
      } else {
        HeaderOnce(init);
        assert init[0] == ts[0];
        var h := [Header(ts[0].columns)];
        assert AllRecords(ts) == AllRecords(init) + Records(last);
        assert h + AllRecords(init) + Records(last) == h + AllRecords(ts);
      }
    }
  }

  /** Records are never header lines. */
  lemma {:induction false} AllRecordsAreRecords(ts: seq<Table>)
    requires AllWellFormed(ts)
    ensures forall i :: 0 <= i < |AllRecords(ts)| ==> AllRecords(ts)[i].Record?
    decreases |ts|
  {
    if ts != [] {
      var init := ts[..|ts| - 1];
      assert AllWellFormed(init);
      AllRecordsAreRecords(init);
    }
  }

  /** Starting from no file, the output holds exactly one header, as its first line. */
  lemma {:induction false} SingleHeader(ts: seq<Table>)
    requires AllWellFormed(ts) && ts != []
    ensures var f := AppendAll(None, ts);
      && f.Some? && |f.value| >= 1 && f.value[0] == Header(ts[0].columns)
      && forall i :: 1 <= i < |f.value| ==> f.value[i].Record?
  {
    HeaderOnce(ts);
    AllRecordsAreRecords(ts);
    var recs := AllRecords(ts);
    var lines := [Header(ts[0].columns)] + recs;
    assert AppendAll(None, ts) == Some(lines);
    forall i | 1 <= i < |lines| ensures lines[i].Record? {
      assert lines[i] == recs[i - 1];
    }
  }

  /** Appending in two runs is appending once: a second run over the same
      files repeats their rows after the first run's. */
  lemma {:induction false} AppendAllConcat(file: Option<seq<Line>>, a: seq<Table>, b: seq<Table>)
    requires AllWellFormed(a) && AllWellFormed(b)
    ensures AllWellFormed(a + b)
    ensures AppendAll(file, a + b) == AppendAll(AppendAll(file, a), b)
    decreases |b|
  {
    assert AllWellFormed(a + b) by {
      forall i | 0 <= i < |a + b| ensures WellFormed((a + b)[i]) {
        if i >= |a| {
          assert (a + b)[i] == b[i - |a|];
        }
      }
    }
    if b != [] {
      var init := b[..|b| - 1];
      ConcatLast(a, b);
      assert AllWellFormed(init);
      AppendAllConcat(file, a, init);
    } else {
      assert a + b == a;
    }
  }

  // ----- the missing-ID selection (line 93) -----

  const MissingColumns: seq<string> := ["Full Name", "Campus", "Test Year"]

  lemma MissingColumnsDistinct()
    ensures Distinct(MissingColumns)
  {
  }

  /** The values of column `k`, row by row: `df_chunk[k]`. */
  function ColumnValues(t: Table, k: string): (r: seq<Option<string>>)
    requires WellFormed(t) && k in t.columns
    ensures |r| == |t.rows| && forall j :: 0 <= j < |r| ==> r[j] == t.rows[j][k]
  {
    assert k in Elems(t.columns);
    seq(|t.rows|, j requires 0 <= j < |t.rows| => t.rows[j][k])
  }

  /** The positions below `n`, in increasing order, of the missing values of
      `ids`: the mask `df_chunk['Student ID'].isna()` applied to the
      identifier column. */
  function NoIdIndices(ids: seq<Option<string>>, n: nat): (r: seq<nat>)
    requires n <= |ids|
    ensures forall i :: 0 <= i < |r| ==> r[i] < n
    decreases n
  {
    if n == 0 then []
    else NoIdIndices(ids, n - 1) + (if ids[n - 1].None? then [n - 1] else [])
  }

  /** `NoIdIndices` lists exactly the positions of the missing identifiers,
      each once, in order. */
  lemma {:induction false} NoIdIndicesSpec(ids: seq<Option<string>>, n: nat)
    requires n <= |ids|
    ensures var r := NoIdIndices(ids, n);
      && (forall i, k :: 0 <= i < k < |r| ==> r[i] < r[k])
      && (forall j :: 0 <= j < n ==> (j in r <==> ids[j].None?))
    decreases n
  {
    if n > 0 {
      NoIdIndicesSpec(ids, n - 1);
    }
  }

  /** A row restricted to the columns `cols`. */
  function Project(row: Row, cols: seq<string>): (r: Row)
    requires forall k :: k in cols ==> k in row
    ensures r.Keys == Elems(cols)
    ensures forall k :: k in cols ==> r[k] == row[k]
  {
    map k | k in cols :: row[k]
  }

  /** `df_chunk.loc[df_chunk['Student ID'].isna(), ['Full Name', 'Campus', 'Test Year']]`:
      a KeyError without a `Student ID` column, or for the projected columns
      that are absent, else the rows with no identifier, projected. */
  function MissingIds(t: Table): (r: Result<Table, Exception>)
    requires WellFormed(t)
    ensures IdColumn !in t.columns ==> r == Err(KeyError([IdColumn]))
    ensures IdColumn in t.columns && Select(MissingColumns, t.columns, false) != [] ==>
      r == Err(KeyError(Select(MissingColumns, t.columns, false)))
    ensures r.Ok? <==> IdColumn in t.columns && Select(MissingColumns, t.columns, false) == []
    ensures r.Ok? ==> WellFormed(r.value) && r.value.columns == MissingColumns
    ensures r.Ok? ==> var idx := NoIdIndices(ColumnValues(t, IdColumn), |t.rows|);
      && |r.value.rows| == |idx|
      && forall i :: 0 <= i < |idx| ==> idx[i] < |t.rows| && r.value.rows[i] == Project(t.rows[idx[i]], MissingColumns)
  {
    if IdColumn !in t.columns then Err(KeyError([IdColumn]))
    else
      var absent := Select(MissingColumns, t.columns, false);
      if absent != [] then Err(KeyError(absent))
      else
        var idx := NoIdIndices(ColumnValues(t, IdColumn), |t.rows|);
        MissingColumnsDistinct();
        assert forall j :: 0 <= j < |t.rows| ==> forall k :: k in MissingColumns ==> k in t.rows[j];
        Ok(Table(MissingColumns, seq(|idx|, i requires 0 <= i < |idx| => Project(t.rows[idx[i]], MissingColumns))))
  }

  /** Nothing is appended to the missing-ID file exactly when every row has an identifier. */
  lemma MissingIdsEmpty(t: Table)
    requires WellFormed(t) && MissingIds(t).Ok?
    ensures MissingIds(t).value.rows == [] <==> forall j :: 0 <= j < |t.rows| ==> t.rows[j][IdColumn].Some?
  {
    NoIdIndicesEmpty(t);
    assert |MissingIds(t).value.rows| == |NoIdIndices(ColumnValues(t, IdColumn), |t.rows|)|;
  }

  lemma NoIdIndicesEmpty(t: Table)
    requires WellFormed(t) && IdColumn in t.columns
    ensures NoIdIndices(ColumnValues(t, IdColumn), |t.rows|) == [] <==> forall j :: 0 <= j < |t.rows| ==> t.rows[j][IdColumn].Some?
  {
    var ids := ColumnValues(t, IdColumn);
    NoIdIndicesSpec(ids, |ids|);
    var idx := NoIdIndices(ids, |ids|);
    if idx != [] {
      var j := idx[0];
      assert j in idx;
      assert ids[j].None?;
    } else {
      forall j | 0 <= j < |t.rows| ensures t.rows[j][IdColumn].Some? {
        assert j !in idx;
        assert ids[j] == t.rows[j][IdColumn];
      }
    }
  }

  /** With the three projected columns present, the selection fails exactly
      when there is no `Student ID` column. */
  lemma MissingIdsFails(t: Table)
    requires WellFormed(t) && forall k :: k in MissingColumns ==> k in t.columns
    ensures MissingIds(t).Err? <==> IdColumn !in t.columns
    ensures MissingIds(t).Err? ==> MissingIds(t) == Err(KeyError([IdColumn]))
  {
    SelectAllPresent(MissingColumns, t.columns);
  }

  /** After `Transform` the three projected columns are always present, so the
      selection fails only when the chunk had neither `Cases ID` nor `Student ID`. */
  lemma TransformedMissingIds(t: Table, fileName: string, now: string)
    requires Admissible(t) && Succeeds(t, fileName)
    ensures Transform(t, fileName, now).Ok?
    ensures var r, c := Transform(t, fileName, now).value, CleanHeader(t);
      && (MissingIds(r).Err? <==> OldIdColumn !in c.columns && IdColumn !in c.columns)
      && (MissingIds(r).Err? ==> MissingIds(r) == Err(KeyError([IdColumn])))
  {
    TransformErrors(t, fileName, now);
    TransformColumns(t, fileName, now);
    var r := Transform(t, fileName, now).value;
    MissingColumnsDerived();
    SeparateNames();
    assert forall k :: k in MissingColumns ==> k in r.columns;
    MissingIdsFails(r);
  }

  lemma MissingColumnsDerived()
    ensures forall k :: k in MissingColumns ==> k in DerivedColumns
  {
  }

  // ----- the run -----

  /** One chunk `pd.read_csv` yields, with the `datetime.now()` reading
      `process_chunk` takes for it. */
  datatype Chunk = Chunk(table: Table, now: string)

  /** A file of the input folder, in `os.listdir` order, with its chunks. */
  datatype InputFile = InputFile(name: string, chunks: seq<Chunk>)

  /** One call of `process_chunk`. */
  datatype Job = Job(fileName: string, chunk: Chunk)

  /** Line 81: only names ending in `.csv` are read. */
  function FileJobs(f: InputFile): (r: seq<Job>)
    ensures !IsCsv(f.name) ==> r == []
    ensures IsCsv(f.name) ==> |r| == |f.chunks| && forall i :: 0 <= i < |r| ==> r[i] == Job(f.name, f.chunks[i])
  {
    if IsCsv(f.name) then seq(|f.chunks|, i requires 0 <= i < |f.chunks| => Job(f.name, f.chunks[i])) else []
  }

  /** Every chunk of the run, file by file, in order. */
  function Jobs(files: seq<InputFile>): seq<Job>
    decreases |files|
  {
    if files == [] then [] else Jobs(files[..|files| - 1]) + FileJobs(files[|files| - 1])
  }

  predicate Readable(jobs: seq<Job>) {
    forall i :: 0 <= i < |jobs| ==> Admissible(jobs[i].chunk.table)
  }

  /** What a run sends to the master file and to the missing-ID file, and the
      exception that ended it, if any. */
  datatype Outcome = Outcome(master: seq<Table>, missing: seq<Table>, error: Option<Exception>)

  /** Lines 88-95 once `process_chunk` has returned `r` or raised: its
      exception appends nothing; after the master append, the selection may
      still raise; an empty selection is not appended. */
  function Outputs(r: Result<Table, Exception>): (o: Outcome)
    requires r.Ok? ==> WellFormed(r.value)
    ensures Writable(o)
  {
    match r
    case Err(e) => Outcome([], [], Some(e))
    case Ok(out) =>
      match MissingIds(out)
      case Err(e) => Outcome([out], [], Some(e))
      case Ok(m) => Outcome([out], if m.rows == [] then [] else [m], None)
  }

  /** Lines 86-95 for one chunk. */
  function Step(job: Job): (r: Outcome)
    requires Admissible(job.chunk.table)
    ensures Writable(r)
  {
    Outputs(Transform(job.chunk.table, job.fileName, job.chunk.now))
  }

  /** `b` after `a`. */
  function Then(a: Outcome, b: Outcome): Outcome {
    Outcome(a.master + b.master, a.missing + b.missing, b.error)
  }

  /** Every frame an outcome appends can be written. */
  predicate Writable(o: Outcome) {
    AllWellFormed(o.master) && AllWellFormed(o.missing)
  }

  predicate AllWritable(os: seq<Outcome>) {
    forall i :: 0 <= i < |os| ==> Writable(os[i])
  }

  /** The chunk outcomes in order, stopping at the first exception. */
  function RunSteps(os: seq<Outcome>): (r: Outcome)
    requires AllWritable(os)
    ensures Writable(r)
    decreases |os|
  {
    if os == [] then Outcome([], [], None)
    else if os[0].error.Some? then os[0]
    else
      var rest := RunSteps(os[1..]);
      assert AllWellFormed(os[0].master + rest.master) by {
        forall i | 0 <= i < |os[0].master + rest.master| ensures WellFormed((os[0].master + rest.master)[i]) {
          if i >= |os[0].master| {
            assert (os[0].master + rest.master)[i] == rest.master[i - |os[0].master|];
          }
        }
      }
      assert AllWellFormed(os[0].missing + rest.missing) by {
        forall i | 0 <= i < |os[0].missing + rest.missing| ensures WellFormed((os[0].missing + rest.missing)[i]) {
          if i >= |os[0].missing| {
            assert (os[0].missing + rest.missing)[i] == rest.missing[i - |os[0].missing|];
          }
        }
      }
      Then(os[0], rest)
  }

  lemma AllWritableConcat(a: seq<Outcome>, b: seq<Outcome>)
    requires AllWritable(a) && AllWritable(b)
    ensures AllWritable(a + b)
  {
    forall i | 0 <= i < |a + b| ensures Writable((a + b)[i]) {
      if i >= |a| {
        assert (a + b)[i] == b[i - |a|];
      }
    }
  }

  lemma ThenAssoc(x: Outcome, y: Outcome, z: Outcome)
    ensures Then(x, Then(y, z)) == Then(Then(x, y), z)
  {
    assert x.master + (y.master + z.master) == (x.master + y.master) + z.master;
    assert x.missing + (y.missing + z.missing) == (x.missing + y.missing) + z.missing;
  }

  /** A run over `a + b` is the run over `a`, then, unless `a` raised, the run over `b`. */
  lemma {:induction false} RunStepsConcat(a: seq<Outcome>, b: seq<Outcome>)
    requires AllWritable(a) && AllWritable(b)
    ensures AllWritable(a + b)
    ensures RunSteps(a).error.Some? ==> RunSteps(a + b) == RunSteps(a)
    ensures RunSteps(a).error.None? ==> RunSteps(a + b) == Then(RunSteps(a), RunSteps(b))
    decreases |a|
  {
    AllWritableConcat(a, b);
    if a == [] {
      assert a + b == b;
    } else {
      assert (a + b)[0] == a[0];
      assert (a + b)[1..] == a[1..] + b;
      RunStepsConcat(a[1..], b);
      if a[0].error.None? && RunSteps(a[1..]).error.None? {
        ThenAssoc(a[0], RunSteps(a[1..]), RunSteps(b));
      }
    }
  }

  /** The outcome of every chunk of `jobs`, in order. */
  function Steps(jobs: seq<Job>): (r: seq<Outcome>)
    requires Readable(jobs)
    ensures |r| == |jobs| && AllWritable(r)
  {
    Map(Step, jobs)
  }

  lemma StepsConcat(a: seq<Job>, b: seq<Job>)
    requires Readable(a + b)
    ensures Readable(a) && Readable(b)
    ensures Steps(a + b) == Steps(a) + Steps(b)
  {
    ReadableSplit(a, b);
    MapConcat(Step, a, b);
  }

  /** `f` applied to each element of `s`, in order. */
  function Map<A, B>(f: A --> B, s: seq<A>): (r: seq<B>)
    requires forall i :: 0 <= i < |s| ==> f.requires(s[i])
    ensures |r| == |s| && forall i :: 0 <= i < |s| ==> r[i] == f(s[i])
  {
    seq(|s|, i requires 0 <= i < |s| => f(s[i]))
  }

  lemma MapConcat<A, B>(f: A --> B, a: seq<A>, b: seq<A>)
    requires forall i :: 0 <= i < |a| ==> f.requires(a[i])
    requires forall i :: 0 <= i < |b| ==> f.requires(b[i])
    ensures forall i :: 0 <= i < |a + b| ==> f.requires((a + b)[i])
    ensures Map(f, a + b) == Map(f, a) + Map(f, b)
  {
    forall i | 0 <= i < |a + b| ensures f.requires((a + b)[i]) {
      if i >= |a| {
        assert (a + b)[i] == b[i - |a|];
      }
    }
    forall i | 0 <= i < |a + b| ensures Map(f, a + b)[i] == (Map(f, a) + Map(f, b))[i] {
      if i < |a| {
        assert (a + b)[i] == a[i];
      } else {
        assert (a + b)[i] == b[i - |a|];
      }
    }
  }

  /** The jobs in order, stopping at the first exception. */
  function RunJobs(jobs: seq<Job>): (r: Outcome)
    requires Readable(jobs)
    ensures Writable(r)
  {
    RunSteps(Steps(jobs))
  }

  /** One more outcome after a run that has not raised. */
  lemma RunStepsSnoc(os: seq<Outcome>, s: Outcome)
    requires AllWritable(os) && Writable(s) && RunSteps(os).error.None?
    ensures AllWritable(os + [s])
    ensures RunSteps(os + [s]) == Then(RunSteps(os), s)
  {
    RunStepsConcat(os, [s]);
    assert [s][1..] == [];
    if s.error.None? {
      assert Then(s, Outcome([], [], None)) == s;
    }
  }

  /** One more chunk after a run that has not raised. */
  lemma RunJobsSnoc(a: seq<Job>, job: Job)
    requires Readable(a) && Admissible(job.chunk.table) && RunJobs(a).error.None?
    ensures Readable(a + [job])
    ensures RunJobs(a + [job]) == Then(RunJobs(a), Step(job))
  {
    ReadableConcat(a, [job]);
    StepsConcat(a, [job]);
    assert Steps([job]) == [Step(job)];
    RunStepsSnoc(Steps(a), Step(job));
  }

  /** Nothing after an exception is run. */
  lemma RunJobsStop(a: seq<Job>, b: seq<Job>)
    requires Readable(a) && Readable(b) && RunJobs(a).error.Some?
    ensures Readable(a + b)
    ensures RunJobs(a + b) == RunJobs(a)
  {
    ReadableConcat(a, b);
    StepsConcat(a, b);
    RunStepsConcat(Steps(a), Steps(b));
  }

  /** A run whose first `n` chunks end in an exception is the run of those `n` chunks. */
  lemma RunJobsPrefix(a: seq<Job>, n: nat)
    requires Readable(a) && n <= |a| && RunJobs(a[..n]).error.Some?
    ensures RunJobs(a) == RunJobs(a[..n])
  {
    assert a == a[..n] + a[n..];
    ReadableSplit(a[..n], a[n..]);
    RunJobsStop(a[..n], a[n..]);
  }

  /** Chunk `k` of a file extends the run by one job; if that job raises,
      the run ends there. */
  lemma NextInFile(done: seq<Job>, all: seq<Job>, k: nat, job: Job)
    requires Readable(done + all) && k < |all| && all[k] == job
    ensures done + all[..k] + [job] == done + all[..k + 1]
    ensures Readable(done + all[..k + 1]) && RunJobs(done + all[..k + 1]).error.Some? ==>
      RunJobs(done + all) == RunJobs(done + all[..k + 1])
  {
    PrefixSnoc(done, all, k);
    if Readable(done + all[..k + 1]) && RunJobs(done + all[..k + 1]).error.Some? {
      RaisedInFile(done, all, k + 1);
    }
  }

  /** A file whose `k`-th chunk raises ends the run there. */
  lemma RaisedInFile(done: seq<Job>, all: seq<Job>, k: nat)
    requires Readable(done + all) && k <= |all|
    requires Readable(done + all[..k]) && RunJobs(done + all[..k]).error.Some?
    ensures RunJobs(done + all) == RunJobs(done + all[..k])
  {
    PrefixOfConcat(done, all, k);
    var a := done + all;
    var n := |done| + k;
    assert a[..n] == done + all[..k];
    assert RunJobs(a[..n]).error.Some?;
    RunJobsPrefix(a, n);
  }

  lemma PrefixOfConcat<T>(a: seq<T>, b: seq<T>, k: nat)
    requires k <= |b|
    ensures (a + b)[..|a| + k] == a + b[..k]
  {
  }

  lemma PrefixSnoc<T>(a: seq<T>, b: seq<T>, k: nat)
    requires k < |b|
    ensures a + b[..k + 1] == (a + b[..k]) + [b[k]]
  {
  }

  lemma PrefixAll<T>(a: seq<T>, b: seq<T>)
    ensures a + b[..|b|] == a + b
  {
  }

  lemma ReadableConcat(a: seq<Job>, b: seq<Job>)
    requires Readable(a) && Readable(b)
    ensures Readable(a + b)
  {
    forall i | 0 <= i < |a + b| ensures Admissible((a + b)[i].chunk.table) {
      if i >= |a| {
        assert (a + b)[i] == b[i - |a|];
      }
    }
  }

  lemma ReadableSplit(a: seq<Job>, b: seq<Job>)
    requires Readable(a + b)
    ensures Readable(a) && Readable(b)
  {
    forall i | 0 <= i < |b| ensures Admissible(b[i].chunk.table) {
      assert b[i] == (a + b)[|a| + i];
    }
    forall i | 0 <= i < |a| ensures Admissible(a[i].chunk.table) {
      assert a[i] == (a + b)[i];
    }
  }

  /** Files not ending in `.csv` contribute nothing. */
  lemma {:induction false} JobsConcat(a: seq<InputFile>, b: seq<InputFile>)
    ensures Jobs(a + b) == Jobs(a) + Jobs(b)
    decreases |b|
  {
    if b == [] {
      assert a + b == a;
    } else {
      var init, last := b[..|b| - 1], b[|b| - 1];
      ConcatLast(a, b);
      JobsConcat(a, init);
      assert Jobs(a + b) == Jobs(a + init) + FileJobs(last);
      assert Jobs(a) + Jobs(init) + FileJobs(last) == Jobs(a) + (Jobs(init) + FileJobs(last));
    }
  }

  /** The last element of `a + b` and what comes before it, when `b` is not empty. */
  lemma ConcatLast<T>(a: seq<T>, b: seq<T>)
    requires b != []
    ensures (a + b)[..|a + b| - 1] == a + b[..|b| - 1]
    ensures (a + b)[|a + b| - 1] == b[|b| - 1]
  {
  }

  /** The run over `files` is the run over the entries before `i`, then entry
      `i`, then the entries after it. */
  lemma {:induction false} JobsSplit(files: seq<InputFile>, i: nat)
    requires i < |files|
    ensures Jobs(files[..i + 1]) == Jobs(files[..i]) + FileJobs(files[i])
    ensures Jobs(files) == Jobs(files[..i + 1]) + Jobs(files[i + 1..])
  {
    var a, b := files[..i + 1], files[i + 1..];
    SplitAt(files, i);
    JobsSnoc(files[..i], files[i]);
    JobsConcat(a, b);
  }

  lemma SplitAt<T>(s: seq<T>, i: nat)
    requires i < |s|
    ensures s[..i] + [s[i]] == s[..i + 1]
    ensures s[..i + 1] + s[i + 1..] == s
  {
  }

  lemma {:induction false} JobsSnoc(a: seq<InputFile>, f: InputFile)
    ensures Jobs(a + [f]) == Jobs(a) + FileJobs(f)
  {
    assert (a + [f])[..|a|] == a;
  }

  /** The non-CSV files of the folder can be removed without changing the run. */
  lemma {:induction false} OnlyCsvRead(files: seq<InputFile>)
    ensures Jobs(files) == Jobs(CsvFiles(files))
    decreases |files|
  {
    if files != [] {
      var init, last := files[..|files| - 1], files[|files| - 1];
      OnlyCsvRead(init);
      assert Jobs(files) == Jobs(init) + FileJobs(last);
      if IsCsv(last.name) {
        assert CsvFiles(files) == CsvFiles(init) + [last];
        JobsConcat(CsvFiles(init), [last]);
        assert Jobs([last]) == FileJobs(last) by {
          assert [last][..0] == [];
        }
      } else {
        assert CsvFiles(files) == CsvFiles(init);
        assert Jobs(files) == Jobs(init) + [];
      }
    }
  }

  /** The input files whose names end in `.csv`, in order. */
  function CsvFiles(files: seq<InputFile>): (r: seq<InputFile>)
    ensures forall f :: f in r <==> f in files && IsCsv(f.name)
    decreases |files|
  {
    if files == [] then []
    else CsvFiles(files[..|files| - 1]) + (if IsCsv(files[|files| - 1].name) then [files[|files| - 1]] else [])
  }

  /** The processed log is never consulted: running again over the same
      folder appends every row of the first run a second time. Both runs
      here use the same chunks, clock readings included; a real rerun reads
      the clock anew, so its rows differ from the first run's in
      `Processed On` and agree in every other cell. */
  lemma RerunAppendsAgain(lines: seq<Line>, files: seq<InputFile>)
    requires Readable(Jobs(files))
    ensures var o := RunJobs(Jobs(files));
      AppendAll(AppendAll(Some(lines), o.master), o.master)
        == Some(lines + AllRecords(o.master) + AllRecords(o.master))
  {
    var o := RunJobs(Jobs(files));
    AppendExisting(lines, o.master);
    AppendExisting(lines + AllRecords(o.master), o.master);
  }

  /** Lines 73-74: the stripped lines of the processed log. */
  function LoggedFiles(log: Option<seq<string>>): set<string> {
    match log
    case None => {}
    case Some(lines) => set l | l in lines :: Strip(l)
  }

  /** The three output files and the processed-file set of one run. The log
      is only ever read and removed: nothing in the run writes it. */
  class Pipeline {
    var master: Option<seq<Line>>
    var missing: Option<seq<Line>>
    var log: Option<seq<string>>
    var processed: set<string>

    constructor (master: Option<seq<Line>>, missing: Option<seq<Line>>, log: Option<seq<string>>)
      ensures this.master == master && this.missing == missing && this.log == log && processed == {}
    {
      this.master, this.missing, this.log := master, missing, log;
      processed := {};
    }

    /** Lines 63-77: a forced rebuild removes the master file and the log
        (not the missing-ID file) and starts with no processed files;
        otherwise the processed set is read from the log. */
    method Prepare(force: bool)
      modifies this
      ensures master == (if force then None else old(master))
      ensures log == (if force then None else old(log))
      ensures missing == old(missing)
      ensures processed == (if force then {} else LoggedFiles(old(log)))
    {
      if force {
        master := None;
        log := None;
        processed := {};
      } else {
        processed := LoggedFiles(log);
      }
    }

    /** Line 90. */
    method AppendMaster(t: Table)
      requires WellFormed(t)
      modifies this
      ensures master == AppendCsv(old(master), t)
      ensures missing == old(missing) && log == old(log) && processed == old(processed)
    {
      master := AppendCsv(master, t);
    }

    /** Line 95. */
    method AppendMissing(t: Table)
      requires WellFormed(t)
      modifies this
      ensures missing == AppendCsv(old(missing), t)
      ensures master == old(master) && log == old(log) && processed == old(processed)
    {
      missing := AppendCsv(missing, t);
    }

    /** Lines 88-95 once `process_chunk` has returned `r` or raised. */
    method Write(r: Result<Table, Exception>) returns (err: Option<Exception>)
      requires r.Ok? ==> WellFormed(r.value)
      modifies this
      ensures var o := Outputs(r);
        && err == o.error
        && master == AppendAll(old(master), o.master)
        && missing == AppendAll(old(missing), o.missing)
        && log == old(log) && processed == old(processed)
    {
      if r.Err? {
        return Some(r.error);
      }
      var df := r.value;
      AppendMaster(df);
      assert [df][..0] == [];
      var sel := MissingIds(df);
      if sel.Err? {
        return Some(sel.error);
      }
      if sel.value.rows != [] {
        AppendMissing(sel.value);
        assert [sel.value][..0] == [];
      }
      return None;
    }

    /** Lines 86-95 for one chunk. */
    method RunChunk(job: Job) returns (err: Option<Exception>)
      requires Admissible(job.chunk.table)
      modifies this
      ensures var s := Step(job);
        && err == s.error
        && master == AppendAll(old(master), s.master)
        && missing == AppendAll(old(missing), s.missing)
        && log == old(log) && processed == old(processed)
    {
      var frame := new Frame(job.chunk.table);
      var out := ProcessChunk(frame, job.fileName, job.chunk.now);
      var r: Result<Table, Exception> := if out.Err? then Err(out.error) else Ok(out.value.View());
      assert r == Transform(job.chunk.table, job.fileName, job.chunk.now);
      err := Write(r);
    }

    /** One more chunk, after the chunks `done`, none of which raised, whose
        appends are already in the files. */
    method RunNext(ghost done: seq<Job>, job: Job, ghost master0: Option<seq<Line>>, ghost missing0: Option<seq<Line>>)
      returns (err: Option<Exception>)
      requires Readable(done) && Admissible(job.chunk.table) && RunJobs(done).error.None?
      requires master == AppendAll(master0, RunJobs(done).master)
      requires missing == AppendAll(missing0, RunJobs(done).missing)
      modifies this
      ensures Readable(done + [job])
      ensures var o := RunJobs(done + [job]);
        && err == o.error
        && master == AppendAll(master0, o.master)
        && missing == AppendAll(missing0, o.missing)
      ensures log == old(log) && processed == old(processed)
    {
      ghost var before := RunJobs(done);
      err := RunChunk(job);
      RunJobsSnoc(done, job);
      AppendAllConcat(master0, before.master, Step(job).master);
      AppendAllConcat(missing0, before.missing, Step(job).missing);
    }

    /** Lines 81-95 for one entry of the folder, after the chunks `done`
        of the entries before it, none of which raised. */
    method RunFile(f: InputFile, ghost done: seq<Job>, ghost master0: Option<seq<Line>>, ghost missing0: Option<seq<Line>>)
      returns (err: Option<Exception>)
      requires Readable(done) && Readable(FileJobs(f)) && RunJobs(done).error.None?
      requires master == AppendAll(master0, RunJobs(done).master)
      requires missing == AppendAll(missing0, RunJobs(done).missing)
      modifies this
      ensures Readable(done + FileJobs(f))
      ensures var o := RunJobs(done + FileJobs(f));
        && err == o.error
        && master == AppendAll(master0, o.master)
        && missing == AppendAll(missing0, o.missing)
      ensures log == old(log) && processed == old(processed)
    {
      ghost var all := FileJobs(f);
      ReadableConcat(done, all);
      err := None;
      if !IsCsv(f.name) {
        assert done + all == done;
        return;
      }
      ghost var cur := done;
      for k := 0 to |f.chunks|
        invariant cur == done + all[..k] && err == None
        invariant Readable(cur) && RunJobs(cur).error.None?
        invariant master == AppendAll(master0, RunJobs(cur).master)
        invariant missing == AppendAll(missing0, RunJobs(cur).missing)
        invariant log == old(log) && processed == old(processed)
      {
        var job := Job(f.name, f.chunks[k]);
        err := RunNext(cur, job, master0, missing0);
        NextInFile(done, all, k, job);
        cur := cur + [job];
        if err.Some? {
          return;
        }
      }
      PrefixAll(done, all);
    }

    /** `incremental_pipeline(...)`: the outputs are the run's appends to the
        files as `Prepare` leaves them, stopping at the first exception. */
    method Run(files: seq<InputFile>, force: bool) returns (err: Option<Exception>)
      requires Readable(Jobs(files))
      modifies this
      ensures log == (if force then None else old(log))
      ensures processed == (if force then {} else LoggedFiles(old(log)))
      ensures var o := RunJobs(Jobs(files));
        && err == o.error
        && master == AppendAll(if force then None else old(master), o.master)
        && missing == AppendAll(old(missing), o.missing)
    {
      Prepare(force);
      ghost var master0, missing0 := master, missing;
      err := None;
      ghost var cur: seq<Job> := [];
      for i := 0 to |files|
        invariant cur == Jobs(files[..i]) && err == None
        invariant Readable(cur) && RunJobs(cur).error.None?
        invariant master == AppendAll(master0, RunJobs(cur).master)
        invariant missing == AppendAll(missing0, RunJobs(cur).missing)
        invariant log == (if force then None else old(log))
        invariant processed == (if force then {} else LoggedFiles(old(log)))
      {
        JobsSplit(files, i);
        ReadableSplit(Jobs(files[..i + 1]), Jobs(files[i + 1..]));
        ReadableSplit(cur, FileJobs(files[i]));
        err := RunFile(files[i], cur, master0, missing0);
        cur := cur + FileJobs(files[i]);
        if err.Some? {
          assert Jobs(files)[..|cur|] == cur;
          RunJobsPrefix(Jobs(files), |cur|);
          return;
        }
      }
      assert files[..|files|] == files;
    }
  }
}
