/** The processing thread (`WorkerThread.run`) and the button handlers that
    start it: select the algorithm, then collect the files into table
    `data`, write the summary mapfile, the field mapfiles and the hashed
    copies, and finally remove `source.db`. A phase that raises ends the
    thread there, so the later phases, and the removal, never happen. */
module Worker {

  import opened Results
  import opened Folding
  import opened Tables
  import opened Hashing
  import opened MappingStore
  import opened Collect
  import opened Generators
  import opened Rewrite
  import opened Phases
  import Picker

  /** The phases of a run, in the order the thread starts them. */
  datatype Phase = Collecting | Summarising | FieldMapping | Rewriting | Removing

  const FullOrder: seq<Phase> := [Collecting, Summarising, FieldMapping, Rewriting, Removing]

  /** What the user chose: the input files, the selected fields, the output
      directory and the extension of the input files. */
  datatype Job = Job(files: seq<CsvFile>, selected: seq<string>, outdir: string, ext: string)

  /** What a run leaves behind: the phases it started, the output
      directory, the database file `source.db`, and why it stopped, if it
      did. */
  datatype Report = Report(trace: seq<Phase>, dir: Dir, store: Store, failure: Option<Failure>)

  /** `WorkerThread.run` with the hashing state `c`, starting from the
      database `st0` that `source.db` holds and the output directory
      `dir0`. The file names carry `c.hstr`. */
  function Run(D: DigestFn, c: CryptoHash, st0: Store, dir0: Dir, job: Job): (r: Report)
    ensures 2 <= |r.trace| <= |FullOrder| && r.trace == FullOrder[..|r.trace|]
    ensures r.failure.None? <==> r.trace == FullOrder
    ensures r.failure.None? ==> r.store == Absent
    ensures r.failure.Some? ==> r.store == CreateTempDb(D, c, st0, job.files, job.selected)
  {
    RunFrom(CreateTempDb(D, c, st0, job.files, job.selected), dir0, job, c.hstr)
  }

  /** The phases after collection, on the collected database `st`. */
  function RunFrom(st: Store, dir0: Dir, job: Job, hstr: string): (r: Report)
    ensures 2 <= |r.trace| <= |FullOrder| && r.trace == FullOrder[..|r.trace|]
    ensures r.failure.None? <==> r.trace == FullOrder
    ensures r.failure.None? ==> r.store == Absent
    ensures r.failure.Some? ==> r.store == st
  {
    var s := SummaryPhase(st, dir0, job.outdir, hstr, job.ext);
    if s.failure.Some? then Report(FullOrder[..2], s.dir, st, s.failure)
    else
      var m := FieldMapsPhase(st, s.dir, job.files, job.selected, job.outdir, hstr, job.ext);
      if m.failure.Some? then Report(FullOrder[..3], m.dir, st, m.failure)
      else
        var h := HashedPhase(st, m.dir, job.files, job.selected, job.outdir, hstr, job.ext);
        if h.failure.Some? then Report([Collecting, Summarising, FieldMapping, Rewriting], h.dir, st, h.failure)
        else Report(FullOrder, h.dir, Absent, None)
  }

  /** The trace records which phase failed: a run of two phases stopped
      in the summary phase, one of three in the field-map phase, and none
      stops in the hashed-input phase, which needs only the table the
      summary phase already found. */
  lemma RunPhases(D: DigestFn, c: CryptoHash, st0: Store, dir0: Dir, job: Job)
    ensures var st := CreateTempDb(D, c, st0, job.files, job.selected);
      var s := SummaryPhase(st, dir0, job.outdir, c.hstr, job.ext);
      var m := FieldMapsPhase(st, s.dir, job.files, job.selected, job.outdir, c.hstr, job.ext);
      var r := Run(D, c, st0, dir0, job);
      (|r.trace| == 2 <==> s.failure.Some?) && (|r.trace| == 2 ==> r.failure == s.failure)
      && (|r.trace| == 3 <==> s.failure.None? && m.failure.Some?) && (|r.trace| == 3 ==> r.failure == m.failure)
      && |r.trace| != 4
  {
  }

  /** The summary phase fails, with `NoSuchTable`, exactly when the
      database did not exist and no file has a selected field. */
  lemma RunStopsAtSummary(D: DigestFn, c: CryptoHash, st0: Store, dir0: Dir, job: Job)
    ensures var r := Run(D, c, st0, dir0, job);
      (|r.trace| == 2 <==> st0.Absent? && !AnyOverlaps(job.files, job.selected))
      && (|r.trace| == 2 ==> r.failure == Some(NoSuchTable))
  {
    RunPhases(D, c, st0, dir0, job);
  }

  /** The field-map phase fails, with the `KeyError` of dropping
      `FieldName` from an empty frame, exactly when the table exists and
      some visited field has no records in it. */
  lemma RunStopsAtFieldMaps(D: DigestFn, c: CryptoHash, st0: Store, dir0: Dir, job: Job)
    ensures var r := Run(D, c, st0, dir0, job);
      var st := CreateTempDb(D, c, st0, job.files, job.selected);
      var jobs := FieldJobs(job.files, job.selected);
      (|r.trace| == 3 <==> st.Present? && exists i :: 0 <= i < |jobs| && !HasRecords(st, jobs[i]))
      && (|r.trace| == 3 ==> r.failure == Some(KeyError("FieldName")))
  {
    var st := CreateTempDb(D, c, st0, job.files, job.selected);
    var s := SummaryPhase(st, dir0, job.outdir, c.hstr, job.ext);
    RunPhases(D, c, st0, dir0, job);
    WriteFieldMapsFailure(st, s.dir, FieldJobs(job.files, job.selected), job.outdir, c.hstr, job.ext);
  }

  /** A completed run leaves the directory of the field-map phase with
      every hashed copy written over it, using the dictionary of the
      collected database. */
  lemma RunCompleted(D: DigestFn, c: CryptoHash, st0: Store, dir0: Dir, job: Job)
    requires Run(D, c, st0, dir0, job).failure.None?
    ensures var st := CreateTempDb(D, c, st0, job.files, job.selected);
      var s := SummaryPhase(st, dir0, job.outdir, c.hstr, job.ext);
      var m := FieldMapsPhase(st, s.dir, job.files, job.selected, job.outdir, c.hstr, job.ext);
      st.Present? && Run(D, c, st0, dir0, job).dir == WriteHashedCopies(m.dir, job.files, job.selected, Mapping(st).value, job.outdir, c.hstr, job.ext)
  {
    var st := CreateTempDb(D, c, st0, job.files, job.selected);
    var s := SummaryPhase(st, dir0, job.outdir, c.hstr, job.ext);
    var m := FieldMapsPhase(st, s.dir, job.files, job.selected, job.outdir, c.hstr, job.ext);
    var h := HashedPhase(st, m.dir, job.files, job.selected, job.outdir, c.hstr, job.ext);
    assert s.failure.None? && m.failure.None? && h.failure.None?;
    assert Run(D, c, st0, dir0, job).dir == h.dir;
  }

  /** End to end: when a run over a well-hashed database completes, the
      hashed copy of each input file (unless a later file has the same output
      name) keeps the file's header and row count, holds the hash of every
      cell of a selected column, and keeps every other cell. */
  lemma RunHashedFile(D: DigestFn, c: CryptoHash, st0: Store, dir0: Dir, job: Job, k: nat, i: nat, j: nat)
    requires WellHashed(D, c, Records(st0))
    requires Run(D, c, st0, dir0, job).failure.None?
    requires k < |job.files| && i < |job.files[k].rows| && j < |job.files[k].header|
    requires forall k' :: k < k' < |job.files| ==>
      HashedFileName(job.outdir, job.files[k'].name, c.hstr, job.ext) != HashedFileName(job.outdir, job.files[k].name, c.hstr, job.ext)
    ensures var file := job.files[k];
      var name := HashedFileName(job.outdir, file.name, c.hstr, job.ext);
      var out := Run(D, c, st0, dir0, job).dir;
      name in out && out[name].columns == file.header && Rectangular(out[name]) && |out[name].rows| == |file.rows|
      && (file.header[j] in job.selected ==> out[name].rows[i][j] == Text(HashText(D, c, file.rows[i][j])))
      && (file.header[j] !in job.selected ==> out[name].rows[i][j] == Text(file.rows[i][j]))
  {
    var st := CreateTempDb(D, c, st0, job.files, job.selected);
    var s := SummaryPhase(st, dir0, job.outdir, c.hstr, job.ext);
    var m := FieldMapsPhase(st, s.dir, job.files, job.selected, job.outdir, c.hstr, job.ext);
    var name := HashedFileName(job.outdir, job.files[k].name, c.hstr, job.ext);
    RunCompleted(D, c, st0, dir0, job);
    WriteHashedCopiesLast(m.dir, job.files, job.selected, Mapping(st).value, job.outdir, c.hstr, job.ext, k);
    HashedCopyCells(D, c, st0, job.files, job.selected, k, i, j);
    assert Run(D, c, st0, dir0, job).dir[name] == HashedCopy(job.files[k], job.selected, Mapping(st).value);
  }

  /** The start buttons (lines 541-542 and 571-572 of the main window):
      `identify_hash` with the code the pressed algorithm button set, then
      the thread. The thread hashes with a fresh object of the button's own
      algorithm, named after it; after the "None" button it hashes with the
      state as it was. */
  function Start(D: DigestFn, c: CryptoHash, b: Picker.HashButton, st0: Store, dir0: Dir, job: Job): (r: Report)
    ensures Picker.ButtonAlgorithm(b).None? ==> r == Run(D, c, st0, dir0, job)
    ensures Picker.ButtonAlgorithm(b).Some? ==>
      var a := Picker.ButtonAlgorithm(b).value;
      r == Run(D, CryptoHash(Name(a), HashObject(a, [])), st0, dir0, job)
  {
    assert IdentifyHash(c, Picker.Code(b)) == Picker.Press(c, b);
    Run(D, IdentifyHash(c, Picker.Code(b)), st0, dir0, job)
  }

  /** A run in which `source.db` is removed however the run ends. */
  function RunWithCleanup(D: DigestFn, c: CryptoHash, st0: Store, dir0: Dir, job: Job): Report
  {
    Run(D, c, st0, dir0, job).(store := Absent)
  }

  /** With the database removed however a run ends, the records the next
      run collects are exactly the ones its own files produce, whatever the
      earlier run selected, hashed with or stopped at, and so the next
      summary mapfile lists exactly those. */
  lemma CleanRunSummaryIsOwn(D: DigestFn, c: CryptoHash, st0: Store, dir0: Dir, job: Job,
                             c2: CryptoHash, next: Job, rec: Record)
    ensures var st := CreateTempDb(D, c2, RunWithCleanup(D, c, st0, dir0, job).store, next.files, next.selected);
      (rec in Records(st) <==> Produced(D, c2, next.files, next.selected, rec))
      && (st.Present? ==> (Cells(rec) in SummaryMap(st).value.rows <==> Produced(D, c2, next.files, next.selected, rec)))
  {
    var st := CreateTempDb(D, c2, RunWithCleanup(D, c, st0, dir0, job).store, next.files, next.selected);
    RunRecordsContents(D, c2, next.files, next.selected, rec);
    assert Records(st) == RunRecords(D, c2, next.files, next.selected);
    if st.Present? {
      SummaryMapMembers(st);
    }
  }

  /** The table exists and its summary mapfile lists `rec`. */
  predicate InSummary(st: Store, rec: Record) {
    st.Present? && Cells(rec) in SummaryMap(st).value.rows
  }

  /** A file with a header but no rows contributes no records. */
  lemma HeaderOnlyProducesNothing(D: DigestFn, c: CryptoHash, file: CsvFile, selected: seq<string>, rec: Record)
    requires |file.rows| == 0
    ensures !ProducedFor(D, c, file, selected, rec)
  {
    if rec.field in file.header {
      assert |ColumnOf(file, rec.field)| == 0;
    }
  }

  /** A run whose field-map phase fails leaves `source.db` behind, and the
      next run appends to it. Here the first run selects a field `y` that
      only files without rows have (for instance `b.csv` holding just the
      header line `y`), so `y` has no records and the run stops; a record
      it collected from another selected column (say `x` of `a.csv`,
      holding `x` and `1`) is then listed in the summary mapfile of the next
      run, whatever that run selects besides `x`. The database the next run
      starts from is the one the failed run collected, as `Run` states for
      every failed run. */
  lemma StaleRecordReachesNextSummary(D: DigestFn, c: CryptoHash, dir0: Dir, job: Job, k: nat, j: nat, y: string,
                                      later: seq<CsvFile>, selected: seq<string>)
    requires k < |job.files| && j < |job.files[k].header| && |job.files[k].rows| != 0
    requires job.files[k].header[j] in job.selected && job.files[k].header[j] !in selected
    requires y in job.selected && exists k' :: 0 <= k' < |job.files| && y in job.files[k'].header
    requires forall k' :: 0 <= k' < |job.files| && y in job.files[k'].header ==> |job.files[k'].rows| == 0
    ensures Run(D, c, Absent, dir0, job).failure == Some(KeyError("FieldName"))
    ensures var st1 := CreateTempDb(D, c, Absent, job.files, job.selected);
      var stale := Record(HashText(D, c, job.files[k].rows[0][j]), job.files[k].rows[0][j], job.files[k].header[j]);
      InSummary(CreateTempDb(D, c, st1, later, selected), stale) && !Produced(D, c, later, selected, stale)
  {
    var file := job.files[k];
    var st1 := CreateTempDb(D, c, Absent, job.files, job.selected);
    var stale := Record(HashText(D, c, file.rows[0][j]), file.rows[0][j], file.header[j]);
    assert st1.Present? by {
      assert Overlaps(job.files[k], job.selected) by {
        assert file.header[j] in job.selected && file.header[j] in file.header;
      }
    }
    RowlessFieldStopsRun(D, c, Absent, dir0, job, y);
    assert stale in st1.records by {
      CellInColumn(file, 0, j);
      assert ProducedFor(D, c, job.files[k], job.selected, stale);
      RunRecordsContents(D, c, job.files, job.selected, stale);
    }
    LeftoverRecordInSummary(st1, D, c, later, selected, stale);
  }

  /** A selected field that only files without rows have gets no records,
      so once the table exists the field-map phase stops at it. */
  lemma RowlessFieldStopsRun(D: DigestFn, c: CryptoHash, st0: Store, dir0: Dir, job: Job, y: string)
    requires CreateTempDb(D, c, st0, job.files, job.selected).Present?
    requires forall rec :: rec in Records(st0) ==> rec.field != y
    requires y in job.selected && exists k' :: 0 <= k' < |job.files| && y in job.files[k'].header
    requires forall k' :: 0 <= k' < |job.files| && y in job.files[k'].header ==> |job.files[k'].rows| == 0
    ensures Run(D, c, st0, dir0, job).failure == Some(KeyError("FieldName"))
  {
    var st := CreateTempDb(D, c, st0, job.files, job.selected);
    var jobs := FieldJobs(job.files, job.selected);
    RowlessFieldHasNoRecords(D, c, st0, job, y);
    assert !HasRecords(st, y);
    var i :| 0 <= i < |jobs| && jobs[i] == y;
    RunStopsAtFieldMaps(D, c, st0, dir0, job);
  }

  /** A field that the database lacks and that only files without rows
      have gets no records in a run. */
  lemma RowlessFieldHasNoRecords(D: DigestFn, c: CryptoHash, st0: Store, job: Job, y: string)
    requires forall rec :: rec in Records(st0) ==> rec.field != y
    requires forall k' :: 0 <= k' < |job.files| && y in job.files[k'].header ==> |job.files[k'].rows| == 0
    ensures forall rec :: rec in Records(CreateTempDb(D, c, st0, job.files, job.selected)) ==> rec.field != y
  {
    forall rec | rec in Records(CreateTempDb(D, c, st0, job.files, job.selected))
      ensures rec.field != y
    {
      if rec !in Records(st0) {
        RunRecordsContents(D, c, job.files, job.selected, rec);
        var k' :| 0 <= k' < |job.files| && ProducedFor(D, c, job.files[k'], job.selected, rec);
        if |job.files[k'].rows| == 0 {
          HeaderOnlyProducesNothing(D, c, job.files[k'], job.selected, rec);
        }
      }
    }
  }

  /** Whatever the database already holds is listed in the summary mapfile
      of the next run. */
  lemma LeftoverRecordInSummary(st: Store, D: DigestFn, c: CryptoHash, later: seq<CsvFile>, selected: seq<string>, rec: Record)
    requires rec in Records(st)
    ensures InSummary(CreateTempDb(D, c, st, later, selected), rec)
  {
    var st2 := CreateTempDb(D, c, st, later, selected);
    assert rec in st2.records;
    SummaryMapMembers(st2);
  }
}
