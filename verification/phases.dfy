/** The three output-writing generators as phases over an output directory:
    the summary mapfile, one mapfile per hashed field, and a hashed copy of
    every input file. A phase either completes or stops at its first failure,
    keeping the files it has already written. */
module Phases {

  import opened Results
  import opened Seqs
  import opened Tables
  import opened Hashing
  import opened MappingStore
  import opened Generators
  import opened Rewrite

  /** The output directory: file name to the frame written under it. Writing
      a name that already exists replaces that file. */
  type Dir = map<string, Frame>

  /** What a phase leaves behind: the directory, and why it stopped, if it
      did. */
  datatype Outcome = Outcome(dir: Dir, failure: Option<Failure>)

  /** `create_summary_hash_mapfile`: writes the summary mapfile, or fails
      without writing when table `data` does not exist. */
  function SummaryPhase(st: Store, dir: Dir, outdir: string, hstr: string, ext: string): (r: Outcome)
    ensures r.failure.None? <==> st.Present?
    ensures r.failure.Some? ==> r.failure.value == NoSuchTable && r.dir == dir
    ensures r.failure.None? ==> r.dir == dir[SummaryFileName(outdir, hstr, ext) := SummaryMap(st).value]
  {
    match SummaryMap(st)
    case Ok(fr) => Outcome(dir[SummaryFileName(outdir, hstr, ext) := fr], None)
    case Err(e) => Outcome(dir, Some(e))
  }

  /** The fields `create_column_hash_mapfile` visits: for each file in turn,
      the selected fields that file has. A field two files share is visited
      once per file. */
  function FieldJobs(files: seq<CsvFile>, selected: seq<string>): (r: seq<string>)
    ensures forall f :: f in r <==> f in selected && exists k :: 0 <= k < |files| && f in files[k].header
  {
    var r := Flatten(Map((file: CsvFile) => ResolveFields(selected, file.header), files));
    assert forall f :: f in r <==> f in selected && exists k :: 0 <= k < |files| && f in files[k].header by {
      forall f
        ensures f in r <==> f in selected && exists k :: 0 <= k < |files| && f in files[k].header
      {
        if f in selected && exists k :: 0 <= k < |files| && f in files[k].header {
          var k :| 0 <= k < |files| && f in files[k].header;
          assert f in Map((file: CsvFile) => ResolveFields(selected, file.header), files)[k];
        }
      }
    }
    r
  }

  /** A loop that writes, for each key in turn, the frame `gen` makes for
      it under the name `nameOf` gives it, and stops at the first key `gen`
      fails on. */
  function WriteEach(dir: Dir, keys: seq<string>, gen: string -> Result<Frame, Failure>, nameOf: string -> string): Outcome
    decreases |keys|
  {
    if |keys| == 0 then Outcome(dir, None)
    else
      match gen(keys[0])
      case Err(e) => Outcome(dir, Some(e))
      case Ok(fr) => WriteEach(dir[nameOf(keys[0]) := fr], keys[1..], gen, nameOf)
  }

  /** The loop completes exactly when `gen` succeeds on every key, and
      otherwise stops with the failure of the first key it fails on. */
  lemma {:induction false} WriteEachFailure(dir: Dir, keys: seq<string>, gen: string -> Result<Frame, Failure>, nameOf: string -> string)
    ensures var r := WriteEach(dir, keys, gen, nameOf);
      (r.failure.None? <==> forall i :: 0 <= i < |keys| ==> gen(keys[i]).Ok?)
      && (r.failure.Some? ==>
            (exists i :: 0 <= i < |keys| && gen(keys[i]).Err? && r.failure.value == gen(keys[i]).error
               && forall j :: 0 <= j < i ==> gen(keys[j]).Ok?))
    decreases |keys|
  {
    if |keys| != 0 && gen(keys[0]).Ok? {
      var next := dir[nameOf(keys[0]) := gen(keys[0]).value];
      WriteEachFailure(next, keys[1..], gen, nameOf);
      var r := WriteEach(next, keys[1..], gen, nameOf);
      if r.failure.Some? {
        var i :| 0 <= i < |keys[1..]| && gen(keys[1..][i]).Err? && r.failure.value == gen(keys[1..][i]).error
          && forall j :: 0 <= j < i ==> gen(keys[1..][j]).Ok?;
        assert gen(keys[i + 1]).Err?;
        forall j | 0 <= j < i + 1
          ensures gen(keys[j]).Ok?
        {
          if j > 0 {
            assert keys[j] == keys[1..][j - 1];
          }
        }
      } else {
        forall i | 0 <= i < |keys|
          ensures gen(keys[i]).Ok?
        {
          if i > 0 {
            assert keys[i] == keys[1..][i - 1];
          }
        }
      }
    }
  }

  /** With distinct keys named distinctly, a name the loop never writes is
      left as it was, and when the loop completes each key's file holds the
      frame made for it, however often the key was visited: rewriting is
      idempotent. */
  lemma {:induction false} WriteEachFiles(dir: Dir, keys: seq<string>, gen: string -> Result<Frame, Failure>, nameOf: string -> string, name: string)
    requires forall f, g :: nameOf(f) == nameOf(g) ==> f == g
    ensures var r := WriteEach(dir, keys, gen, nameOf);
      ((forall f :: f in keys ==> nameOf(f) != name) ==>
         (name in r.dir <==> name in dir) && (name in dir ==> r.dir[name] == dir[name]))
      && (r.failure.None? ==> forall f :: f in keys && nameOf(f) == name ==>
         name in r.dir && gen(f).Ok? && r.dir[name] == gen(f).value)
    decreases |keys|
  {
    if |keys| != 0 && gen(keys[0]).Ok? {
      var f0 := keys[0];
      var next := dir[nameOf(f0) := gen(f0).value];
      WriteEachFiles(next, keys[1..], gen, nameOf, name);
      assert forall f :: f in keys <==> f == f0 || f in keys[1..] by {
        assert keys == [f0] + keys[1..];
      }
    }
  }

  /** The loop of `create_column_hash_mapfile` over the visited fields: each
      field's mapfile is written in turn, and the first field with no
      mapfile stops the loop. */
  function WriteFieldMaps(st: Store, dir: Dir, fields: seq<string>, outdir: string, hstr: string, ext: string): Outcome {
    WriteEach(dir, fields, FieldMapOf(st), FieldMapNameOf(outdir, hstr, ext))
  }

  /** The field map of each field. */
  function FieldMapOf(st: Store): string -> Result<Frame, Failure> {
    f => FieldMap(st, f)
  }

  /** The mapfile name of each field. */
  function FieldMapNameOf(outdir: string, hstr: string, ext: string): string -> string {
    f => FieldMapFileName(outdir, f, hstr, ext)
  }

  /** Distinct fields have distinct mapfile names. */
  lemma FieldMapNamesDistinct(outdir: string, hstr: string, ext: string)
    ensures forall f, g :: FieldMapNameOf(outdir, hstr, ext)(f) == FieldMapNameOf(outdir, hstr, ext)(g) ==> f == g
  {
    forall f, g | FieldMapNameOf(outdir, hstr, ext)(f) == FieldMapNameOf(outdir, hstr, ext)(g)
      ensures f == g
    {
      FieldMapFileNames(outdir, f, g, hstr, ext);
    }
  }

  /** The table exists and holds a record of field `f`. */
  ghost predicate HasRecords(st: Store, f: string) {
    st.Present? && exists rec :: rec in st.records && rec.field == f
  }

  /** The field-map loop completes exactly when every visited field has
      records in the store; otherwise it stops at the first field without
      any, with the `KeyError` of dropping column `FieldName` from an empty
      frame, or with `NoSuchTable` when the store does not exist. */
  lemma WriteFieldMapsFailure(st: Store, dir: Dir, fields: seq<string>, outdir: string, hstr: string, ext: string)
    ensures var r := WriteFieldMaps(st, dir, fields, outdir, hstr, ext);
      (r.failure.None? <==> forall i :: 0 <= i < |fields| ==> HasRecords(st, fields[i]))
      && (r.failure.Some? ==> r.failure.value == if st.Present? then KeyError("FieldName") else NoSuchTable)
  {
    WriteEachFailure(dir, fields, FieldMapOf(st), FieldMapNameOf(outdir, hstr, ext));
  }

  /** Files of other names are left as they were, and on completion each
      visited field's mapfile holds that field's map. */
  lemma WriteFieldMapsFiles(st: Store, dir: Dir, fields: seq<string>, outdir: string, hstr: string, ext: string, name: string)
    ensures (forall f :: f in fields ==> FieldMapFileName(outdir, f, hstr, ext) != name) ==>
      var r := WriteFieldMaps(st, dir, fields, outdir, hstr, ext);
      (name in r.dir <==> name in dir) && (name in dir ==> r.dir[name] == dir[name])
    ensures WriteFieldMaps(st, dir, fields, outdir, hstr, ext).failure.None? ==>
      forall f :: f in fields && FieldMapFileName(outdir, f, hstr, ext) == name ==>
        var r := WriteFieldMaps(st, dir, fields, outdir, hstr, ext);
        name in r.dir && FieldMap(st, f).Ok? && r.dir[name] == FieldMap(st, f).value
  {
    var gen, nameOf := FieldMapOf(st), FieldMapNameOf(outdir, hstr, ext);
    FieldMapNamesDistinct(outdir, hstr, ext);
    WriteEachFiles(dir, fields, gen, nameOf, name);
    var r := WriteFieldMaps(st, dir, fields, outdir, hstr, ext);
    if r.failure.None? {
      forall f | f in fields && FieldMapFileName(outdir, f, hstr, ext) == name
        ensures name in r.dir && FieldMap(st, f).Ok? && r.dir[name] == FieldMap(st, f).value
      {
        assert nameOf(f) == name;
        assert gen(f) == FieldMap(st, f);
      }
    }
    if forall f :: f in fields ==> FieldMapFileName(outdir, f, hstr, ext) != name {
      assert forall f :: f in fields ==> nameOf(f) != name;
    }
  }

  /** `create_column_hash_mapfile`: the mapfiles of every visited field. */
  function FieldMapsPhase(st: Store, dir: Dir, files: seq<CsvFile>, selected: seq<string>, outdir: string, hstr: string, ext: string): Outcome {
    WriteFieldMaps(st, dir, FieldJobs(files, selected), outdir, hstr, ext)
  }

  /** The loop of `create_hashed_version_of_input`: each file's hashed copy
      written in turn, a later file replacing an earlier one of the same
      output name. Copies are named as the program names them
      (`HashedFileName`), which is `Hashed_<stem>_<hstr><ext>` only when the
      extension is not empty and occurs just at the end of the file name
      (`HashedFileNameAgrees`). */
  function WriteHashedCopies(dir: Dir, files: seq<CsvFile>, selected: seq<string>, m: map<string, string>, outdir: string, hstr: string, ext: string): Dir
    decreases |files|
  {
    if |files| == 0 then dir
    else WriteHashedCopies(dir[HashedFileName(outdir, files[0].name, hstr, ext) := HashedCopy(files[0], selected, m)], files[1..], selected, m, outdir, hstr, ext)
  }

  /** A name no file maps to is left as it was. */
  lemma {:induction false} WriteHashedCopiesOthers(dir: Dir, files: seq<CsvFile>, selected: seq<string>, m: map<string, string>, outdir: string, hstr: string, ext: string, name: string)
    requires forall k :: 0 <= k < |files| ==> HashedFileName(outdir, files[k].name, hstr, ext) != name
    ensures var r := WriteHashedCopies(dir, files, selected, m, outdir, hstr, ext);
      (name in r <==> name in dir) && (name in dir ==> r[name] == dir[name])
    decreases |files|
  {
    if |files| != 0 {
      var next := dir[HashedFileName(outdir, files[0].name, hstr, ext) := HashedCopy(files[0], selected, m)];
      assert forall k :: 0 <= k < |files[1..]| ==> files[1..][k] == files[k + 1];
      WriteHashedCopiesOthers(next, files[1..], selected, m, outdir, hstr, ext, name);
    }
  }

  /** A name some file maps to holds the hashed copy of the last file that
      maps to it. */
  lemma {:induction false} WriteHashedCopiesLast(dir: Dir, files: seq<CsvFile>, selected: seq<string>, m: map<string, string>, outdir: string, hstr: string, ext: string, k: nat)
    requires k < |files|
    requires forall k' :: k < k' < |files| ==> HashedFileName(outdir, files[k'].name, hstr, ext) != HashedFileName(outdir, files[k].name, hstr, ext)
    ensures var name := HashedFileName(outdir, files[k].name, hstr, ext);
      var r := WriteHashedCopies(dir, files, selected, m, outdir, hstr, ext);
      name in r && r[name] == HashedCopy(files[k], selected, m)
    decreases |files|
  {
    var next := dir[HashedFileName(outdir, files[0].name, hstr, ext) := HashedCopy(files[0], selected, m)];
    assert forall j :: 0 <= j < |files[1..]| ==> files[1..][j] == files[j + 1];
    if k == 0 {
      WriteHashedCopiesOthers(next, files[1..], selected, m, outdir, hstr, ext, HashedFileName(outdir, files[0].name, hstr, ext));
    } else {
      WriteHashedCopiesLast(next, files[1..], selected, m, outdir, hstr, ext, k - 1);
    }
  }

  /** `create_hashed_version_of_input`: reads the dictionary (failing
      without writing when table `data` does not exist), then writes the
      hashed copy of every file. */
  function HashedPhase(st: Store, dir: Dir, files: seq<CsvFile>, selected: seq<string>, outdir: string, hstr: string, ext: string): (r: Outcome)
    ensures r.failure.None? <==> st.Present?
    ensures r.failure.Some? ==> r.failure.value == NoSuchTable && r.dir == dir
  {
    match Mapping(st)
    case Ok(m) => Outcome(WriteHashedCopies(dir, files, selected, m, outdir, hstr, ext), None)
    case Err(e) => Outcome(dir, Some(e))
  }
}
