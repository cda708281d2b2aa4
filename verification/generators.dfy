/** The three generators that read the store: the summary map
    (`create_summary_hash_mapfile`), the per-field maps
    (`create_column_hash_mapfile`) and the hashed copies of the input files
    (`create_hashed_version_of_input`), with the names of the files they
    write. */
module Generators {

  import opened Results
  import opened Seqs
  import opened Order
  import opened Strings
  import opened Folding
  import opened Tables
  import opened Hashing
  import opened MappingStore
  import opened Collect

  // ---------------------------------------------------------------------
  // Output names
  // ---------------------------------------------------------------------

  /** `outputdirectory + 'Hash_MapFile_' + hstr + fileextension`. */
  function SummaryFileName(outdir: string, hstr: string, ext: string): string {
    outdir + "Hash_MapFile_" + hstr + ext
  }

  /** `outputdirectory + field + '_MapFile_' + hstr + fileextension`. */
  function FieldMapFileName(outdir: string, f: string, hstr: string, ext: string): string {
    outdir + f + "_MapFile_" + hstr + ext
  }

  /** Distinct fields get distinct map files, and a field map file is
      named like the summary map exactly when the field is called `Hash`,
      in which case it replaces the summary. */
  lemma FieldMapFileNames(outdir: string, f: string, g: string, hstr: string, ext: string)
    ensures FieldMapFileName(outdir, f, hstr, ext) == FieldMapFileName(outdir, g, hstr, ext) <==> f == g
    ensures FieldMapFileName(outdir, f, hstr, ext) == SummaryFileName(outdir, hstr, ext) <==> f == "Hash"
  {
    var tail := "_MapFile_" + hstr + ext;
    assert FieldMapFileName(outdir, f, hstr, ext) == outdir + f + tail;
    assert FieldMapFileName(outdir, g, hstr, ext) == outdir + g + tail;
    assert SummaryFileName(outdir, hstr, ext) == outdir + "Hash" + tail;
    CancelAround(outdir, f, g, tail);
    CancelAround(outdir, f, "Hash", tail);
  }

  /** Equal strings with a common prefix and suffix have equal middles. */
  lemma CancelAround(p: string, x: string, y: string, q: string)
    ensures p + x + q == p + y + q <==> x == y
  {
    if p + x + q == p + y + q {
      assert |x| == |y|;
      assert forall i :: 0 <= i < |x| ==> x[i] == (p + x + q)[|p| + i] == (p + y + q)[|p| + i] == y[i];
    }
  }

  /** `'Hashed_' + file.replace(fileextension, '_' + hstr + fileextension)`,
      as written. */
  function HashedFileName(outdir: string, file: string, hstr: string, ext: string): string {
    outdir + "Hashed_" + Replace(file, ext, "_" + hstr + ext)
  }

  /** When the extension is not empty and occurs in the file name only at
      its end, the name is `Hashed_<stem>_<hstr><ext>`. */
  lemma HashedFileNameOfStem(outdir: string, stem: string, hstr: string, ext: string)
    requires |ext| != 0
    requires forall i :: 0 <= i < |stem| ==> !OccursAt(stem + ext, ext, i)
    ensures HashedFileName(outdir, stem + ext, hstr, ext) == outdir + "Hashed_" + stem + "_" + hstr + ext
  {
    ReplaceSuffixOnly(stem, ext, "_" + hstr + ext);
  }

  /** As written, a file without an extension (so that `fileextension` is
      empty) gets the suffix inserted before and after every character,
      since replacing the empty string matches at every position: `x`
      becomes `Hashed__<hstr>x_<hstr>` rather than `Hashed_x_<hstr>`. */
  lemma HashedFileNameWithoutExtension(outdir: string, x: char, hstr: string)
    ensures HashedFileName(outdir, [x], hstr, "") == outdir + "Hashed_" + "_" + hstr + [x] + "_" + hstr
    ensures HashedFileName(outdir, [x], hstr, "") != IntendedHashedFileName(outdir, [x], hstr, "")
  {
    var rep := "_" + hstr;
    assert [x][1..] == [];
    assert Replace([x], "", rep + "") == rep + [x] + rep;
    IntendedHashedFileNameOfStem(outdir, [x], hstr, "");
    assert [x] + "" == [x];
    assert |HashedFileName(outdir, [x], hstr, "")| != |IntendedHashedFileName(outdir, [x], hstr, "")|;
  }

  /** `Hashed_<stem>_<hstr><ext>` for a file `<stem><ext>`, and
      `Hashed_<file>_<hstr><ext>` for a file that does not end in the
      extension. */
  function IntendedHashedFileName(outdir: string, file: string, hstr: string, ext: string): string {
    if EndsWith(file, ext) then outdir + "Hashed_" + file[..|file| - |ext|] + "_" + hstr + ext
    else outdir + "Hashed_" + file + "_" + hstr + ext
  }

  /** The intended name of `<stem><ext>` is built from the stem, for every
      extension, the empty one included. */
  lemma IntendedHashedFileNameOfStem(outdir: string, stem: string, hstr: string, ext: string)
    ensures IntendedHashedFileName(outdir, stem + ext, hstr, ext) == outdir + "Hashed_" + stem + "_" + hstr + ext
  {
    assert EndsWith(stem + ext, ext);
    assert (stem + ext)[..|stem|] == stem;
  }

  /** Files with the extension get distinct intended names. */
  lemma IntendedHashedFileNamesDistinct(outdir: string, f: string, g: string, hstr: string, ext: string)
    requires EndsWith(f, ext) && EndsWith(g, ext)
    ensures IntendedHashedFileName(outdir, f, hstr, ext) == IntendedHashedFileName(outdir, g, hstr, ext) <==> f == g
  {
    var sf, sg := f[..|f| - |ext|], g[..|g| - |ext|];
    assert f == sf + ext && g == sg + ext;
    CancelAround(outdir + "Hashed_", sf, sg, "_" + hstr + ext);
    assert IntendedHashedFileName(outdir, f, hstr, ext) == outdir + "Hashed_" + sf + ("_" + hstr + ext);
    assert IntendedHashedFileName(outdir, g, hstr, ext) == outdir + "Hashed_" + sg + ("_" + hstr + ext);
  }

  /** Where the extension is not empty and occurs in the file name only at
      its end, the name as written is the intended one. */
  lemma HashedFileNameAgrees(outdir: string, stem: string, hstr: string, ext: string)
    requires |ext| != 0
    requires forall i :: 0 <= i < |stem| ==> !OccursAt(stem + ext, ext, i)
    ensures HashedFileName(outdir, stem + ext, hstr, ext) == IntendedHashedFileName(outdir, stem + ext, hstr, ext)
  {
    HashedFileNameOfStem(outdir, stem, hstr, ext);
    IntendedHashedFileNameOfStem(outdir, stem, hstr, ext);
  }

  // ---------------------------------------------------------------------
  // Rows of the generated frames
  // ---------------------------------------------------------------------

  /** The text of cell `j`, or the empty string when there is none. */
  function TextAt(row: seq<Value>, j: nat): string {
    if j < |row| && row[j].Text? then row[j].s else ""
  }

  /** The summary order on rows of `Cells`: field name, then plaintext. */
  function SummaryRowKey(row: seq<Value>): seq<string> {
    [TextAt(row, 2), TextAt(row, 1)]
  }

  /** The per-field order on (hash, plaintext) rows: the hash. */
  function HashRowKey(row: seq<Value>): seq<string> {
    [TextAt(row, 0)]
  }

  /** A record's (hash, plaintext) row of a per-field map. */
  function Pair(rec: Record): seq<Value> {
    [Text(rec.hash), Text(rec.plain)]
  }

  /** Sortedness carries over from records to their rows when the row key
      of each record's row is its record key. */
  lemma SortedMap(rs: seq<Record>, rowOf: Record -> seq<Value>, key: Record -> seq<string>, rowKey: seq<Value> -> seq<string>)
    requires forall rec :: rowKey(rowOf(rec)) == key(rec)
    requires Sorted(rs, key)
    ensures Sorted(Map(rowOf, rs), rowKey)
  {
    var m := Map(rowOf, rs);
    forall i, j | 0 <= i < j < |m|
      ensures KeyLe(rowKey(m[i]), rowKey(m[j]))
    {
      assert rowKey(m[i]) == key(rs[i]) && rowKey(m[j]) == key(rs[j]);
    }
  }

  /** Membership in a sorted copy of a sequence is membership in the
      sequence. */
  lemma SortByMembers(rs: seq<Record>, key: Record -> seq<string>)
    ensures forall rec :: rec in SortBy(rs, key) <==> rec in rs
  {
    var s := SortBy(rs, key);
    forall rec
      ensures rec in s <==> rec in rs
    {
      assert rec in s <==> rec in multiset(s);
      assert rec in rs <==> rec in multiset(rs);
    }
  }

  // ---------------------------------------------------------------------
  // Summary map
  // ---------------------------------------------------------------------

  /** `create_summary_hash_mapfile`: every record of the store, ordered by
      field name and plaintext, read back through the folding wrapper into
      a frame with the store's column labels, and de-duplicated. Fails when
      the table does not exist; an empty table gives a frame without
      columns. */
  function SummaryMap(st: Store): (r: Result<Frame, Failure>)
    ensures r.Ok? <==> st.Present?
    ensures r.Err? ==> r.error == NoSuchTable
    ensures r.Ok? ==> r.value.columns == (if |st.records| == 0 then [] else Columns)
  {
    var recs :- SelectOrdered(st);
    assert |recs| == |st.records| by {
      assert |multiset(recs)| == |multiset(st.records)|;
    }
    WrapperOfResult(recs);
    Ok(DropDuplicates(FromTuples(Columns, StringFoldingWrapper(ResultOf(recs)))))
  }

  /** The rows of the summary map are the cells of the store's records,
      sorted by field and plaintext and de-duplicated keep-first. */
  lemma SummaryMapRows(st: Store)
    requires st.Present?
    ensures SummaryMap(st).value.rows == Map(Cells, Distinct(SortBy(st.records, SummaryKey)))
  {
    var recs := SortBy(st.records, SummaryKey);
    WrapperOfResult(recs);
    forall a, b | a in recs && b in recs && Cells(a) == Cells(b)
      ensures a == b
    {
      CellsInjective(a, b);
    }
    DistinctMap(Cells, recs);
  }

  /** The summary map holds exactly one row per distinct record of the
      store, and its rows are in (FieldName, Plaintext) order: keep-first
      de-duplication preserves the order of the query. */
  lemma SummaryMapContents(st: Store)
    requires st.Present?
    ensures var rows := SummaryMap(st).value.rows;
      NoDup(rows)
      && (forall row :: row in rows <==> exists rec :: rec in st.records && row == Cells(rec))
      && Sorted(rows, SummaryRowKey)
  {
    SummaryMapMembers(st);
    SummaryMapSorted(st);
  }

  lemma SummaryMapMembers(st: Store)
    requires st.Present?
    ensures var rows := SummaryMap(st).value.rows;
      NoDup(rows) && forall row :: row in rows <==> exists rec :: rec in st.records && row == Cells(rec)
  {
    SummaryRecordsMembers(st.records);
    SummaryMapRows(st);
  }

  lemma SummaryRecordsMembers(records: seq<Record>)
    ensures var rows := Map(Cells, Distinct(SortBy(records, SummaryKey)));
      NoDup(rows) && forall row :: row in rows <==> exists rec :: rec in records && row == Cells(rec)
  {
    var d := Distinct(SortBy(records, SummaryKey));
    assert forall rec :: rec in d <==> rec in records by {
      SortByMembers(records, SummaryKey);
    }
    MapMembers(Cells, d);
    assert NoDup(Map(Cells, d)) by {
      forall a, b | a in d && b in d && Cells(a) == Cells(b)
        ensures a == b
      {
        CellsInjective(a, b);
      }
      MapNoDup(Cells, d);
    }
  }

  lemma SummaryMapSorted(st: Store)
    requires st.Present?
    ensures Sorted(SummaryMap(st).value.rows, SummaryRowKey)
  {
    SummaryRecordsSorted(st.records);
    SummaryMapRows(st);
  }

  lemma SummaryRecordsSorted(records: seq<Record>)
    ensures Sorted(Map(Cells, Distinct(SortBy(records, SummaryKey))), SummaryRowKey)
  {
    var recs := SortBy(records, SummaryKey);
    DistinctSorted(recs, SummaryKey);
    SortedMap(Distinct(recs), Cells, SummaryKey, SummaryRowKey);
  }

  /** In a well-hashed store no two summary rows share a field and a
      plaintext, so the summary order is strict. */
  lemma SummaryMapStrict(D: DigestFn, c: CryptoHash, st: Store)
    requires st.Present? && WellHashed(D, c, st.records)
    ensures StrictlySorted(SummaryMap(st).value.rows, SummaryRowKey)
  {
    var rows := SummaryMap(st).value.rows;
    SummaryMapContents(st);
    forall i, j | 0 <= i < j < |rows|
      ensures SummaryRowKey(rows[i]) != SummaryRowKey(rows[j])
    {
      assert rows[i] in rows && rows[j] in rows;
      var a :| a in st.records && rows[i] == Cells(a);
      var b :| b in st.records && rows[j] == Cells(b);
    }
  }

  /** The summary map of a well-hashed store depends only on the set of its
      records: neither the order in which fields and files were collected
      nor duplicate records across files change it. */
  lemma SummaryMapSetOnly(D: DigestFn, c: CryptoHash, s1: Store, s2: Store)
    requires s1.Present? && s2.Present?
    requires WellHashed(D, c, s1.records) && WellHashed(D, c, s2.records)
    requires forall rec :: rec in s1.records <==> rec in s2.records
    ensures SummaryMap(s1) == SummaryMap(s2)
  {
    var r1, r2 := SummaryMap(s1).value, SummaryMap(s2).value;
    assert forall row :: row in r1.rows <==> row in r2.rows by {
      SummaryMapMembers(s1);
      SummaryMapMembers(s2);
    }
    assert r1.rows == r2.rows by {
      SummaryMapStrict(D, c, s1);
      SummaryMapStrict(D, c, s2);
      StrictlySortedUnique(r1.rows, r2.rows, SummaryRowKey);
    }
    assert r1.columns == r2.columns by {
      SameMembersEmpty(s1.records, s2.records);
    }
  }

  /** Two sequences with the same members are both empty or both not. */
  lemma SameMembersEmpty(a: seq<Record>, b: seq<Record>)
    requires forall rec :: rec in a <==> rec in b
    ensures |a| == 0 <==> |b| == 0
  {
    if |a| != 0 {
      assert a[0] in b;
    }
    if |b| != 0 {
      assert b[0] in a;
    }
  }

  // ---------------------------------------------------------------------
  // Per-field maps
  // ---------------------------------------------------------------------

  /** Dropping `FieldName` from a frame of record cells leaves each
      record's (hash, plaintext) pair under `Hashvalue` and `Plaintext`. */
  lemma DropFieldName(recs: seq<Record>)
    ensures Rectangular(Frame(Columns, Map(Cells, recs)))
    ensures DropColumn(Frame(Columns, Map(Cells, recs)), "FieldName") == Ok(Frame(["Hashvalue", "Plaintext"], Map(Pair, recs)))
  {
    var fr := Frame(Columns, Map(Cells, recs));
    FirstIndexUnique(Columns, "FieldName", 2);
    var r := DropColumn(fr, "FieldName");
    assert r.value.columns == ["Hashvalue", "Plaintext"];
    forall i | 0 <= i < |recs|
      ensures r.value.rows[i] == Pair(recs[i])
    {
      assert fr.rows[i] == Cells(recs[i]);
      assert Without(Cells(recs[i]), 2) == Pair(recs[i]);
    }
    assert r.value.rows == Map(Pair, recs);
  }

  /** The frame read back for a per-field query, and what dropping its
      `FieldName` column gives: the (hash, plaintext) pairs when there are
      records, and `KeyError` when there are none. */
  lemma FieldFrame(recs: seq<Record>)
    ensures var df := FromTuples(Columns, StringFoldingWrapper(ResultOf(recs)));
      Rectangular(df)
      && (|recs| == 0 ==> DropColumn(df, "FieldName") == Err(KeyError("FieldName")))
      && (|recs| != 0 ==> DropColumn(df, "FieldName") == Ok(Frame(["Hashvalue", "Plaintext"], Map(Pair, recs))))
  {
    WrapperOfResult(recs);
    DropFieldName(recs);
  }

  /** `create_column_hash_mapfile` for one field `f`: the records of `f`
      ordered by hash, read back through the folding wrapper, with the
      `FieldName` column dropped, the columns renamed to `f` and
      `f_Plaintext`, and de-duplicated. Fails when the table does not
      exist, and with `KeyError` when `f` has no records: a frame built
      from no rows has no `FieldName` column to drop. */
  function FieldMap(st: Store, f: string): (r: Result<Frame, Failure>)
    ensures r.Ok? <==> st.Present? && exists rec :: rec in st.records && rec.field == f
    ensures r.Err? && st.Present? ==> r.error == KeyError("FieldName")
    ensures r.Ok? ==> r.value.columns == [f, f + "_Plaintext"]
  {
    var recs :- SelectField(st, f);
    FieldFrame(recs);
    assert |recs| != 0 <==> exists rec :: rec in st.records && rec.field == f by {
      if |recs| != 0 {
        assert recs[0] in recs;
      }
    }
    var df := FromTuples(Columns, StringFoldingWrapper(ResultOf(recs)));
    var dropped :- DropColumn(df, "FieldName");
    match SetColumns(dropped, [f, f + "_Plaintext"])
    case Ok(named) => Ok(DropDuplicates(named))
    case Err(e) => Err(e)
  }

  /** The records of field `f`, ordered by hash. */
  function FieldRecords(st: Store, f: string): seq<Record> {
    SortBy(Filter((rec: Record) => rec.field == f, Records(st)), HashKey)
  }

  /** The rows of a per-field map are the (hash, plaintext) pairs of the
      field's records, ordered by hash and de-duplicated keep-first. */
  lemma FieldMapRows(st: Store, f: string)
    requires FieldMap(st, f).Ok?
    ensures FieldMap(st, f).value.rows == Distinct(Map(Pair, FieldRecords(st, f)))
  {
    var recs := FieldRecords(st, f);
    FieldFrame(recs);
    var rec :| rec in st.records && rec.field == f;
    assert rec in recs;
  }

  /** The per-field map of `f` holds exactly the distinct (hash, plaintext)
      pairs of the store's records of field `f`, each once, in hash
      order. */
  lemma FieldMapContents(st: Store, f: string)
    requires FieldMap(st, f).Ok?
    ensures var rows := FieldMap(st, f).value.rows;
      NoDup(rows)
      && (forall row :: row in rows <==> exists rec :: rec in st.records && rec.field == f && row == Pair(rec))
      && Sorted(rows, HashRowKey)
  {
    FieldRecordsRows(st, f);
    FieldMapRows(st, f);
  }

  lemma FieldRecordsRows(st: Store, f: string)
    ensures var rows := Distinct(Map(Pair, FieldRecords(st, f)));
      NoDup(rows)
      && (forall row :: row in rows <==> exists rec :: rec in Records(st) && rec.field == f && row == Pair(rec))
      && Sorted(rows, HashRowKey)
  {
    var recs := FieldRecords(st, f);
    assert forall rec :: rec in recs <==> rec in Records(st) && rec.field == f by {
      SortByMembers(Filter((rec: Record) => rec.field == f, Records(st)), HashKey);
    }
    MapMembers(Pair, recs);
    assert Sorted(Distinct(Map(Pair, recs)), HashRowKey) by {
      SortedMap(recs, Pair, HashKey, HashRowKey);
      DistinctSorted(Map(Pair, recs), HashRowKey);
    }
  }
}

/** The hashed copies of the input files (`create_hashed_version_of_input`)
    and the output-writing phases. */
module Rewrite {

  import opened Results
  import opened Seqs
  import opened Strings
  import opened Folding
  import opened Tables
  import opened Hashing
  import opened MappingStore
  import opened Collect
  import opened Generators

  /** `set_index('Plaintext')['Hashvalue'].to_dict()`: a dictionary from
      plaintext to hash in which a later pair overwrites an earlier one with
      the same plaintext. */
  function ToDict(pairs: seq<(string, string)>): map<string, string>
    decreases |pairs|
  {
    if |pairs| == 0 then map[]
    else
      var last := pairs[|pairs| - 1];
      ToDict(pairs[..|pairs| - 1])[last.0 := last.1]
  }

  /** The dictionary's keys are the plaintexts of the pairs, and every
      entry is one of the pairs. */
  lemma {:induction false} ToDictEntries(pairs: seq<(string, string)>, k: string)
    ensures k in ToDict(pairs) <==> exists p :: p in pairs && p.0 == k
    ensures k in ToDict(pairs) ==> (k, ToDict(pairs)[k]) in pairs
    decreases |pairs|
  {
    if |pairs| != 0 {
      var n := |pairs| - 1;
      ToDictEntries(pairs[..n], k);
      assert pairs == pairs[..n] + [pairs[n]];
      if exists p :: p in pairs && p.0 == k {
        var p :| p in pairs && p.0 == k;
        if p != pairs[n] {
          assert p in pairs[..n];
        }
      }
    }
  }

  /** `pd.read_sql_query('SELECT Plaintext, Hashvalue FROM data')` turned
      into the dictionary; fails when the table does not exist. */
  function Mapping(st: Store): (r: Result<map<string, string>, Failure>)
    ensures r.Ok? <==> st.Present?
  {
    var pairs :- SelectPairs(st);
    Ok(ToDict(pairs))
  }

  /** The dictionary has an entry for exactly the stored plaintexts. */
  lemma MappingKeys(st: Store, k: string)
    requires st.Present?
    ensures k in Mapping(st).value <==> exists rec :: rec in st.records && rec.plain == k
  {
    var pairs := SelectPairs(st).value;
    ToDictEntries(pairs, k);
    if exists rec :: rec in st.records && rec.plain == k {
      var rec :| rec in st.records && rec.plain == k;
      var i :| 0 <= i < |st.records| && st.records[i] == rec;
      assert pairs[i] in pairs;
    }
    if exists p :: p in pairs && p.0 == k {
      var p :| p in pairs && p.0 == k;
      var i :| 0 <= i < |pairs| && pairs[i] == p;
      assert st.records[i] in st.records;
    }
  }

  /** Each entry of the dictionary is a stored (plaintext, hash) pair. */
  lemma MappingEntry(st: Store, k: string)
    requires st.Present? && k in Mapping(st).value
    ensures exists rec :: rec in st.records && rec.plain == k && rec.hash == Mapping(st).value[k]
  {
    var pairs := SelectPairs(st).value;
    ToDictEntries(pairs, k);
    var i :| 0 <= i < |pairs| && pairs[i] == (k, Mapping(st).value[k]);
    assert st.records[i] in st.records;
  }

  /** Collapsing the store into one dictionary without regard to the field
      loses nothing: in a well-hashed store, the dictionary has an entry for
      exactly the stored plaintexts, and each entry is that plaintext's
      hash, whichever field and file it came from. */
  lemma MappingOfWellHashed(D: DigestFn, c: CryptoHash, st: Store, k: string)
    requires st.Present? && WellHashed(D, c, st.records)
    ensures k in Mapping(st).value <==> exists rec :: rec in st.records && rec.plain == k
    ensures k in Mapping(st).value ==> Mapping(st).value[k] == HashText(D, c, k)
  {
    MappingKeys(st, k);
    if k in Mapping(st).value {
      MappingEntry(st, k);
    }
  }

  /** `mapping.get(cell)`: the hash stored for the cell's text, or `None`
      when the dictionary has none. */
  function Lookup(m: map<string, string>, v: Value): Value {
    if v.Text? && v.s in m then Text(m[v.s]) else Null
  }

  /** `frame[fields] = frame[fields].applymap(mapping.get)`: every cell of a
      listed column is looked up, every other cell is kept. */
  function HashFrame(fr: Frame, fields: seq<string>, m: map<string, string>): (r: Frame)
    requires Rectangular(fr)
    ensures r.columns == fr.columns && Rectangular(r) && |r.rows| == |fr.rows|
    ensures forall i, j :: 0 <= i < |fr.rows| && 0 <= j < |fr.columns| ==>
      r.rows[i][j] == if fr.columns[j] in fields then Lookup(m, fr.rows[i][j]) else fr.rows[i][j]
  {
    Frame(fr.columns, seq(|fr.rows|, i requires 0 <= i < |fr.rows| =>
      seq(|fr.columns|, j requires 0 <= j < |fr.columns| =>
        if fr.columns[j] in fields then Lookup(m, fr.rows[i][j]) else fr.rows[i][j])))
  }

  /** The hashed copy of one input file: its selected columns rewritten
      through the dictionary. */
  function HashedCopy(file: CsvFile, selected: seq<string>, m: map<string, string>): Frame {
    HashFrame(InputFrame(file), ResolveFields(selected, file.header), m)
  }

  /** A value of a column, at a given row, is a value of that column. */
  lemma CellInColumn(file: CsvFile, i: nat, j: nat)
    requires i < |file.rows| && j < |file.header|
    ensures file.rows[i][j] in ColumnOf(file, file.header[j])
  {
    FirstIndexUnique(file.header, file.header[j], j);
    assert ColumnOf(file, file.header[j])[i] == file.rows[i][j];
  }

  /** End to end: after collecting a run's files into a well-hashed store,
      the hashed copy of each of those files keeps its header and row count,
      replaces every cell of a selected column by the hash of that cell, and
      leaves every other cell as it was. */
  lemma HashedCopyCells(D: DigestFn, c: CryptoHash, st0: Store, files: seq<CsvFile>, selected: seq<string>, k: nat, i: nat, j: nat)
    requires WellHashed(D, c, Records(st0))
    requires CreateTempDb(D, c, st0, files, selected).Present?
    requires k < |files| && i < |files[k].rows| && j < |files[k].header|
    ensures var out := HashedCopy(files[k], selected, Mapping(CreateTempDb(D, c, st0, files, selected)).value);
      out.columns == files[k].header && |out.rows| == |files[k].rows|
      && (files[k].header[j] in selected ==> out.rows[i][j] == Text(HashText(D, c, files[k].rows[i][j])))
      && (files[k].header[j] !in selected ==> out.rows[i][j] == Text(files[k].rows[i][j]))
  {
    var st := CreateTempDb(D, c, st0, files, selected);
    var file := files[k];
    var f, v := file.header[j], file.rows[i][j];
    assert WellHashed(D, c, st.records) by {
      RunRecordsWellHashed(D, c, files, selected);
    }
    if f in selected {
      var rec := Record(HashText(D, c, v), v, f);
      CellInColumn(file, i, j);
      assert ProducedFor(D, c, files[k], selected, rec);
      RunRecordsContents(D, c, files, selected, rec);
      assert rec in st.records;
      MappingOfWellHashed(D, c, st, v);
    }
  }
}
