/** Collection (`CSVCryptoHash.create_temp_db`): for every input file and
    every selected field the file has, the column's distinct values are
    hashed and appended to the store as records. */
module Collect {

  import opened Seqs
  import opened Folding
  import opened Tables
  import opened Hashing
  import opened MappingStore

  /** The record of one plaintext of field `f`. */
  function RecordOf(D: DigestFn, c: CryptoHash, f: string, v: string): Record {
    Record(HashText(D, c, v), v, f)
  }

  /** The batch appended for one (file, field) pair (lines 197-204): the
      column's distinct values in first-occurrence order, each with its hash
      and the field name. No two records of a batch share a plaintext. */
  function Batch(D: DigestFn, c: CryptoHash, file: CsvFile, f: string): (b: seq<Record>)
    requires f in file.header
    ensures |b| <= |file.rows|
    ensures forall i, j :: 0 <= i < j < |b| ==> b[i].plain != b[j].plain
  {
    var d := Distinct(ColumnOf(file, f));
    DistinctLength(ColumnOf(file, f));
    Map(v => RecordOf(D, c, f, v), d)
  }

  /** A batch holds exactly the records of the column's values: field `f`,
      a plaintext found in the column, and that plaintext's hash. */
  lemma BatchContents(D: DigestFn, c: CryptoHash, file: CsvFile, f: string, rec: Record)
    requires f in file.header
    ensures rec in Batch(D, c, file, f) <==>
      rec.field == f && rec.plain in ColumnOf(file, f) && rec.hash == HashText(D, c, rec.plain)
  {
    var d := Distinct(ColumnOf(file, f));
    var b := Batch(D, c, file, f);
    if rec.field == f && rec.plain in ColumnOf(file, f) && rec.hash == HashText(D, c, rec.plain) {
      var i :| 0 <= i < |d| && d[i] == rec.plain;
      assert b[i] == rec;
    }
  }

  /** De-duplication never lengthens a sequence. */
  lemma {:induction false} DistinctLength<T(!new)>(s: seq<T>)
    ensures |Distinct(s)| <= |s|
    decreases |s|
  {
    if |s| != 0 {
      DistinctLength(s[..|s| - 1]);
    }
  }

  /** `rec` is one of the records file `file` contributes for the fields in
      `fields`. */
  ghost predicate ProducedFor(D: DigestFn, c: CryptoHash, file: CsvFile, fields: seq<string>, rec: Record) {
    rec.field in fields && rec.field in file.header && rec.plain in ColumnOf(file, rec.field)
    && rec.hash == HashText(D, c, rec.plain)
  }

  /** The records one file contributes for `fields`: the batches of the
      fields, in order. */
  function FileRecords(D: DigestFn, c: CryptoHash, file: CsvFile, fields: seq<string>): seq<Record>
    requires forall f :: f in fields ==> f in file.header
    decreases |fields|
  {
    if |fields| == 0 then []
    else FileRecords(D, c, file, fields[..|fields| - 1]) + Batch(D, c, file, fields[|fields| - 1])
  }

  /** A file contributes exactly the records of the listed fields' values,
      each holding the hash of its plaintext. */
  lemma {:induction false} FileRecordsContents(D: DigestFn, c: CryptoHash, file: CsvFile, fields: seq<string>, rec: Record)
    requires forall f :: f in fields ==> f in file.header
    ensures rec in FileRecords(D, c, file, fields) <==> ProducedFor(D, c, file, fields, rec)
    decreases |fields|
  {
    if |fields| != 0 {
      var n := |fields| - 1;
      FileRecordsContents(D, c, file, fields[..n], rec);
      BatchContents(D, c, file, fields[n], rec);
      assert rec.field in fields <==> rec.field in fields[..n] || rec.field == fields[n] by {
        assert fields == fields[..n] + [fields[n]];
      }
    }
  }

  /** Every record a file contributes belongs to one of the listed fields. */
  lemma FileRecordsFields(D: DigestFn, c: CryptoHash, file: CsvFile, fields: seq<string>, rec: Record)
    requires forall f :: f in fields ==> f in file.header
    requires rec in FileRecords(D, c, file, fields)
    ensures rec.field in fields
  {
    FileRecordsContents(D, c, file, fields, rec);
  }

  /** De-duplication is per file: for distinct fields, the records one file
      contributes are pairwise distinct. */
  lemma {:induction false} FileRecordsNoDup(D: DigestFn, c: CryptoHash, file: CsvFile, fields: seq<string>)
    requires forall f :: f in fields ==> f in file.header
    requires NoDup(fields)
    ensures NoDup(FileRecords(D, c, file, fields))
    decreases |fields|
  {
    if |fields| != 0 {
      var n := |fields| - 1;
      var f := fields[n];
      var prev := FileRecords(D, c, file, fields[..n]);
      var b := Batch(D, c, file, f);
      FileRecordsNoDup(D, c, file, fields[..n]);
      assert f !in fields[..n];
      forall rec | rec in prev
        ensures rec !in b
      {
        FileRecordsFields(D, c, file, fields[..n], rec);
        BatchContents(D, c, file, f, rec);
      }
      assert NoDup(b) by {
        forall i, j | 0 <= i < j < |b|
          ensures b[i] != b[j]
        {
          assert b[i].plain != b[j].plain;
        }
      }
      NoDupAppend(prev, b);
      assert FileRecords(D, c, file, fields) == prev + b;
    }
  }

  /** The inner loop of `create_temp_db`: one append per field, in order.
      The store grows by exactly the file's records; the table exists
      afterwards when it did before or some field was listed. */
  function CollectFields(D: DigestFn, c: CryptoHash, st: Store, file: CsvFile, fields: seq<string>): (r: Store)
    requires forall f :: f in fields ==> f in file.header
    ensures Records(r) == Records(st) + FileRecords(D, c, file, fields)
    ensures r.Present? <==> st.Present? || |fields| != 0
    ensures |fields| == 0 ==> r == st
    decreases |fields|
  {
    if |fields| == 0 then st
    else
      var n := |fields| - 1;
      FileRecordsSnoc(D, c, st, file, fields);
      Append(CollectFields(D, c, st, file, fields[..n]), Batch(D, c, file, fields[n]))
  }

  /** The records of all listed fields are those of all but the last,
      then the last one's batch. */
  lemma FileRecordsSnoc(D: DigestFn, c: CryptoHash, st: Store, file: CsvFile, fields: seq<string>)
    requires |fields| != 0 && forall f :: f in fields ==> f in file.header
    ensures var n := |fields| - 1;
      (forall f :: f in fields[..n] ==> f in file.header) && fields[n] in file.header
      && Records(st) + FileRecords(D, c, file, fields)
         == Records(st) + FileRecords(D, c, file, fields[..n]) + Batch(D, c, file, fields[n])
  {
    var n := |fields| - 1;
    assert forall f :: f in fields[..n] ==> f in fields;
    assert fields[n] in fields;
  }

  /** One iteration of the outer loop: the batches of one file, for the
      selected fields it has. */
  function CollectFile(D: DigestFn, c: CryptoHash, st: Store, file: CsvFile, selected: seq<string>): Store {
    CollectFields(D, c, st, file, ResolveFields(selected, file.header))
  }

  /** `rec` is one of the records some file contributes: its field is
      selected and present in the file, its plaintext is a value of that
      column, and its hash is that plaintext's hash. */
  ghost predicate Produced(D: DigestFn, c: CryptoHash, files: seq<CsvFile>, selected: seq<string>, rec: Record) {
    exists i :: 0 <= i < |files| && ProducedFor(D, c, files[i], selected, rec)
  }

  /** A file and the selection have a field in common. */
  predicate Overlaps(file: CsvFile, selected: seq<string>) {
    exists f :: f in selected && f in file.header
  }

  /** The records a run over `files` contributes, file after file. */
  function RunRecords(D: DigestFn, c: CryptoHash, files: seq<CsvFile>, selected: seq<string>): seq<Record>
    decreases |files|
  {
    if |files| == 0 then []
    else
      var n := |files| - 1;
      RunRecords(D, c, files[..n], selected) + FileRecords(D, c, files[n], ResolveFields(selected, files[n].header))
  }

  /** Some file of `files` has a selected field. */
  predicate AnyOverlaps(files: seq<CsvFile>, selected: seq<string>) {
    exists i :: 0 <= i < |files| && Overlaps(files[i], selected)
  }

  lemma AnyOverlapsSnoc(files: seq<CsvFile>, selected: seq<string>)
    requires |files| != 0
    ensures AnyOverlaps(files, selected) <==>
      AnyOverlaps(files[..|files| - 1], selected) || Overlaps(files[|files| - 1], selected)
  {
    if AnyOverlaps(files, selected) {
      AnyOverlapsSplit(files, selected);
    }
    if AnyOverlaps(files[..|files| - 1], selected) {
      AnyOverlapsPrefix(files, |files| - 1, selected);
    }
  }

  lemma AnyOverlapsSplit(files: seq<CsvFile>, selected: seq<string>)
    requires |files| != 0 && AnyOverlaps(files, selected)
    ensures AnyOverlaps(files[..|files| - 1], selected) || Overlaps(files[|files| - 1], selected)
  {
    var n := |files| - 1;
    var i :| 0 <= i < |files| && Overlaps(files[i], selected);
    if i < n {
      assert files[..n][i] == files[i];
    }
  }

  lemma AnyOverlapsPrefix(files: seq<CsvFile>, n: nat, selected: seq<string>)
    requires n <= |files| && AnyOverlaps(files[..n], selected)
    ensures AnyOverlaps(files, selected)
  {
    var i :| 0 <= i < n && Overlaps(files[..n][i], selected);
    assert files[..n][i] == files[i];
  }

  /** `create_temp_db(files, fields2hash)`: the store only grows, by exactly
      the run's records, with the records already present kept in place.
      The table exists afterwards exactly when it did before or some file
      has a selected field. */
  function CreateTempDb(D: DigestFn, c: CryptoHash, st: Store, files: seq<CsvFile>, selected: seq<string>): (r: Store)
    ensures Records(r) == Records(st) + RunRecords(D, c, files, selected)
    ensures r.Present? <==> st.Present? || AnyOverlaps(files, selected)
    decreases |files|
  {
    if |files| == 0 then st
    else
      var n := |files| - 1;
      var mid := CreateTempDb(D, c, st, files[..n], selected);
      var fields := ResolveFields(selected, files[n].header);
      OverlapsResolve(files[n], selected);
      AnyOverlapsSnoc(files, selected);
      AppendAssoc(Records(st), RunRecords(D, c, files[..n], selected), FileRecords(D, c, files[n], fields));
      CollectFields(D, c, mid, files[n], fields)
  }

  lemma AppendAssoc(a: seq<Record>, b: seq<Record>, x: seq<Record>)
    ensures a + (b + x) == (a + b) + x
  {
  }

  /** A file has a selected field exactly when field resolution finds
      one. */
  lemma OverlapsResolve(file: CsvFile, selected: seq<string>)
    ensures Overlaps(file, selected) <==> |ResolveFields(selected, file.header)| != 0
  {
    var r := ResolveFields(selected, file.header);
    if Overlaps(file, selected) {
      var f :| f in selected && f in file.header;
      assert f in r;
    }
    if |r| != 0 {
      assert r[0] in r;
    }
  }

  lemma ProducedSnoc(D: DigestFn, c: CryptoHash, files: seq<CsvFile>, selected: seq<string>, rec: Record)
    requires |files| != 0
    ensures Produced(D, c, files, selected, rec) <==>
      Produced(D, c, files[..|files| - 1], selected, rec) || ProducedFor(D, c, files[|files| - 1], selected, rec)
  {
    if Produced(D, c, files, selected, rec) {
      ProducedSnocSplit(D, c, files, selected, rec);
    }
    if Produced(D, c, files[..|files| - 1], selected, rec) {
      ProducedPrefix(D, c, files, |files| - 1, selected, rec);
    }
  }

  lemma ProducedSnocSplit(D: DigestFn, c: CryptoHash, files: seq<CsvFile>, selected: seq<string>, rec: Record)
    requires |files| != 0 && Produced(D, c, files, selected, rec)
    ensures Produced(D, c, files[..|files| - 1], selected, rec) || ProducedFor(D, c, files[|files| - 1], selected, rec)
  {
    var n := |files| - 1;
    if !ProducedFor(D, c, files[n], selected, rec) {
      var i :| 0 <= i < |files| && ProducedFor(D, c, files[i], selected, rec);
      assert i != n;
      assert files[..n][i] == files[i];
    }
  }

  lemma ProducedPrefix(D: DigestFn, c: CryptoHash, files: seq<CsvFile>, n: nat, selected: seq<string>, rec: Record)
    requires n <= |files| && Produced(D, c, files[..n], selected, rec)
    ensures Produced(D, c, files, selected, rec)
  {
    var i :| 0 <= i < n && ProducedFor(D, c, files[..n][i], selected, rec);
    assert files[..n][i] == files[i];
  }

  /** Resolving the selection against the header first changes nothing
      about which records a file produces. */
  lemma ProducedForResolved(D: DigestFn, c: CryptoHash, file: CsvFile, selected: seq<string>, rec: Record)
    ensures ProducedFor(D, c, file, ResolveFields(selected, file.header), rec) <==> ProducedFor(D, c, file, selected, rec)
  {
  }

  /** A run contributes exactly the records some file produces for its
      selected fields. */
  lemma {:induction false} RunRecordsContents(D: DigestFn, c: CryptoHash, files: seq<CsvFile>, selected: seq<string>, rec: Record)
    ensures rec in RunRecords(D, c, files, selected) <==> Produced(D, c, files, selected, rec)
    decreases |files|
  {
    if |files| != 0 {
      var n := |files| - 1;
      var fields := ResolveFields(selected, files[n].header);
      RunRecordsContents(D, c, files[..n], selected, rec);
      FileRecordsContents(D, c, files[n], fields, rec);
      ProducedForResolved(D, c, files[n], selected, rec);
      ProducedSnoc(D, c, files, selected, rec);
    }
  }

  /** A file with no selected field appends nothing. */
  lemma NoOverlapNoChange(D: DigestFn, c: CryptoHash, st: Store, file: CsvFile, selected: seq<string>)
    requires !Overlaps(file, selected)
    ensures CollectFile(D, c, st, file, selected) == st
  {
    OverlapsResolve(file, selected);
  }

  /** The records appended by a run are well hashed: each holds the hash of
      its plaintext and a selected field. */
  lemma RunRecordsWellHashed(D: DigestFn, c: CryptoHash, files: seq<CsvFile>, selected: seq<string>)
    ensures WellHashed(D, c, RunRecords(D, c, files, selected))
    ensures forall rec :: rec in RunRecords(D, c, files, selected) ==> rec.field in selected
  {
    forall rec | rec in RunRecords(D, c, files, selected)
      ensures rec.hash == HashText(D, c, rec.plain) && rec.field in selected
    {
      RunRecordsContents(D, c, files, selected, rec);
    }
  }
}
