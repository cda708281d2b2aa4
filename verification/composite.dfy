/** The frame `create_temp_db` builds for one (file, field) pair before
    appending it to table `data` (lines 197-203), step by step as pandas
    performs it: the field's column, de-duplicated, then the columns
    `Hashvalue`, `Plaintext` and `FieldName` assigned and the field's own
    column dropped. */
module Composite {

  import opened Seqs
  import opened Folding
  import opened Tables
  import opened Hashing
  import opened MappingStore
  import opened Collect
  import opened Generators

  /** A one-cell row. */
  function KeyRow(v: string): seq<Value> {
    [Text(v)]
  }

  /** `pdcomposite.loc[:, [field]]` followed by `drop_duplicates()`: the
      field's distinct values, one per row, in first-occurrence order. */
  function KeyFrame(file: CsvFile, f: string): (r: Frame)
    requires f in file.header
    ensures r.columns == [f] && r.rows == Map(KeyRow, Distinct(ColumnOf(file, f)))
    ensures Rectangular(r)
  {
    var col := ColumnOf(file, f);
    DistinctMap(KeyRow, col);
    DropDuplicates(Frame([f], Map(KeyRow, col)))
  }

  /** `compositefile["Hashvalue"] = compositefile.apply(...)`: the hash of
      the text in the first column, the field's, of every row. */
  function HashStage(D: DigestFn, c: CryptoHash, fr: Frame): (r: Frame)
    requires Rectangular(fr)
    ensures Rectangular(r) && |r.rows| == |fr.rows|
    ensures r.columns == AfterAssign(fr.columns, "Hashvalue")
  {
    AssignColumn(fr, "Hashvalue", Map(row => Text(HashText(D, c, TextAt(row, 0))), fr.rows))
  }

  /** `compositefile["Plaintext"] = compositefile[field]`. */
  function PlainStage(fr: Frame, f: string): (r: Frame)
    requires Rectangular(fr) && f in fr.columns
    ensures Rectangular(r) && |r.rows| == |fr.rows|
    ensures r.columns == AfterAssign(fr.columns, "Plaintext")
  {
    AssignColumn(fr, "Plaintext", FrameColumn(fr, FirstIndex(fr.columns, f)))
  }

  /** `compositefile["FieldName"] = field`. */
  function FieldStage(fr: Frame, f: string): (r: Frame)
    requires Rectangular(fr)
    ensures Rectangular(r) && |r.rows| == |fr.rows|
    ensures r.columns == AfterAssign(fr.columns, "FieldName")
  {
    AssignColumn(fr, "FieldName", seq(|fr.rows|, _ => Text(f)))
  }

  /** The labels after `df[name] = ...`: unchanged when the frame has the
      column, the name appended otherwise. */
  function AfterAssign(cols: seq<string>, name: string): seq<string> {
    if name in cols then cols else cols + [name]
  }

  /** The frame before the drop. */
  function Assigned(D: DigestFn, c: CryptoHash, file: CsvFile, f: string): (r: Frame)
    requires f in file.header
    ensures Rectangular(r) && f in r.columns && r.columns[0] == f
    ensures r.columns == AfterAssign(AfterAssign(AfterAssign([f], "Hashvalue"), "Plaintext"), "FieldName")
  {
    FieldStage(PlainStage(HashStage(D, c, KeyFrame(file, f)), f), f)
  }

  /** The composite frame as written: `drop([field], axis=1)` of the
      assigned frame. */
  function CompositeFrame(D: DigestFn, c: CryptoHash, file: CsvFile, f: string): Frame
    requires f in file.header
  {
    DropColumn(Assigned(D, c, file, f), f).value
  }

  /** For a field not named like a column of table `data`, the composite
      frame is the batch: the table's three columns and one row of cells per
      record of the batch, in the batch's order. */
  lemma CompositeFrameIsBatch(D: DigestFn, c: CryptoHash, file: CsvFile, f: string)
    requires f in file.header && f !in Columns
    ensures CompositeFrame(D, c, file, f) == Frame(Columns, Map(Cells, Batch(D, c, file, f)))
  {
    var d := Distinct(ColumnOf(file, f));
    var fr4 := Assigned(D, c, file, f);
    AssignedRows(D, c, file, f);
    FirstIndexUnique(fr4.columns, f, 0);
    var r := CompositeFrame(D, c, file, f);
    var b := Batch(D, c, file, f);
    assert |r.rows| == |b|;
    forall i | 0 <= i < |b|
      ensures r.rows[i] == Cells(b[i])
    {
      assert r.rows[i] == Without(fr4.rows[i], 0);
      assert b[i] == RecordOf(D, c, f, d[i]);
    }
    assert r.columns == Columns;
  }

  /** For a field not named like a column of table `data`, the assigned
      frame holds the value, its hash, the value again and the field name. */
  lemma AssignedRows(D: DigestFn, c: CryptoHash, file: CsvFile, f: string)
    requires f in file.header && f !in Columns
    ensures var d := Distinct(ColumnOf(file, f)); var r := Assigned(D, c, file, f);
      r.columns == [f, "Hashvalue", "Plaintext", "FieldName"] && |r.rows| == |d|
      && forall i :: 0 <= i < |d| ==> r.rows[i] == [Text(d[i]), Text(HashText(D, c, d[i])), Text(d[i]), Text(f)]
  {
    var d := Distinct(ColumnOf(file, f));
    var fr1 := KeyFrame(file, f);
    var fr2 := HashStage(D, c, fr1);
    var fr3 := PlainStage(fr2, f);
    var fr4 := FieldStage(fr3, f);
    assert fr4 == Assigned(D, c, file, f);
    HashStageRows(D, c, fr1, f);
    PlainStageRows(fr2, f);
    FieldStageRows(fr3, f);
    assert |fr1.rows| == |d|;
    forall i | 0 <= i < |d|
      ensures fr4.rows[i] == [Text(d[i]), Text(HashText(D, c, d[i])), Text(d[i]), Text(f)]
    {
      assert fr1.rows[i] == [Text(d[i])];
      assert fr2.rows[i] == [Text(d[i]), Text(HashText(D, c, d[i]))];
      assert fr3.rows[i] == [Text(d[i]), Text(HashText(D, c, d[i])), Text(d[i])];
    }
  }

  /** Without a column of that name, `Hashvalue` is appended after the
      field's column. */
  lemma HashStageRows(D: DigestFn, c: CryptoHash, fr: Frame, f: string)
    requires Rectangular(fr) && fr.columns == [f] && f != "Hashvalue"
    ensures var r := HashStage(D, c, fr);
      r.columns == [f, "Hashvalue"]
      && forall i :: 0 <= i < |fr.rows| ==> r.rows[i] == fr.rows[i] + [Text(HashText(D, c, TextAt(fr.rows[i], 0)))]
  {
  }

  /** Without a column of that name, `Plaintext` is appended as a copy of
      the field's column. */
  lemma PlainStageRows(fr: Frame, f: string)
    requires Rectangular(fr) && fr.columns == [f, "Hashvalue"] && f != "Plaintext"
    ensures var r := PlainStage(fr, f);
      r.columns == [f, "Hashvalue", "Plaintext"]
      && forall i :: 0 <= i < |fr.rows| ==> r.rows[i] == fr.rows[i] + [fr.rows[i][0]]
  {
    FirstIndexUnique(fr.columns, f, 0);
  }

  /** Without a column of that name, `FieldName` is appended holding the
      field's name. */
  lemma FieldStageRows(fr: Frame, f: string)
    requires Rectangular(fr) && fr.columns == [f, "Hashvalue", "Plaintext"] && f != "FieldName"
    ensures var r := FieldStage(fr, f);
      r.columns == [f, "Hashvalue", "Plaintext", "FieldName"]
      && forall i :: 0 <= i < |fr.rows| ==> r.rows[i] == fr.rows[i] + [Text(f)]
  {
  }

  /** As written, a field named `Hashvalue`, `Plaintext` or `FieldName` has
      its column overwritten by the assignment of that name and then
      dropped, so the frame appended to table `data` lacks that column. */
  lemma CompositeFrameClash(D: DigestFn, c: CryptoHash, file: CsvFile, f: string)
    requires f in file.header && f in Columns
    ensures f !in CompositeFrame(D, c, file, f).columns
    ensures |CompositeFrame(D, c, file, f).columns| == 2
  {
    var fr4 := Assigned(D, c, file, f);
    AssignedColumns(f);
    assert |fr4.columns| == 3 && fr4.columns[1] != f && fr4.columns[2] != f;
    FirstIndexUnique(fr4.columns, f, 0);
    assert CompositeFrame(D, c, file, f).columns == fr4.columns[1..];
  }

  /** The labels of the assigned frame of a field named like a column of
      table `data`: the field first, then the other two. */
  lemma AssignedColumns(f: string)
    requires f in Columns
    ensures var cols := AfterAssign(AfterAssign(AfterAssign([f], "Hashvalue"), "Plaintext"), "FieldName");
      (f == "Hashvalue" ==> cols == [f, "Plaintext", "FieldName"])
      && (f == "Plaintext" ==> cols == [f, "Hashvalue", "FieldName"])
      && (f == "FieldName" ==> cols == [f, "Hashvalue", "Plaintext"])
  {
  }
}
