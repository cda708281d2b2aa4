/** The temporary SQLite table `data` in `source.db`, which holds one
    `(Hashvalue, Plaintext, FieldName)` record per hashed value, and the
    three queries the generators run against it. */
module MappingStore {

  import opened Results
  import opened Seqs
  import opened Order
  import opened Folding
  import opened Tables
  import opened Hashing

  /** One row of table `data`, in its column order. */
  datatype Record = Record(hash: string, plain: string, field: string)

  /** The table does not exist until the first batch is appended. */
  datatype Store = Absent | Present(records: seq<Record>)

  /** The records of the table, none when it does not exist. */
  function Records(st: Store): seq<Record> {
    if st.Present? then st.records else []
  }

  /** `to_sql('data', ..., if_exists='append')`: creates the table when it
      is missing (even for an empty batch) and appends the batch. */
  function Append(st: Store, batch: seq<Record>): Store {
    Present(Records(st) + batch)
  }

  /** The column labels of table `data`. */
  const Columns: seq<string> := ["Hashvalue", "Plaintext", "FieldName"]

  /** A record as a row of cells, in column order. */
  function Cells(rec: Record): seq<Value> {
    [Text(rec.hash), Text(rec.plain), Text(rec.field)]
  }

  /** Distinct records give distinct rows. */
  lemma CellsInjective(a: Record, b: Record)
    requires Cells(a) == Cells(b)
    ensures a == b
  {
    assert Cells(a)[0] == Cells(b)[0] && Cells(a)[1] == Cells(b)[1] && Cells(a)[2] == Cells(b)[2];
  }

  /** A record as a result row keyed by column label. */
  function RowMap(rec: Record): map<string, Value> {
    map["Hashvalue" := Text(rec.hash), "Plaintext" := Text(rec.plain), "FieldName" := Text(rec.field)]
  }

  /** The streamed result of a `SELECT *` returning `records`. */
  function ResultOf(records: seq<Record>): (r: ResultSet)
    ensures WellFormed(r) && r.keys == Columns
  {
    ResultSet(Columns, Map(RowMap, records))
  }

  /** Folding a `SELECT *` result yields each record's cells, one tuple per
      record, in result order. */
  lemma WrapperOfResult(records: seq<Record>)
    ensures StringFoldingWrapper(ResultOf(records)) == Map(Cells, records)
  {
    var r := StringFoldingWrapper(ResultOf(records));
    forall i | 0 <= i < |records|
      ensures r[i] == Cells(records[i])
    {
      assert r[i][0] == Text(records[i].hash);
      assert r[i][1] == Text(records[i].plain);
      assert r[i][2] == Text(records[i].field);
    }
  }

  /** Sort key of `ORDER BY FieldName, Plaintext`. */
  function SummaryKey(rec: Record): seq<string> {
    [rec.field, rec.plain]
  }

  /** Sort key of `ORDER BY Hashvalue`. */
  function HashKey(rec: Record): seq<string> {
    [rec.hash]
  }

  /** `SELECT * FROM data ORDER BY FieldName, Plaintext`: every record,
      ordered by field then plaintext; fails when the table does not
      exist. */
  function SelectOrdered(st: Store): (r: Result<seq<Record>, Failure>)
    ensures r.Ok? <==> st.Present?
    ensures r.Err? ==> r.error == NoSuchTable
    ensures r.Ok? ==> Sorted(r.value, SummaryKey) && multiset(r.value) == multiset(st.records)
  {
    if st.Absent? then Err(NoSuchTable) else Ok(SortBy(st.records, SummaryKey))
  }

  /** `SELECT * FROM data WHERE FieldName == :f ORDER BY Hashvalue`: the
      records of field `f`, ordered by hash; fails when the table does not
      exist. */
  function SelectField(st: Store, f: string): (r: Result<seq<Record>, Failure>)
    ensures r.Ok? <==> st.Present?
    ensures r.Err? ==> r.error == NoSuchTable
    ensures r.Ok? ==> Sorted(r.value, HashKey)
    ensures r.Ok? ==> forall rec :: rec in r.value <==> rec in st.records && rec.field == f
  {
    if st.Absent? then Err(NoSuchTable)
    else
      var sel := Filter((rec: Record) => rec.field == f, st.records);
      var r := SortBy(sel, HashKey);
      assert forall rec :: rec in r <==> rec in sel by {
        forall rec
          ensures rec in r <==> rec in sel
        {
          assert rec in r <==> rec in multiset(r);
          assert rec in sel <==> rec in multiset(sel);
        }
      }
      Ok(r)
  }

  /** `SELECT Plaintext, Hashvalue FROM data`: every record as a
      (plaintext, hash) pair, in table order; fails when the table does not
      exist. */
  function SelectPairs(st: Store): (r: Result<seq<(string, string)>, Failure>)
    ensures r.Ok? <==> st.Present?
    ensures r.Ok? ==> |r.value| == |st.records|
    ensures r.Ok? ==> forall i :: 0 <= i < |r.value| ==> r.value[i] == (st.records[i].plain, st.records[i].hash)
  {
    if st.Absent? then Err(NoSuchTable) else Ok(Map((rec: Record) => (rec.plain, rec.hash), st.records))
  }

  /** Every record holds the hash of its own plaintext under the selected
      algorithm. */
  ghost predicate WellHashed(D: DigestFn, c: CryptoHash, records: seq<Record>) {
    forall rec :: rec in records ==> rec.hash == HashText(D, c, rec.plain)
  }

  /** In a well-hashed store the plaintext determines the hash, whatever
      field the records come from. */
  lemma HashDeterminedByPlain(D: DigestFn, c: CryptoHash, records: seq<Record>, a: Record, b: Record)
    requires WellHashed(D, c, records) && a in records && b in records
    ensures a.plain == b.plain ==> a.hash == b.hash
    ensures a.plain == b.plain && a.field == b.field ==> a == b
  {
  }
}
