/** String folding (`StringFolder.fold_string`) and the generator that turns
    a streamed query result into tuples of folded values
    (`string_folding_wrapper`). Folding only affects object identity, which
    has no counterpart here: what is modelled is the table of representative
    strings it keeps, and the fact that every value comes back equal to
    itself. */
module Folding {

  /** A cell as seen by the folding code: a string, or a value of another
      type (Python `None`, which is also what a missing dictionary entry and
      an SQL NULL become). */
  datatype Value = Text(s: string) | Null

  /** The table of representative strings. Under Python 3 `str(s)` never
      raises `UnicodeEncodeError`, so every string goes to `sys.intern` and
      `unicode_map` is never consulted; both are the same kind of table, a
      lookup that stores a string as its own representative the first time
      it is seen. */
  datatype Folder = Folder(table: map<string, string>)

  /** Every stored representative equals its key. */
  predicate Valid(f: Folder) {
    forall k :: k in f.table ==> f.table[k] == k
  }

  /** `fold_string(v)`: non-strings come back unchanged and leave the table
      alone; a string comes back as its representative, which is entered
      into the table if it was missing. Either way the value returned equals
      the value given, and representatives already chosen stay as they
      were. */
  function FoldString(f: Folder, v: Value): (r: (Folder, Value))
    requires Valid(f)
    ensures Valid(r.0)
    ensures r.1 == v
    ensures forall k :: k in f.table ==> k in r.0.table && r.0.table[k] == f.table[k]
    ensures v.Text? ==> r.0.table.Keys == f.table.Keys + {v.s}
    ensures v.Null? ==> r.0 == f
  {
    match v
    case Null => (f, v)
    case Text(s) =>
      if s in f.table then (f, Text(f.table[s]))
      else (Folder(f.table[s := s]), Text(s))
  }

  /** A streamed query result: its column keys, and rows mapping keys to
      values. */
  datatype ResultSet = ResultSet(keys: seq<string>, rows: seq<map<string, Value>>)

  /** Every row has a value for every key, as rows of a query result do. */
  predicate WellFormed(rs: ResultSet) {
    forall i, j :: 0 <= i < |rs.rows| && 0 <= j < |rs.keys| ==> rs.keys[j] in rs.rows[i]
  }

  /** The tuple built for one row: `tuple(folder.fold_string(row[key]) for
      key in keys)`, threading the folder through. */
  function FoldRow(f: Folder, row: map<string, Value>, keys: seq<string>): (r: (Folder, seq<Value>))
    requires Valid(f)
    requires forall j :: 0 <= j < |keys| ==> keys[j] in row
    ensures Valid(r.0)
    ensures |r.1| == |keys|
    ensures forall j :: 0 <= j < |keys| ==> r.1[j] == row[keys[j]]
    decreases |keys|
  {
    if |keys| == 0 then (f, [])
    else
      var head := FoldString(f, row[keys[0]]);
      var tail := FoldRow(head.0, row, keys[1..]);
      (tail.0, [head.1] + tail.1)
  }

  /** The tuples for a run of rows, one folder shared by all of them. */
  function FoldRows(f: Folder, rows: seq<map<string, Value>>, keys: seq<string>): (r: seq<seq<Value>>)
    requires Valid(f)
    requires forall i, j :: 0 <= i < |rows| && 0 <= j < |keys| ==> keys[j] in rows[i]
    ensures |r| == |rows|
    ensures forall i :: 0 <= i < |rows| ==> |r[i]| == |keys|
    ensures forall i, j :: 0 <= i < |rows| && 0 <= j < |keys| ==> r[i][j] == rows[i][keys[j]]
    decreases |rows|
  {
    if |rows| == 0 then []
    else
      var first := FoldRow(f, rows[0], keys);
      [first.1] + FoldRows(first.0, rows[1..], keys)
  }

  /** `string_folding_wrapper(results)`: exactly one tuple per result row,
      holding that row's values in key order. */
  function StringFoldingWrapper(rs: ResultSet): (r: seq<seq<Value>>)
    requires WellFormed(rs)
    ensures |r| == |rs.rows|
    ensures forall i :: 0 <= i < |r| ==> |r[i]| == |rs.keys|
    ensures forall i, j :: 0 <= i < |r| && 0 <= j < |rs.keys| ==> r[i][j] == rs.rows[i][rs.keys[j]]
  {
    FoldRows(Folder(map[]), rs.rows, rs.keys)
  }
}
