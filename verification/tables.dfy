/** The two kinds of table the program handles: an input CSV file as read
    by pandas (a header and rows of string cells), and a pandas DataFrame
    with the few frame operations the program applies. */
module Tables {

  import opened Results
  import opened Seqs
  import opened Folding

  /** Why an operation on the store or on a frame fails. */
  datatype Failure =
    | NoSuchTable            // a query on table `data` before any batch created it
    | KeyError(key: string)  // `drop` of a column the frame does not have
    | LengthMismatch         // assigning a header of the wrong width

  /** An input file: its name, its header (the field names of the first
      line) and its data rows. */
  datatype Csv = Csv(name: string, header: seq<string>, rows: seq<seq<string>>)

  /** pandas gives every column a distinct label and every row one cell
      per column. */
  predicate WellFormedCsv(c: Csv) {
    NoDup(c.header) && forall i :: 0 <= i < |c.rows| ==> |c.rows[i]| == |c.header|
  }

  type CsvFile = c: Csv | WellFormedCsv(c) witness Csv([], [], [])

  /** `list(set(fields2hash).intersection(header))`: the selected fields the
      file has, each once. The order of a Python set is unspecified; this
      model takes header order, and the outputs are shown not to depend on
      it. */
  function ResolveFields(selected: seq<string>, header: seq<string>): (r: seq<string>)
    ensures forall x :: x in r <==> x in selected && x in header
    ensures NoDup(header) ==> NoDup(r)
  {
    var r := Filter(h => h in selected, header);
    if NoDup(header) then FilterNoDup(h => h in selected, header); r else r
  }

  /** The cells of column `j`, one per row. */
  function Column(file: CsvFile, j: nat): (r: seq<string>)
    requires j < |file.header|
    ensures |r| == |file.rows|
    ensures forall i :: 0 <= i < |r| ==> r[i] == file.rows[i][j]
  {
    seq(|file.rows|, i requires 0 <= i < |file.rows| => file.rows[i][j])
  }

  /** The cells of the column labelled `field`. */
  function ColumnOf(file: CsvFile, field: string): seq<string>
    requires field in file.header
  {
    Column(file, FirstIndex(file.header, field))
  }

  /** A pandas DataFrame: column labels and rows of cells. */
  datatype Frame = Frame(columns: seq<string>, rows: seq<seq<Value>>)

  /** Every row has one cell per column. */
  predicate Rectangular(fr: Frame) {
    forall i :: 0 <= i < |fr.rows| ==> |fr.rows[i]| == |fr.columns|
  }

  /** `pd.DataFrame(tuples)` over a generator, followed by renaming the
      positional labels 0, 1, ... to `names`. With no tuples the frame has
      no columns at all, so there is nothing to rename. */
  function FromTuples(names: seq<string>, tuples: seq<seq<Value>>): Frame {
    if |tuples| == 0 then Frame([], []) else Frame(names, tuples)
  }

  /** `drop_duplicates()`: keep-first de-duplication of whole rows. */
  function DropDuplicates(fr: Frame): Frame {
    Frame(fr.columns, Distinct(fr.rows))
  }

  /** `s` without its element at index `j`. */
  function Without<T>(s: seq<T>, j: nat): (r: seq<T>)
    requires j < |s|
    ensures |r| == |s| - 1
  {
    s[..j] + s[j + 1..]
  }

  /** `drop(name, axis=1)`: removes the column labelled `name` from the
      header and from every row, or fails with `KeyError` when the frame has
      no such column. */
  function DropColumn(fr: Frame, name: string): (r: Result<Frame, Failure>)
    requires Rectangular(fr)
    ensures r.Ok? <==> name in fr.columns
    ensures r.Err? ==> r.error == KeyError(name)
    ensures r.Ok? ==> Rectangular(r.value) && |r.value.rows| == |fr.rows|
    ensures r.Ok? ==> var j := FirstIndex(fr.columns, name);
      r.value.columns == Without(fr.columns, j)
      && forall i :: 0 <= i < |fr.rows| ==> r.value.rows[i] == Without(fr.rows[i], j)
  {
    if name !in fr.columns then Err(KeyError(name))
    else
      var j := FirstIndex(fr.columns, name);
      Ok(Frame(Without(fr.columns, j), Map(row => if j < |row| then Without(row, j) else row, fr.rows)))
  }

  /** `df[name] = cells`: overwrites the column labelled `name` when the
      frame has one and appends a new last column otherwise. */
  function AssignColumn(fr: Frame, name: string, cells: seq<Value>): (r: Frame)
    requires Rectangular(fr) && |cells| == |fr.rows|
    ensures Rectangular(r) && |r.rows| == |fr.rows|
    ensures r.columns == if name in fr.columns then fr.columns else fr.columns + [name]
    ensures forall i :: 0 <= i < |r.rows| ==> r.rows[i][FirstIndex(r.columns, name)] == cells[i]
    ensures forall i, k :: 0 <= i < |r.rows| && 0 <= k < |fr.columns| && k != FirstIndex(r.columns, name) ==>
      r.rows[i][k] == fr.rows[i][k]
  {
    if name in fr.columns then
      var j := FirstIndex(fr.columns, name);
      Frame(fr.columns, seq(|fr.rows|, i requires 0 <= i < |fr.rows| => fr.rows[i][j := cells[i]]))
    else
      FirstIndexUnique(fr.columns + [name], name, |fr.columns|);
      Frame(fr.columns + [name], seq(|fr.rows|, i requires 0 <= i < |fr.rows| => fr.rows[i] + [cells[i]]))
  }

  /** The cells of the column at index `j`. */
  function FrameColumn(fr: Frame, j: nat): (r: seq<Value>)
    requires Rectangular(fr) && j < |fr.columns|
    ensures |r| == |fr.rows|
  {
    seq(|fr.rows|, i requires 0 <= i < |fr.rows| => fr.rows[i][j])
  }

  /** `df.columns = names`: relabels the columns, failing when the number
      of labels differs from the number of columns. */
  function SetColumns(fr: Frame, names: seq<string>): (r: Result<Frame, Failure>)
    ensures r.Ok? <==> |names| == |fr.columns|
    ensures r.Ok? ==> r.value == Frame(names, fr.rows)
  {
    if |names| != |fr.columns| then Err(LengthMismatch) else Ok(Frame(names, fr.rows))
  }

  /** `pd.read_csv(file, dtype=object)`: the header and every cell as
      text. */
  function InputFrame(file: CsvFile): (r: Frame)
    ensures r.columns == file.header && Rectangular(r)
    ensures |r.rows| == |file.rows|
    ensures forall i, j :: 0 <= i < |file.rows| && 0 <= j < |file.header| ==> r.rows[i][j] == Text(file.rows[i][j])
  {
    Frame(file.header, Map(row => Map(s => Text(s), row), file.rows))
  }
}
