/**
 * `result_to_dataframe(column_names)`: turns what a wrapped function returns
 * into a table whose columns carry the given names. The function's return is
 * tagged: one bare sequence, or a tuple of sequences, one per column.
 */
module Tables {
  import opened Wrappers

  /** A named column and its values, top row first. */
  type Column = (string, seq<int>)

  /** Columns in order. */
  type Table = seq<Column>

  /** What the wrapped function returned. */
  datatype Returned = Single(values: seq<int>) | Several(columns: seq<seq<int>>)

  datatype TableError =
    | ArityMismatch(names: nat, returned: nat)  // as many names as returned sequences are needed
    | RaggedColumns                             // every column must have the same number of rows

  /** The sequences in column order: a bare sequence is the one-column case. */
  function ReturnedColumns(ret: Returned): seq<seq<int>>
  {
    match ret
    case Single(values) => [values]
    case Several(columns) => columns
  }

  /** Pairs each name with the sequence at the same position. */
  function Label(names: seq<string>, columns: seq<seq<int>>): (t: Table)
    requires |names| == |columns|
    ensures |t| == |names|
    ensures forall i :: 0 <= i < |t| ==> t[i].0 == names[i] && t[i].1 == columns[i]
  {
    if |names| == 0 then [] else [(names[0], columns[0])] + Label(names[1..], columns[1..])
  }

  /** All columns have the length of the first, hence one common length. */
  predicate EqualLengths(columns: seq<seq<int>>)
  {
    |columns| == 0 || forall i :: 0 <= i < |columns| ==> |columns[i]| == |columns[0]|
  }

  /** The table the wrapper returns, or why it cannot be built. */
  function ResultToTable(names: seq<string>, ret: Returned): (r: Result<Table, TableError>)
    ensures r.Success? <==> |names| == |ReturnedColumns(ret)| && EqualLengths(ReturnedColumns(ret))
    ensures r.Success? ==> |r.value| == |names|
    ensures r.Success? ==> forall i :: 0 <= i < |names| ==>
      r.value[i].0 == names[i] && r.value[i].1 == ReturnedColumns(ret)[i]
    ensures |names| != |ReturnedColumns(ret)| ==> r == Failure(ArityMismatch(|names|, |ReturnedColumns(ret)|))
    ensures |names| == |ReturnedColumns(ret)| && !EqualLengths(ReturnedColumns(ret)) ==> r == Failure(RaggedColumns)
  {
    var columns := ReturnedColumns(ret);
    if |names| != |columns| then Failure(ArityMismatch(|names|, |columns|))
    else if !EqualLengths(columns) then Failure(RaggedColumns)
    else Success(Label(names, columns))
  }

  /** Number of rows: the common length of the columns (0 for a table without columns). */
  function RowCount(t: Table): nat
  {
    if |t| == 0 then 0 else |t[0].1|
  }

  /** Row `k` of the table, read across the columns in order. */
  function Row(t: Table, k: nat): (r: seq<int>)
    requires forall i :: 0 <= i < |t| ==> k < |t[i].1|
    ensures |r| == |t| && forall i :: 0 <= i < |t| ==> r[i] == t[i].1[k]
  {
    if |t| == 0 then [] else [t[0].1[k]] + Row(t[1..], k)
  }

  /** A built table is rectangular, and its row `k` reads the k-th value of every returned
      sequence, in column order. */
  lemma TableRows(names: seq<string>, ret: Returned, k: nat)
    requires ResultToTable(names, ret).Success?
    requires k < RowCount(ResultToTable(names, ret).value)
    ensures var t := ResultToTable(names, ret).value;
      (forall i :: 0 <= i < |t| ==> |t[i].1| == RowCount(t)) &&
      Row(t, k) == seq(|names|, i requires 0 <= i < |names| && k < |ReturnedColumns(ret)[i]| =>
                                  ReturnedColumns(ret)[i][k])
  {
  }

  /** A bare sequence under one name is the one-column table with the same values, exactly as if
      the function had returned a one-element tuple. */
  lemma SingleIsOneColumn(name: string, values: seq<int>)
    ensures ResultToTable([name], Single(values)) == Success([(name, values)])
    ensures ResultToTable([name], Single(values)) == ResultToTable([name], Several([values]))
  {
    assert EqualLengths([values]);
    var t := ResultToTable([name], Single(values)).value;
    assert t[0] == (name, values);
    assert t == [(name, values)];
  }

  /** A bare sequence needs exactly one column name. */
  lemma SingleNeedsOneName(names: seq<string>, values: seq<int>)
    ensures ResultToTable(names, Single(values)).Success? <==> |names| == 1
  {
  }
}
