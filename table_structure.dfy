/** The data side of `design` (src/file_extension/table_structure.rs): the
    title row, one projected table row per dataframe row with "NaN" for a
    missing cell, and the slice of the first ten table rows that is printed.
    Styling, borders, indentation and printing are not modelled. */
module TableStructure {
  import opened Frame

  /** The text shown for a missing cell. */
  const Missing: string := "NaN"

  /** The rows `design` slices for printing. */
  const ShownRows: nat := 10

  /** `row.get(col).unwrap_or("NaN")`: the row's value for the column when it
      has one, and the missing-cell text exactly when it has none. */
  function Cell(row: Row, col: string): (r: string)
    ensures col in row ==> r == row[col]
    ensures col !in row ==> r == Missing
  {
    if col in row then row[col] else Missing
  }

  /** `df.columns.iter().map(|col| ...).collect()`: the row laid out in
      column order. */
  function ProjectRow(row: Row, columns: seq<string>): (cells: seq<string>)
    ensures |cells| == |columns|
  {
    seq(|columns|, i requires 0 <= i < |columns| => Cell(row, columns[i]))
  }

  /** Keys outside `columns` never show: projecting the row restricted to
      the columns gives the same cells. */
  lemma ProjectIgnoresOtherKeys(row: Row, columns: seq<string>)
    ensures ProjectRow(row, columns) == ProjectRow(map k | k in row && k in columns :: row[k], columns)
  {
  }

  /** A cell depends only on the row and the column's name, not on its
      position: filtering or reordering the columns never changes what a
      retained column shows. */
  lemma ProjectByName(row: Row, columns: seq<string>, other: seq<string>, i: nat, j: nat)
    requires i < |columns| && j < |other| && columns[i] == other[j]
    ensures ProjectRow(row, columns)[i] == ProjectRow(row, other)[j]
  {
  }

  /** The table being built: its title row and its rows so far
      (`prettytable::Table`). */
  class Table {
    var titles: seq<string>
    var rows: seq<seq<string>>

    constructor ()
      ensures titles == [] && rows == []
    {
      titles := [];
      rows := [];
    }

    method SetTitles(t: seq<string>)
      modifies this
      ensures titles == t && rows == old(rows)
    {
      titles := t;
    }

    method AddRow(r: seq<string>)
      modifies this
      ensures rows == old(rows) + [r] && titles == old(titles)
    {
      rows := rows + [r];
    }

    /** `table.slice(..n)`: the first `n` rows (all of them when there are
        fewer). */
    function Slice(n: nat): (s: seq<seq<string>>)
      reads this
      ensures |s| == if |rows| < n then |rows| else n
      ensures forall i :: 0 <= i < |s| ==> s[i] == rows[i]
    {
      if |rows| < n then rows else rows[..n]
    }
  }

  /** `design`: the titles are the columns in order, and the printed rows
      are the first ten dataframe rows, in order, each laid out in column
      order with "NaN" for a column the row lacks. */
  method Design(df: DataFrame) returns (titles: seq<string>, shown: seq<seq<string>>)
    ensures titles == df.columns
    ensures |shown| == if |df.rows| < ShownRows then |df.rows| else ShownRows
    ensures forall i :: 0 <= i < |shown| ==> |shown[i]| == |df.columns|
    ensures forall i, j :: 0 <= i < |shown| && 0 <= j < |df.columns| ==>
              shown[i][j] == (if df.columns[j] in df.rows[i] then df.rows[i][df.columns[j]] else Missing)
  {
    var table := new Table();
    table.SetTitles(df.columns);
    var i := 0;
    while i < |df.rows|
      invariant i <= |df.rows|
      invariant table.titles == df.columns
      invariant |table.rows| == i
      invariant forall j :: 0 <= j < i ==> table.rows[j] == ProjectRow(df.rows[j], df.columns)
    {
      var rowVec := ProjectRow(df.rows[i], df.columns);
      table.AddRow(rowVec);
      i := i + 1;
    }
    titles := table.titles;
    shown := table.Slice(ShownRows);
  }
}
