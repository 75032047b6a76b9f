/** What the readers' rows look like once `design` lays them out: the link
    between the row builders of src/file_extension/mod.rs and the projection
    of src/file_extension/table_structure.rs. */
module Display {
  import opened Frame
  import opened ReadRecords
  import opened ReadJson
  import opened TableStructure

  /** `n` copies of the missing-cell text. */
  function Padding(n: nat): (p: seq<string>)
    ensures |p| == n && forall i :: 0 <= i < n ==> p[i] == Missing
  {
    seq(n, _ => Missing)
  }

  /** A CSV or Excel record shows as itself: with distinct header names its
      projected row is the record's fields followed by "NaN" for each header
      it was too short to reach. */
  lemma RecordRoundTrip(columns: seq<string>, fields: seq<string>)
    requires NoDup(columns) && |fields| <= |columns|
    ensures ProjectRow(RecordRow(columns, fields), columns) == fields + Padding(|columns| - |fields|)
  {
    var row := RecordRow(columns, fields);
    var expected := fields + Padding(|columns| - |fields|);
    forall i | 0 <= i < |columns|
      ensures ProjectRow(row, columns)[i] == expected[i]
    {
      if i < |fields| {
        RecordRowAt(columns, fields, i);
      } else {
        assert columns[i] !in columns[..|fields|];
      }
    }
  }

  /** A flattened JSON row has one key, which is a column at exactly one
      position when the columns are distinct and hold every row key; its
      projected row shows the leaf text there and "NaN" everywhere else. */
  lemma JsonRowShowsOneCell(df: DataFrame, i: nat)
    requires i < |df.rows| && LeafRows(df.rows, "")
    requires NoDup(df.columns) && KeysWithinColumns(df)
    ensures exists j :: 0 <= j < |df.columns| && df.columns[j] in df.rows[i] &&
              forall j' :: 0 <= j' < |df.columns| ==>
                ProjectRow(df.rows[i], df.columns)[j'] == if j' == j then df.rows[i][df.columns[j]] else Missing
  {
    var row := df.rows[i];
    assert |row| == 1;
    var k :| k in row;
    assert |row.Keys - {k}| == |row.Keys| - 1 == 0;
    assert row.Keys == {k};
    assert k in df.columns;
    var j :| 0 <= j < |df.columns| && df.columns[j] == k;
    assert forall j' :: 0 <= j' < |df.columns| && df.columns[j'] in row ==> j' == j;
  }
}
