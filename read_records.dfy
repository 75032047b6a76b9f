/** The record loops of `FileInfo::read_csv` and `FileInfo::read_excel`
    (src/file_extension/mod.rs), over a header and records that the CSV reader
    or the workbook reader has already produced. Field `i` of a record is
    inserted under `columns[i]`; with repeated header names the later field
    overwrites the earlier one, as `HashMap::insert` does. */
module ReadRecords {
  import opened Frame

  /** The map the inner loop builds from the first |fields| columns: its keys
      are exactly the header names of the fields, so always a subset of the
      columns. */
  function RecordRow(columns: seq<string>, fields: seq<string>): (row: Row)
    requires |fields| <= |columns|
    ensures forall k :: k in row <==> k in columns[..|fields|]
    decreases |fields|
  {
    if fields == [] then map[]
    else
      var n := |fields| - 1;
      assert columns[..|fields|] == columns[..n] + [columns[n]];
      RecordRow(columns, fields[..n])[columns[n] := fields[n]]
  }

  /** Every key holds the LAST field filed under that name. */
  lemma {:induction false} RecordRowLastWins(columns: seq<string>, fields: seq<string>, j: nat)
    requires |fields| <= |columns| && j < |fields|
    requires forall j' :: j < j' < |fields| ==> columns[j'] != columns[j]
    ensures columns[j] in RecordRow(columns, fields)
    ensures RecordRow(columns, fields)[columns[j]] == fields[j]
    decreases |fields|
  {
    var n := |fields| - 1;
    if j < n {
      RecordRowLastWins(columns, fields[..n], j);
    }
  }

  /** With distinct header names field `i` sits under `columns[i]`. */
  lemma RecordRowAt(columns: seq<string>, fields: seq<string>, i: nat)
    requires |fields| <= |columns| && NoDup(columns) && i < |fields|
    ensures columns[i] in RecordRow(columns, fields)
    ensures RecordRow(columns, fields)[columns[i]] == fields[i]
  {
    RecordRowLastWins(columns, fields, i);
  }

  /** The inner `for (i, field) in record.iter().enumerate()` loop. */
  method InsertFields(columns: seq<string>, record: seq<string>) returns (row: Row)
    requires |record| <= |columns|
    ensures row == RecordRow(columns, record)
  {
    row := map[];
    var i := 0;
    while i < |record|
      invariant i <= |record|
      invariant row == RecordRow(columns, record[..i])
    {
      assert record[..i + 1][..i] == record[..i];
      row := row[columns[i] := record[i]];
      i := i + 1;
    }
    assert record[..i] == record;
  }

  /** None of the first `n` records failed to parse. */
  predicate ParsedUpTo(records: seq<Result<seq<string>>>, n: nat)
    requires n <= |records|
  {
    forall j :: 0 <= j < n ==> records[j].Ok?
  }

  /** Indexing `columns[i]` panics on a field beyond the header, so every
      record the loop reaches (those before the first failure) must be no
      longer than the header. */
  predicate FitsHeader(columns: seq<string>, records: seq<Result<seq<string>>>)
  {
    forall i :: 0 <= i < |records| && ParsedUpTo(records, i) && records[i].Ok? ==>
      |records[i].value| <= |columns|
  }

  /** `read_csv` after the header has been read: each record becomes one row,
      in order, and the first record that failed to parse (`result?`) aborts
      the whole read with its error. */
  method ReadCsv(columns: seq<string>, records: seq<Result<seq<string>>>) returns (r: Result<DataFrame>)
    requires FitsHeader(columns, records)
    ensures r.Err? <==> exists i :: 0 <= i < |records| && records[i].Err?
    ensures r.Err? ==> exists i :: 0 <= i < |records| && ParsedUpTo(records, i) && records[i] == Err(r.message)
    ensures r.Ok? ==> r.value.columns == columns && |r.value.rows| == |records|
    ensures r.Ok? ==> forall i :: 0 <= i < |records| ==>
              records[i].Ok? && |records[i].value| <= |columns| &&
              r.value.rows[i] == RecordRow(columns, records[i].value)
    ensures r.Ok? ==> KeysWithinColumns(r.value)
  {
    var rows: seq<Row> := [];
    var i := 0;
    while i < |records|
      invariant i <= |records|
      invariant ParsedUpTo(records, i)
      invariant |rows| == i
      invariant forall j :: 0 <= j < i ==>
                  |records[j].value| <= |columns| && rows[j] == RecordRow(columns, records[j].value)
    {
      match records[i] {
        case Err(e) =>
          return Err(e);
        case Ok(fields) =>
          var row := InsertFields(columns, fields);
          rows := rows + [row];
      }
      i := i + 1;
    }
    r := Ok(DataFrame(columns, rows));
    RecordRowsWithinColumns(r.value, seq(|records|, j requires 0 <= j < |records| => records[j].value));
  }

  /** `read_excel` over the cell texts of the sheet's range: the header is the
      first range row, and EVERY range row, the header row included, becomes a
      row. `headers().unwrap()` panics on an empty range, and a range is a
      rectangle, so no row is wider than the header. */
  method ReadExcel(range: seq<seq<string>>) returns (df: DataFrame)
    requires |range| > 0
    requires forall i :: 0 <= i < |range| ==> |range[i]| <= |range[0]|
    ensures df.columns == range[0] && |df.rows| == |range|
    ensures forall i :: 0 <= i < |range| ==> df.rows[i] == RecordRow(range[0], range[i])
    ensures KeysWithinColumns(df)
  {
    var columns := range[0];
    var rows: seq<Row> := [];
    var i := 0;
    while i < |range|
      invariant i <= |range|
      invariant |rows| == i
      invariant forall j :: 0 <= j < i ==> rows[j] == RecordRow(columns, range[j])
    {
      var row := InsertFields(columns, range[i]);
      rows := rows + [row];
      i := i + 1;
    }
    df := DataFrame(columns, rows);
    RecordRowsWithinColumns(df, range);
  }

  /** Both readers keep every row's keys within the columns. */
  lemma RecordRowsWithinColumns(df: DataFrame, records: seq<seq<string>>)
    requires |df.rows| == |records|
    requires forall i :: 0 <= i < |records| ==>
               |records[i]| <= |df.columns| && df.rows[i] == RecordRow(df.columns, records[i])
    ensures KeysWithinColumns(df)
  {
    forall i, k | 0 <= i < |df.rows| && k in df.rows[i]
      ensures k in df.columns
    {
      assert k in df.columns[..|records[i]|];
    }
  }

  /** Since `read_excel` does not drop the header row, its first row is the
      header filed under itself: with distinct header names every column maps
      to its own name. */
  lemma HeaderRowMapsToItself(header: seq<string>)
    requires NoDup(header)
    ensures forall i :: 0 <= i < |header| ==>
              header[i] in RecordRow(header, header) && RecordRow(header, header)[header[i]] == header[i]
  {
    forall i | 0 <= i < |header|
      ensures header[i] in RecordRow(header, header) && RecordRow(header, header)[header[i]] == header[i]
    {
      RecordRowAt(header, header, i);
    }
  }
}
