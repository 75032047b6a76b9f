/** The common row/column shape every reader produces (`DataFrame<String, String>`
    in src/file_extension/mod.rs), plus the small wrappers the readers return. */
module Frame {

  /** One table row: column name to cell text (a `HashMap<String, String>`). */
  type Row = map<string, string>

  /** `columns` is the display order; `rows` are the parsed records. */
  datatype DataFrame = DataFrame(columns: seq<string>, rows: seq<Row>)

  datatype Option<T> = None | Some(value: T)

  /** A `Result<_, Box<dyn Error>>`: the error is kept as its message text. */
  datatype Result<T> = Ok(value: T) | Err(message: string)

  /** No element occurs twice. */
  predicate NoDup<T(==)>(s: seq<T>)
  {
    forall i, j :: 0 <= i < j < |s| ==> s[i] != s[j]
  }

  /** Some row of `rows` has key `k`. */
  predicate KeyOfSomeRow(rows: seq<Row>, k: string)
  {
    exists i :: 0 <= i < |rows| && k in rows[i]
  }

  /** Every key of every row is one of the columns. */
  predicate KeysWithinColumns(df: DataFrame)
  {
    forall i, k :: 0 <= i < |df.rows| && k in df.rows[i] ==> k in df.columns
  }
}
