/** The column request handled in `main` (src/main.rs): the requested names
    are split into those the dataframe has and the misspelled ones, the
    misspelled ones are reported, and the dataframe's columns become the
    matched names, or stay as they were when none matched. */
module ColumnFilter {
  import opened Frame

  /** The requested names that are columns, in request order, repeats kept. */
  function Matched(requested: seq<string>, columns: seq<string>): (r: seq<string>)
    ensures |r| <= |requested|
    ensures forall i :: 0 <= i < |r| ==> r[i] in columns
  {
    if requested == [] then []
    else
      var c := requested[|requested| - 1];
      Matched(requested[..|requested| - 1], columns) + (if c in columns then [c] else [])
  }

  /** The requested names that are not columns, in request order. */
  function Misspelled(requested: seq<string>, columns: seq<string>): (r: seq<string>)
    ensures |r| <= |requested|
    ensures forall i :: 0 <= i < |r| ==> r[i] !in columns
  {
    if requested == [] then []
    else
      var c := requested[|requested| - 1];
      Misspelled(requested[..|requested| - 1], columns) + (if c in columns then [] else [c])
  }

  /** Every requested name lands in exactly one of the two lists, as often as
      it was requested: the lists together are a rearrangement of the request. */
  lemma {:induction false} Rearrangement(requested: seq<string>, columns: seq<string>)
    ensures multiset(Matched(requested, columns)) + multiset(Misspelled(requested, columns)) == multiset(requested)
  {
    if requested != [] {
      var n := |requested| - 1;
      var c := requested[n];
      Rearrangement(requested[..n], columns);
      assert requested == requested[..n] + [c];
      if c in columns {
        assert Matched(requested, columns) == Matched(requested[..n], columns) + [c];
        assert Misspelled(requested, columns) == Misspelled(requested[..n], columns);
      } else {
        assert Matched(requested, columns) == Matched(requested[..n], columns);
        assert Misspelled(requested, columns) == Misspelled(requested[..n], columns) + [c];
      }
    }
  }

  /** The matched list holds exactly the requested names that are columns,
      the misspelled one exactly the others. */
  lemma Partition(requested: seq<string>, columns: seq<string>)
    ensures forall c :: c in Matched(requested, columns) <==> c in requested && c in columns
    ensures forall c :: c in Misspelled(requested, columns) <==> c in requested && c !in columns
  {
    Rearrangement(requested, columns);
    var matched, wrong := Matched(requested, columns), Misspelled(requested, columns);
    forall c
      ensures c in matched <==> c in requested && c in columns
      ensures c in wrong <==> c in requested && c !in columns
    {
      assert multiset(matched)[c] + multiset(wrong)[c] == multiset(requested)[c];
      if c in columns {
        assert c !in wrong;
      } else {
        assert c !in matched;
      }
    }
  }

  /** Splitting a request in two and handling the halves one after the other
      gives the same matched list as handling the whole request. */
  lemma {:induction false} MatchedConcat(a: seq<string>, b: seq<string>, columns: seq<string>)
    ensures Matched(a + b, columns) == Matched(a, columns) + Matched(b, columns)
  {
    if b == [] {
      assert a + b == a;
    } else {
      var n := |b| - 1;
      var c := b[n];
      MatchedConcat(a, b[..n], columns);
      assert (a + b)[..|a + b| - 1] == a + b[..n];
      assert (a + b)[|a + b| - 1] == c;
      var tail := if c in columns then [c] else [];
      assert Matched(a + b, columns) == Matched(a + b[..n], columns) + tail;
      assert Matched(b, columns) == Matched(b[..n], columns) + tail;
    }
  }

  /** The same for the misspelled list. */
  lemma {:induction false} MisspelledConcat(a: seq<string>, b: seq<string>, columns: seq<string>)
    ensures Misspelled(a + b, columns) == Misspelled(a, columns) + Misspelled(b, columns)
  {
    if b == [] {
      assert a + b == a;
    } else {
      var n := |b| - 1;
      var c := b[n];
      MisspelledConcat(a, b[..n], columns);
      assert (a + b)[..|a + b| - 1] == a + b[..n];
      assert (a + b)[|a + b| - 1] == c;
      var tail := if c in columns then [] else [c];
      assert Misspelled(a + b, columns) == Misspelled(a + b[..n], columns) + tail;
      assert Misspelled(b, columns) == Misspelled(b[..n], columns) + tail;
    }
  }

  /** How often a name occurs in each list: in the matched list as often as
      it was requested if it is a column, otherwise never, and the other way
      round for the misspelled list. */
  lemma Occurrences(requested: seq<string>, columns: seq<string>, c: string)
    ensures multiset(Matched(requested, columns))[c] == if c in columns then multiset(requested)[c] else 0
    ensures multiset(Misspelled(requested, columns))[c] == if c in columns then 0 else multiset(requested)[c]
  {
    Rearrangement(requested, columns);
    Partition(requested, columns);
  }

  /** The order of the request is kept: when every name is a column the
      matched list is the request itself, and when none is, the misspelled
      list is. */
  lemma {:induction false} OrderKept(requested: seq<string>, columns: seq<string>)
    ensures (forall i :: 0 <= i < |requested| ==> requested[i] in columns) ==> Matched(requested, columns) == requested
    ensures (forall i :: 0 <= i < |requested| ==> requested[i] !in columns) ==> Misspelled(requested, columns) == requested
  {
    if requested != [] {
      var n := |requested| - 1;
      OrderKept(requested[..n], columns);
      assert requested == requested[..n] + [requested[n]];
    }
  }

  /** The loop of `main`: pushes each requested name onto one of the two
      lists. */
  method SplitRequest(requested: seq<string>, columns: seq<string>) returns (newColumns: seq<string>, misspelled: seq<string>)
    ensures newColumns == Matched(requested, columns)
    ensures misspelled == Misspelled(requested, columns)
  {
    newColumns, misspelled := [], [];
    var i := 0;
    while i < |requested|
      invariant i <= |requested|
      invariant newColumns == Matched(requested[..i], columns)
      invariant misspelled == Misspelled(requested[..i], columns)
    {
      var c := requested[i];
      assert requested[..i + 1][..i] == requested[..i];
      if c in columns {
        newColumns := newColumns + [c];
      } else {
        misspelled := misspelled + [c];
      }
      i := i + 1;
    }
    assert requested[..i] == requested;
  }

  /** The whole block: `request` is the optional `columns` subcommand list;
      `warning` is the list the misspelling diagnostic prints, when it is
      printed. Only the columns are replaced; the rows stay untouched. */
  method SelectColumns(df: DataFrame, request: Option<seq<string>>) returns (result: DataFrame, warning: Option<seq<string>>)
    ensures result.rows == df.rows
    ensures forall c :: c in result.columns ==> c in df.columns
    ensures request.None? ==> result == df && warning.None?
    ensures request.Some? ==>
              var matched := Matched(request.value, df.columns);
              var wrong := Misspelled(request.value, df.columns);
              && (warning.Some? <==> wrong != [])
              && (warning.Some? ==> warning.value == wrong)
              && result.columns == if matched != [] then matched else df.columns
  {
    match request {
      case None =>
        result, warning := df, None;
      case Some(col) =>
        var newColumns, misspelled := SplitRequest(col, df.columns);
        Partition(col, df.columns);
        warning := if misspelled != [] then Some(misspelled) else None;
        result := df.(columns := if newColumns != [] then newColumns else df.columns);
    }
  }
}
