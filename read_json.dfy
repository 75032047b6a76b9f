/** The format-independent part of `FileInfo::read_json`
    (src/file_extension/mod.rs): the nested `iterate` that flattens a parsed
    JSON tree into one-key rows, and the column step that collects every row
    key into a duplicate-free list. */
module ReadJson {
  import opened Frame

  /** A parsed JSON value. Null, booleans, numbers and strings are all
      `Leaf`s carrying the text `Value::to_string` gives them. */
  datatype Json = Obj(entries: seq<(string, Json)>) | Arr(items: seq<Json>) | Leaf(text: string)

  /** The path of an object entry `key` under `prefix`: the key itself when
      the prefix is empty, `prefix.key` otherwise. */
  function ChildPath(prefix: string, key: string): string
  {
    if prefix == "" then key else prefix + "." + key
  }

  /** Number of entries of an object, elements of an array, 0 for a leaf. */
  function Width(v: Json): nat
  {
    match v
    case Obj(es) => |es|
    case Arr(xs) => |xs|
    case Leaf(_) => 0
  }

  /** The rows `iterate(v, prefix, rows)` appends to `rows`: one per leaf. */
  function Flatten(v: Json, prefix: string): (rows: seq<Row>)
    ensures |rows| == LeafCount(v)
    decreases v, 1
  {
    match v
    case Leaf(t) => [map[prefix := t]]
    case _ => FlattenChildren(v, Width(v), prefix)
  }

  /** The rows appended while visiting the first `n` children of `v`: object
      entries under their extended path, array elements under `prefix`. */
  function FlattenChildren(v: Json, n: nat, prefix: string): (rows: seq<Row>)
    requires n <= Width(v)
    ensures |rows| == ChildrenLeafCount(v, n)
    decreases v, 0, n
  {
    if n == 0 then []
    else
      FlattenChildren(v, n - 1, prefix) +
      match v
      case Obj(es) => Flatten(es[n - 1].1, ChildPath(prefix, es[n - 1].0))
      case Arr(xs) => Flatten(xs[n - 1], prefix)
      case Leaf(_) => []
  }

  /** Number of scalar leaves in the tree. */
  function LeafCount(v: Json): nat
    decreases v, 1
  {
    match v
    case Leaf(_) => 1
    case _ => ChildrenLeafCount(v, Width(v))
  }

  function ChildrenLeafCount(v: Json, n: nat): nat
    requires n <= Width(v)
    decreases v, 0, n
  {
    if n == 0 then 0
    else
      ChildrenLeafCount(v, n - 1) +
      match v
      case Obj(es) => LeafCount(es[n - 1].1)
      case Arr(xs) => LeafCount(xs[n - 1])
      case Leaf(_) => 0
  }

  /** `k` is `prefix` itself or lies below it in the dotted path. */
  predicate Extends(k: string, prefix: string)
  {
    prefix == "" || k == prefix || prefix + "." <= k
  }

  /** The rows of a tree: one per leaf, each with exactly one key, and every
      key is the accumulated path below `prefix`. */
  predicate LeafRows(rows: seq<Row>, prefix: string)
  {
    forall i :: 0 <= i < |rows| ==>
      |rows[i]| == 1 && forall k :: k in rows[i] ==> Extends(k, prefix)
  }

  lemma ExtendsChild(k: string, prefix: string, key: string)
    requires Extends(k, ChildPath(prefix, key))
    ensures Extends(k, prefix)
  {
  }

  /** One row per leaf, each a one-key map whose key extends the prefix. */
  lemma {:induction false} FlattenShape(v: Json, prefix: string)
    ensures |Flatten(v, prefix)| == LeafCount(v)
    ensures LeafRows(Flatten(v, prefix), prefix)
    decreases v, 1
  {
    match v
    case Leaf(t) =>
    case _ => FlattenChildrenShape(v, Width(v), prefix);
  }

  lemma {:induction false} FlattenChildrenShape(v: Json, n: nat, prefix: string)
    requires n <= Width(v)
    ensures |FlattenChildren(v, n, prefix)| == ChildrenLeafCount(v, n)
    ensures LeafRows(FlattenChildren(v, n, prefix), prefix)
    decreases v, 0, n
  {
    if n > 0 {
      FlattenChildrenShape(v, n - 1, prefix);
      var front := FlattenChildren(v, n - 1, prefix);
      match v {
        case Obj(es) =>
          var path := ChildPath(prefix, es[n - 1].0);
          var back := Flatten(es[n - 1].1, path);
          FlattenShape(es[n - 1].1, path);
          forall i, k | 0 <= i < |back| && k in back[i]
            ensures Extends(k, prefix)
          {
            ExtendsChild(k, prefix, es[n - 1].0);
          }
          assert FlattenChildren(v, n, prefix) == front + back;
        case Arr(xs) =>
          FlattenShape(xs[n - 1], prefix);
      }
    }
  }

  /** The array of the leaves `texts`. */
  function LeafArray(texts: seq<string>): Json
  {
    Arr(seq(|texts|, i requires 0 <= i < |texts| => Leaf(texts[i])))
  }

  /** Array elements are visited under the unchanged prefix, so `n` scalar
      siblings give `n` separate rows, all with the same key. */
  lemma ArrayOfLeaves(texts: seq<string>, prefix: string)
    ensures |Flatten(LeafArray(texts), prefix)| == |texts|
    ensures forall i :: 0 <= i < |texts| ==> Flatten(LeafArray(texts), prefix)[i] == map[prefix := texts[i]]
  {
    LeafArrayPrefix(texts, |texts|, prefix);
  }

  lemma {:induction false} LeafArrayPrefix(texts: seq<string>, n: nat, prefix: string)
    requires n <= |texts|
    ensures |FlattenChildren(LeafArray(texts), n, prefix)| == n
    ensures forall i :: 0 <= i < n ==> FlattenChildren(LeafArray(texts), n, prefix)[i] == map[prefix := texts[i]]
  {
    if n > 0 {
      LeafArrayPrefix(texts, n - 1, prefix);
    }
  }

  /** `{"a":{"b":1,"c":2}}` gives the rows `{"a.b":"1"}` and `{"a.c":"2"}`. */
  lemma NestedObjectExample()
    ensures Flatten(Obj([("a", Obj([("b", Leaf("1")), ("c", Leaf("2"))]))]), "")
         == [map["a.b" := "1"], map["a.c" := "2"]]
  {
    var inner := Obj([("b", Leaf("1")), ("c", Leaf("2"))]);
    assert ChildPath("a", "b") == "a.b" && ChildPath("a", "c") == "a.c";
    assert FlattenChildren(inner, 1, "a") == [map["a.b" := "1"]];
    assert Flatten(inner, "a") == FlattenChildren(inner, 1, "a") + [map["a.c" := "2"]];
    var root := Obj([("a", inner)]);
    assert Flatten(root, "") == FlattenChildren(root, 0, "") + Flatten(inner, "a");
  }

  /** `{"a":[{"x":1},{"x":2}]}` gives two separate rows both keyed `"a.x"`:
      the array is not merged into one record. */
  lemma ArrayOfRecordsExample()
    ensures Flatten(Obj([("a", Arr([Obj([("x", Leaf("1"))]), Obj([("x", Leaf("2"))])]))]), "")
         == [map["a.x" := "1"], map["a.x" := "2"]]
  {
    var first, second := Obj([("x", Leaf("1"))]), Obj([("x", Leaf("2"))]);
    assert ChildPath("a", "x") == "a.x";
    assert Flatten(first, "a") == FlattenChildren(first, 0, "a") + [map["a.x" := "1"]];
    assert Flatten(second, "a") == FlattenChildren(second, 0, "a") + [map["a.x" := "2"]];
    var arr := Arr([first, second]);
    assert FlattenChildren(arr, 1, "a") == Flatten(first, "a");
    assert Flatten(arr, "a") == FlattenChildren(arr, 1, "a") + Flatten(second, "a");
    var root := Obj([("a", arr)]);
    assert Flatten(root, "") == FlattenChildren(root, 0, "") + Flatten(arr, "a");
  }

  /** The nested `iterate`: depth-first over `value`, appending one row per
      leaf to `rows` (the `&mut Vec` is threaded through as a value). */
  method Iterate(value: Json, prefix: string, rows: seq<Row>) returns (out: seq<Row>)
    ensures out == rows + Flatten(value, prefix)
    decreases value, 1
  {
    match value {
      case Obj(_) =>
        out := IterateEntries(value, prefix, rows);
      case Arr(_) =>
        out := IterateElements(value, prefix, rows);
      case Leaf(t) =>
        out := rows + [map[prefix := t]];
    }
  }

  /** The `for (key, val) in map` loop of `iterate`: each entry is visited
      under its extended path, chosen by the `prefix.is_empty()` test. */
  method IterateEntries(value: Json, prefix: string, rows: seq<Row>) returns (out: seq<Row>)
    requires value.Obj?
    ensures out == rows + FlattenChildren(value, Width(value), prefix)
    decreases value, 0
  {
    out := rows;
    var es := value.entries;
    var i := 0;
    while i < |es|
      invariant i <= |es|
      invariant out == rows + FlattenChildren(value, i, prefix)
    {
      var (key, val) := es[i];
      var path := ChildPath(prefix, key);
      ghost var done := out;
      out := Iterate(val, path, out);
      EntryStep(value, i, prefix, rows, done, out);
      i := i + 1;
    }
  }

  /** The `for (_, val) in arr.iter().enumerate()` loop of `iterate`: each
      element is visited under the unchanged prefix. */
  method IterateElements(value: Json, prefix: string, rows: seq<Row>) returns (out: seq<Row>)
    requires value.Arr?
    ensures out == rows + FlattenChildren(value, Width(value), prefix)
    decreases value, 0
  {
    out := rows;
    var xs := value.items;
    var i := 0;
    while i < |xs|
      invariant i <= |xs|
      invariant out == rows + FlattenChildren(value, i, prefix)
    {
      ghost var done := out;
      out := Iterate(xs[i], prefix, out);
      ElementStep(value, i, prefix, rows, done, out);
      i := i + 1;
    }
  }

  /** One more entry of an object appends the rows of that entry. */
  lemma EntryStep(v: Json, i: nat, prefix: string, rows: seq<Row>, done: seq<Row>, out: seq<Row>)
    requires v.Obj? && i < |v.entries|
    requires done == rows + FlattenChildren(v, i, prefix)
    requires out == done + Flatten(v.entries[i].1, ChildPath(prefix, v.entries[i].0))
    ensures out == rows + FlattenChildren(v, i + 1, prefix)
  {
    var next := Flatten(v.entries[i].1, ChildPath(prefix, v.entries[i].0));
    assert FlattenChildren(v, i + 1, prefix) == FlattenChildren(v, i, prefix) + next;
    assert out == rows + (FlattenChildren(v, i, prefix) + next);
  }

  /** One more element of an array appends the rows of that element. */
  lemma ElementStep(v: Json, i: nat, prefix: string, rows: seq<Row>, done: seq<Row>, out: seq<Row>)
    requires v.Arr? && i < |v.items|
    requires done == rows + FlattenChildren(v, i, prefix)
    requires out == done + Flatten(v.items[i], prefix)
    ensures out == rows + FlattenChildren(v, i + 1, prefix)
  {
    var next := Flatten(v.items[i], prefix);
    assert FlattenChildren(v, i + 1, prefix) == FlattenChildren(v, i, prefix) + next;
    assert out == rows + (FlattenChildren(v, i, prefix) + next);
  }

  /** The column step: every key of every row, each exactly once. The
      `HashSet` iteration order is not specified, so keys are taken out of
      the set in an arbitrary order. */
  method CollectColumns(rows: seq<Row>) returns (columns: seq<string>)
    ensures NoDup(columns)
    ensures forall k :: k in columns <==> KeyOfSomeRow(rows, k)
  {
    var keys: set<string> := {};
    var i := 0;
    while i < |rows|
      invariant i <= |rows|
      invariant forall k :: k in keys <==> KeyOfSomeRow(rows[..i], k)
    {
      keys := keys + rows[i].Keys;
      i := i + 1;
      assert forall k :: KeyOfSomeRow(rows[..i], k) <==> KeyOfSomeRow(rows[..i - 1], k) || k in rows[i - 1];
    }
    assert rows[..i] == rows;
    columns := [];
    var rest := keys;
    while rest != {}
      invariant rest <= keys
      invariant NoDup(columns)
      invariant forall k :: k in columns <==> k in keys && k !in rest
      decreases |rest|
    {
      var k :| k in rest;
      columns := columns + [k];
      rest := rest - {k};
    }
  }

  /** `read_json` after parsing: flatten the tree from the empty prefix, then
      collect the columns. */
  method FromJson(content: Json) returns (df: DataFrame)
    ensures df.rows == Flatten(content, "")
    ensures |df.rows| == LeafCount(content)
    ensures LeafRows(df.rows, "")
    ensures NoDup(df.columns)
    ensures forall k :: k in df.columns <==> KeyOfSomeRow(df.rows, k)
    ensures KeysWithinColumns(df)
  {
    var rows := Iterate(content, "", []);
    var columns := CollectColumns(rows);
    FlattenShape(content, "");
    df := DataFrame(columns, rows);
  }
}
