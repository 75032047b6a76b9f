/** The extension classifier `FileInfo::get_file_extension`
    (src/file_extension/mod.rs): a file name is sorted into one of the three
    supported families by the lower-cased text after its last `.`. */
module FileExtension {
  import opened Frame

  datatype FileExtension = Json | Csv | Excel

  datatype FileInfo = FileInfo(filename: string, fileExt: FileExtension)

  /** The pieces of `s` between occurrences of `sep`, as `str::split` yields
      them: never empty, and an empty string is one empty piece. */
  function Split(s: string, sep: char): (pieces: seq<string>)
    ensures |pieces| >= 1
    ensures forall i :: 0 <= i < |pieces| ==> sep !in pieces[i]
    ensures sep !in s ==> pieces == [s]
  {
    if s == [] then [""]
    else
      var rest := Split(s[1..], sep);
      if s[0] == sep then [""] + rest
      else
        assert s == [s[0]] + s[1..];
        assert sep !in s ==> sep !in s[1..];
        [[s[0]] + rest[0]] + rest[1..]
  }

  /** Glues pieces back together with `sep` between them. */
  function Join(pieces: seq<string>, sep: char): string
    requires |pieces| >= 1
  {
    if |pieces| == 1 then pieces[0]
    else pieces[0] + [sep] + Join(pieces[1..], sep)
  }

  /** Splitting loses nothing: joining the pieces gives the input back. */
  lemma {:induction false} JoinSplit(s: string, sep: char)
    ensures Join(Split(s, sep), sep) == s
  {
    if s != [] {
      var rest := Split(s[1..], sep);
      JoinSplit(s[1..], sep);
      if s[0] == sep {
        assert ([""] + rest)[1..] == rest;
      } else if |rest| > 1 {
        var pieces := [[s[0]] + rest[0]] + rest[1..];
        assert pieces[1..] == rest[1..];
        assert Join(rest, sep) == rest[0] + [sep] + Join(rest[1..], sep);
        assert s == [s[0]] + s[1..];
      } else {
        assert s == [s[0]] + s[1..];
      }
    }
  }

  /** The last element of a non-empty sequence. */
  function Last<T>(xs: seq<T>): T
    requires |xs| >= 1
  {
    xs[|xs| - 1]
  }

  /** `filename.split(".").collect().last().unwrap()`: the text after the
      last `.`, or the whole name when it has none. */
  function LastSegment(filename: string): (seg: string)
    ensures '.' !in seg
    ensures IsTail(filename, seg, '.')
  {
    LastPieceIsTail(filename, '.');
    Last(Split(filename, '.'))
  }

  /** `seg` is the text after the last `sep` of `s`: it ends `s`, holds no
      `sep`, and is either all of `s` or preceded by a `sep`. */
  predicate IsTail(s: string, seg: string, sep: char)
  {
    && |seg| <= |s| && seg == s[|s| - |seg|..]
    && (forall j :: |s| - |seg| <= j < |s| ==> s[j] != sep)
    && (|seg| < |s| ==> s[|s| - |seg| - 1] == sep)
  }

  /** A tail of `s[1..]` is a tail of `s`, provided a tail covering all of
      `s[1..]` is preceded by a separator. */
  lemma TailOfRest(s: string, seg: string, sep: char)
    requires s != [] && IsTail(s[1..], seg, sep)
    requires |seg| == |s| - 1 ==> s[0] == sep
    ensures IsTail(s, seg, sep)
  {
    assert s[|s| - |seg|..] == s[1..][|s| - 1 - |seg|..];
    assert forall j :: |s| - |seg| <= j < |s| ==> s[j] == s[1..][j - 1];
  }

  /** The last piece of a split is exactly the text after the last separator. */
  lemma {:induction false} LastPieceIsTail(s: string, sep: char)
    ensures IsTail(s, Last(Split(s, sep)), sep)
  {
    if s != [] {
      LastPieceIsTail(s[1..], sep);
      var rest := Split(s[1..], sep);
      if s[0] == sep || |rest| > 1 {
        LastPieceShared(s, sep);
        var seg := Last(rest);
        assert |seg| == |s| - 1 ==> s[0] == sep;
        TailOfRest(s, seg, sep);
      } else {
        assert rest == [s[1..]] by {
          JoinSplit(s[1..], sep);
        }
        assert Last(Split(s, sep)) == [s[0]] + s[1..] == s;
      }
    }
  }

  /** When `s` starts with a separator or `s[1..]` splits into several
      pieces, `s` and `s[1..]` share their last piece. */
  lemma LastPieceShared(s: string, sep: char)
    requires s != [] && (s[0] == sep || |Split(s[1..], sep)| > 1)
    ensures Last(Split(s, sep)) == Last(Split(s[1..], sep))
  {
  }

  /** With no `.` in the name, the whole name is the segment. */
  lemma NoDotWholeName(filename: string)
    requires '.' !in filename
    ensures LastSegment(filename) == filename
  {
  }

  /** Whatever comes before the last `.` has no influence on the segment. */
  lemma SegmentAfterLastDot(stem: string, seg: string)
    requires '.' !in seg
    ensures LastSegment(stem + "." + seg) == seg
  {
    var s := stem + "." + seg;
    LastPieceIsTail(s, '.');
    var t := LastSegment(s);
    assert s[|s| - |seg| - 1] == '.';
    assert forall j :: |s| - |seg| <= j < |s| ==> s[j] == seg[j - (|s| - |seg|)];
    assert t == s[|s| - |seg|..] == seg;
  }

  /** ASCII lower-casing of one character. */
  function LowerChar(c: char): char
  {
    if 'A' <= c <= 'Z' then (c as int + 32) as char else c
  }

  /** `str::to_lowercase`, restricted to ASCII: capitals become their small
      letters, every other character is kept, and no capital is left. */
  function ToLower(s: string): (r: string)
    ensures |r| == |s|
    ensures forall i :: 0 <= i < |s| ==> !('A' <= r[i] <= 'Z')
    ensures forall i :: 0 <= i < |s| && !('A' <= s[i] <= 'Z') ==> r[i] == s[i]
    ensures forall i :: 0 <= i < |s| && 'A' <= s[i] <= 'Z' ==> r[i] as int == s[i] as int + 32
  {
    seq(|s|, i requires 0 <= i < |s| => LowerChar(s[i]))
  }

  /** Lower-casing twice changes nothing more. */
  lemma ToLowerIdempotent(s: string)
    ensures ToLower(ToLower(s)) == ToLower(s)
  {
  }

  /** The lower-cased last segment the classifier matches on. */
  function Extension(filename: string): string
  {
    ToLower(LastSegment(filename))
  }

  const UnsupportedPrefix: string := "Unsupported file extension : "

  /** `FileInfo::get_file_extension`. */
  function GetFileExtension(filename: string): (r: Result<FileInfo>)
    ensures r.Ok? ==> r.value.filename == filename
    ensures r.Ok? && r.value.fileExt == Json <==> Extension(filename) == "json"
    ensures r.Ok? && r.value.fileExt == Csv <==> Extension(filename) == "csv"
    ensures r.Ok? && r.value.fileExt == Excel <==> Extension(filename) in {"xlsx", "xls"}
    ensures r.Err? ==> r.message == UnsupportedPrefix + Extension(filename)
  {
    var ext := Extension(filename);
    if ext == "json" then Ok(FileInfo(filename, Json))
    else if ext == "csv" then Ok(FileInfo(filename, Csv))
    else if ext == "xlsx" || ext == "xls" then Ok(FileInfo(filename, Excel))
    else Err(UnsupportedPrefix + ext)
  }

  /** Only the text after the last `.` decides: a name classifies exactly as
      its last segment alone does, errors included. */
  lemma ClassifiedByLastSegment(stem: string, seg: string)
    requires '.' !in seg
    ensures var r := GetFileExtension(stem + "." + seg);
            var r' := GetFileExtension(seg);
            && r.Ok? == r'.Ok?
            && (r.Ok? ==> r.value.fileExt == r'.value.fileExt)
            && (r.Err? ==> r.message == r'.message)
  {
    SegmentAfterLastDot(stem, seg);
    NoDotWholeName(seg);
    SameExtensionSameClass(stem + "." + seg, seg);
  }

  /** The classification depends on the name only through its extension. */
  lemma SameExtensionSameClass(a: string, b: string)
    requires Extension(a) == Extension(b)
    ensures GetFileExtension(a).Ok? == GetFileExtension(b).Ok?
    ensures GetFileExtension(a).Ok? ==> GetFileExtension(a).value.fileExt == GetFileExtension(b).value.fileExt
    ensures GetFileExtension(a).Err? ==> GetFileExtension(a).message == GetFileExtension(b).message
  {
  }

  /** A name without any `.` fails (unless it is itself an extension word)
      with a message naming the whole name, lower-cased. */
  lemma NoDotErrorNamesWholeName(filename: string)
    requires '.' !in filename
    requires GetFileExtension(filename).Err?
    ensures GetFileExtension(filename).message == UnsupportedPrefix + ToLower(filename)
  {
  }

  /** Upper-case extensions are recognised: "report.JSON" is a JSON file. */
  lemma UpperCaseExample()
    ensures GetFileExtension("report.JSON") == Ok(FileInfo("report.JSON", Json))
  {
    assert "report" + "." + "JSON" == "report.JSON";
    SegmentAfterLastDot("report", "JSON");
    LowerJson();
    assert Extension("report.JSON") == "json";
  }

  /** Only the last segment counts: "data.csv.bak" is refused, naming "bak". */
  lemma LastSegmentExample()
    ensures GetFileExtension("data.csv.bak") == Err(UnsupportedPrefix + "bak")
  {
    assert "data.csv" + "." + "bak" == "data.csv.bak";
    SegmentAfterLastDot("data.csv", "bak");
    LowerBak();
    assert Extension("data.csv.bak") == "bak";
  }

  /** A name without `.` is judged as a whole: "README" is refused, naming
      "readme". */
  lemma NoDotExample()
    ensures GetFileExtension("README") == Err(UnsupportedPrefix + "readme")
  {
    NoDotWholeName("README");
    LowerReadme();
    assert Extension("README") == "readme";
  }

  lemma LowerJson()
    ensures ToLower("JSON") == "json"
  {
    var low := ToLower("JSON");
    assert low[0] == 'j' && low[1] == 's' && low[2] == 'o' && low[3] == 'n';
  }

  lemma LowerBak()
    ensures ToLower("bak") == "bak"
  {
    var low := ToLower("bak");
    assert low[0] == 'b' && low[1] == 'a' && low[2] == 'k';
  }

  lemma LowerReadme()
    ensures ToLower("README") == "readme"
  {
    var low := ToLower("README");
    assert low[0] == 'r' && low[1] == 'e' && low[2] == 'a';
    assert low[3] == 'd' && low[4] == 'm' && low[5] == 'e';
  }
}
