/**
  The multi-value codec of the binder and its scan for unknown flags. A
  multi-valued flag is written as one or more raw texts, split at commas,
  line breaks or spaces (or read as JSON); it is written back joined by the
  separator of highest priority among its formats.
 */
module Utils {
  import opened Wrappers
  import opened Text
  import opened RunHelpers

  // -------------------------------------------------------------- fields

  /** The length of the leading run of characters that are not separators. */
  function RunLength(s: string, seps: string): (n: nat)
    ensures n <= |s| && forall i :: 0 <= i < n ==> s[i] !in seps
    ensures n < |s| ==> s[n] in seps
  {
    if s == [] || s[0] in seps then 0 else 1 + RunLength(s[1..], seps)
  }

  /** `strings.FieldsFunc` with "is one of seps": the maximal runs of
      non-separator characters, left to right. */
  function Fields(s: string, seps: string): (fs: seq<string>)
    ensures forall k :: 0 <= k < |fs| ==> fs[k] != [] && forall i :: 0 <= i < |fs[k]| ==> fs[k][i] !in seps
    decreases |s|
  {
    if s == [] then []
    else if s[0] in seps then Fields(s[1..], seps)
    else
      var n := RunLength(s, seps);
      [s[..n]] + Fields(s[n..], seps)
  }

  /** Reference definition: cut at every separator, keeping the empty pieces. */
  function SplitAny(s: string, seps: string): (ps: seq<string>)
    ensures |ps| >= 1
  {
    if s == [] then [""]
    else
      var rest := SplitAny(s[1..], seps);
      if s[0] in seps then [""] + rest else [[s[0]] + rest[0]] + rest[1..]
  }

  function NonEmpty(ps: seq<string>): seq<string> {
    if ps == [] then []
    else (if ps[0] == "" then [] else [ps[0]]) + NonEmpty(ps[1..])
  }

  /** FieldsFunc is splitting at every separator and dropping the empty pieces. */
  lemma {:induction false} FieldsAreNonEmptyPieces(s: string, seps: string)
    ensures Fields(s, seps) == NonEmpty(SplitAny(s, seps))
    decreases |s|
  {
    if s != [] {
      if s[0] in seps {
        FieldsAreNonEmptyPieces(s[1..], seps);
      } else {
        var n := RunLength(s, seps);
        var t := SplitAny(s[n..], seps);
        RunPiece(s, seps, n);
        assert s[..n] + t[0] == s[..n];
        var u := [s[..n]] + t[1..];
        assert SplitAny(s, seps) == u;
        assert u[0] == s[..n] != "" && u[1..] == t[1..];
        NonEmptyDropsHead(t);
        FieldsAreNonEmptyPieces(s[n..], seps);
      }
    }
  }

  /** The first piece of SplitAny is the leading run; the rest start after it. */
  lemma {:induction false} RunPiece(s: string, seps: string, n: nat)
    requires n == RunLength(s, seps)
    ensures SplitAny(s, seps) == [s[..n] + SplitAny(s[n..], seps)[0]] + SplitAny(s[n..], seps)[1..]
    ensures SplitAny(s[n..], seps)[0] == ""
    decreases |s|
  {
    if n == 0 {
      assert s[0..] == s;
      var t := SplitAny(s, seps);
      SplitAtSeparator(s, seps);
      assert s[..0] + t[0] == t[0];
      assert [t[0]] + t[1..] == t;
    } else {
      var s' := s[1..];
      assert s'[..n - 1] == s[1..n] && s'[n - 1..] == s[n..];
      assert [s[0]] + s[1..n] == s[..n];
      RunPiece(s', seps, n - 1);
      var t := SplitAny(s[n..], seps);
      var rest := SplitAny(s', seps);
      assert rest == [s[1..n] + t[0]] + t[1..];
      assert SplitAny(s, seps) == [[s[0]] + rest[0]] + rest[1..];
      assert [s[0]] + (s[1..n] + t[0]) == s[..n] + t[0];
    }
  }

  /** Text that is empty or starts at a separator has an empty first piece. */
  lemma SplitAtSeparator(s: string, seps: string)
    requires s == [] || s[0] in seps
    ensures SplitAny(s, seps)[0] == ""
    ensures SplitAny(s, seps) == [""] + SplitAny(s, seps)[1..]
  {
  }

  lemma NonEmptyDropsHead(t: seq<string>)
    requires t != [] && t[0] == ""
    ensures NonEmpty(t) == NonEmpty(t[1..])
  {
  }

  // ----------------------------------------------------------- splitAndTrim

  /** A piece is trimmed unless trimming would leave nothing. */
  function Trimmed(p: string): string {
    if TrimSpace(p) != "" then TrimSpace(p) else p
  }

  /** The trimmed fields of one raw value. */
  function Pieces(s: string, seps: string): (ps: seq<string>)
    ensures |ps| == |Fields(s, seps)|
    ensures forall k :: 0 <= k < |ps| ==> ps[k] != [] && forall i :: 0 <= i < |ps[k]| ==> ps[k][i] !in seps
  {
    var fs := Fields(s, seps);
    var ps := seq(|fs|, k requires 0 <= k < |fs| => Trimmed(fs[k]));
    forall k | 0 <= k < |ps| ensures forall i :: 0 <= i < |ps[k]| ==> ps[k][i] !in seps {
      TrimSpaceInfix(fs[k]);
    }
    ps
  }

  lemma TrimSpaceInfix(s: string)
    ensures forall i :: 0 <= i < |TrimSpace(s)| ==> TrimSpace(s)[i] in s
  {
    var l := TrimLeft(s);
    var r := TrimRight(l);
    forall i | 0 <= i < |r| ensures r[i] in s {
      assert r[i] == l[i] == s[|s| - |l| + i];
    }
  }

  /** splitAndTrim: FieldsFunc, then every field trimmed in place unless that
      would empty it. */
  method SplitAndTrim(s: string, seps: string) returns (parts: seq<string>)
    ensures parts == Pieces(s, seps)
  {
    parts := Fields(s, seps);
    ghost var fields := parts;
    for i := 0 to |parts|
      invariant |parts| == |fields|
      invariant forall k :: 0 <= k < i ==> parts[k] == Trimmed(fields[k])
      invariant forall k :: i <= k < |parts| ==> parts[k] == fields[k]
    {
      var part := TrimSpace(parts[i]);
      if part != "" {
        parts := parts[i := part];
      }
    }
  }

  // ------------------------------------------------------- ParseMultiValues

  /** Why a multi-value operation fails. */
  datatype MultiError =
    | ParseJsonCombined(flag: string)          // json beside another format, when reading
    | InvalidJsonValue(raw: string, flag: string, reason: string)
    | UnsupportedFormat(format: string, flag: string)
    | OutputJsonCombined                       // json beside another format, when writing
    | MarshalFailed(reason: string)
    | UnsupportedFormats(formats: seq<string>)

  /** The separator characters of the formats, or the first unsupported format. */
  function SepsOf(formats: seq<string>): Result<string, string> {
    if formats == [] then Success("")
    else
      match SepsOf(formats[..|formats| - 1])
      case Failure(f) => Failure(f)
      case Success(seps) =>
        var f := formats[|formats| - 1];
        if f == "comma" then Success(seps + ",")
        else if f == "newline" then Success(seps + "\r\n")
        else if f == "space" then Success(seps + " ")
        else Failure(f)
  }

  /** The separator formats a non-json multi value may name. */
  predicate SeparatorFormat(f: string) {
    f == "comma" || f == "newline" || f == "space"
  }

  /** c separates values under the formats. */
  predicate IsSeparatorOf(formats: seq<string>, c: char) {
    || (c == ',' && "comma" in formats)
    || ((c == '\r' || c == '\n') && "newline" in formats)
    || (c == ' ' && "space" in formats)
  }

  /** The formats are accepted exactly when each is a separator format. */
  lemma {:induction false} SepsOfSucceeds(formats: seq<string>)
    ensures SepsOf(formats).Success? <==> forall k :: 0 <= k < |formats| ==> SeparatorFormat(formats[k])
    decreases |formats|
  {
    if formats != [] {
      var init := formats[..|formats| - 1];
      SepsOfSucceeds(init);
      assert forall k :: 0 <= k < |init| ==> init[k] == formats[k];
    }
  }

  /** The separators are exactly the characters the formats name. */
  lemma {:induction false} SepsOfChars(formats: seq<string>)
    requires SepsOf(formats).Success?
    ensures forall c :: c in SepsOf(formats).value <==> IsSeparatorOf(formats, c)
    decreases |formats|
  {
    if formats != [] {
      var init := formats[..|formats| - 1];
      var f := formats[|formats| - 1];
      assert formats == init + [f];
      SepsOfChars(init);
      var seps := SepsOf(init).value;
      assert SepsOf(formats).value == seps + (if f == "comma" then "," else if f == "newline" then "\r\n" else " ");
      forall c ensures IsSeparatorOf(formats, c) <==> IsSeparatorOf(init, c) || IsSeparatorOf([f], c) {
        assert "comma" in formats <==> "comma" in init || f == "comma";
        assert "newline" in formats <==> "newline" in init || f == "newline";
        assert "space" in formats <==> "space" in init || f == "space";
      }
    }
  }

  /** A refused list reports its first unsupported format. */
  lemma {:induction false} SepsOfFirstFailure(formats: seq<string>)
    requires SepsOf(formats).Failure?
    ensures exists k :: 0 <= k < |formats| && !SeparatorFormat(formats[k])
              && (forall j :: 0 <= j < k ==> SeparatorFormat(formats[j]))
              && SepsOf(formats).error == formats[k]
    decreases |formats|
  {
    var init := formats[..|formats| - 1];
    assert forall k :: 0 <= k < |init| ==> init[k] == formats[k];
    if SepsOf(init).Failure? {
      SepsOfFirstFailure(init);
      var k :| 0 <= k < |init| && !SeparatorFormat(init[k])
                && (forall j :: 0 <= j < k ==> SeparatorFormat(init[j]))
                && SepsOf(init).error == init[k];
      assert formats[k] == init[k];
    } else {
      SepsOfSucceeds(init);
      assert !SeparatorFormat(formats[|formats| - 1]);
    }
  }

  /** Once a prefix of the formats is refused, so is the whole list. */
  lemma {:induction false} SepsFailureSticks(formats: seq<string>, i: nat)
    requires i <= |formats| && SepsOf(formats[..i]).Failure?
    ensures SepsOf(formats) == SepsOf(formats[..i])
    decreases |formats| - i
  {
    if i < |formats| {
      assert formats[..i + 1][..i] == formats[..i];
      SepsFailureSticks(formats, i + 1);
    } else {
      assert formats[..i] == formats;
    }
  }

  /** The trimmed fields of every raw value, in order. */
  function SplitAll(raws: seq<string>, seps: string): seq<string> {
    if raws == [] then []
    else SplitAll(raws[..|raws| - 1], seps) + Pieces(raws[|raws| - 1], seps)
  }

  /** The json branch: each non-blank raw value is a JSON array of strings or a
      JSON string; the JSON decoding itself is a parameter. */
  function JsonValues(raws: seq<string>, flag: string,
                      unmarshalArray: string -> Option<seq<string>>,
                      unmarshalString: string -> Result<string, string>): Result<seq<string>, MultiError>
  {
    if raws == [] then Success([])
    else
      match JsonValues(raws[..|raws| - 1], flag, unmarshalArray, unmarshalString)
      case Failure(e) => Failure(e)
      case Success(acc) =>
        var raw := TrimSpace(raws[|raws| - 1]);
        if raw == "" then Success(acc)
        else match unmarshalArray(raw)
          case Some(arr) => Success(acc + arr)
          case None =>
            match unmarshalString(raw)
            case Success(v) => Success(acc + [v])
            case Failure(reason) => Failure(InvalidJsonValue(raw, flag, reason))
  }

  /** The result ParseMultiValues computes. */
  function MultiValues(formats: seq<string>, raws: seq<string>, flag: string,
                       unmarshalArray: string -> Option<seq<string>>,
                       unmarshalString: string -> Result<string, string>): Result<seq<string>, MultiError>
  {
    if |raws| == 0 then Success([])
    else if |formats| == 0 then Success(raws)
    else if "json" in formats then
      if |formats| > 1 then Failure(ParseJsonCombined(flag))
      else JsonValues(raws, flag, unmarshalArray, unmarshalString)
    else
      match SepsOf(formats)
      case Failure(f) => Failure(UnsupportedFormat(f, flag))
      case Success(seps) => Success(SplitAll(raws, seps))
  }

  method ParseMultiValues(formats: seq<string>, rawValues: seq<string>, flag: string,
                          unmarshalArray: string -> Option<seq<string>>,
                          unmarshalString: string -> Result<string, string>)
    returns (r: Result<seq<string>, MultiError>)
    ensures r == MultiValues(formats, rawValues, flag, unmarshalArray, unmarshalString)
  {
    if |rawValues| == 0 {
      return Success([]);
    }
    if |formats| == 0 {
      return Success(rawValues);
    }
    var hasJson := CheckInStringSlice("json", formats);
    if hasJson {
      if |formats| > 1 {
        return Failure(ParseJsonCombined(flag));
      }
      r := ReadJsonValues(rawValues, flag, unmarshalArray, unmarshalString);
      return;
    }
    var seps := "";
    for i := 0 to |formats|
      invariant SepsOf(formats[..i]) == Success(seps)
    {
      var format := formats[i];
      assert formats[..i + 1][..i] == formats[..i];
      if format == "comma" {
        seps := seps + ",";
      } else if format == "newline" {
        seps := seps + "\r\n";
      } else if format == "space" {
        seps := seps + " ";
      } else {
        SepsFailureSticks(formats, i + 1);
        return Failure(UnsupportedFormat(format, flag));
      }
    }
    assert formats[..|formats|] == formats;
    var result: seq<string> := [];
    for i := 0 to |rawValues|
      invariant result == SplitAll(rawValues[..i], seps)
    {
      var splitValues := SplitAndTrim(rawValues[i], seps);
      assert rawValues[..i + 1][..i] == rawValues[..i];
      result := result + splitValues;
    }
    assert rawValues[..|rawValues|] == rawValues;
    return Success(result);
  }

  /** The json loop of ParseMultiValues. */
  method ReadJsonValues(rawValues: seq<string>, flag: string,
                        unmarshalArray: string -> Option<seq<string>>,
                        unmarshalString: string -> Result<string, string>)
    returns (r: Result<seq<string>, MultiError>)
    ensures r == JsonValues(rawValues, flag, unmarshalArray, unmarshalString)
  {
    var result: seq<string> := [];
    for i := 0 to |rawValues|
      invariant JsonValues(rawValues[..i], flag, unmarshalArray, unmarshalString) == Success(result)
    {
      assert rawValues[..i + 1][..i] == rawValues[..i];
      var raw := TrimSpace(rawValues[i]);
      if raw == "" {
        continue;
      }
      var arr := unmarshalArray(raw);
      if arr.Some? {
        result := result + arr.value;
        continue;
      }
      var v := unmarshalString(raw);
      if v.Success? {
        result := result + [v.value];
      } else {
        assert JsonValues(rawValues[..i + 1], flag, unmarshalArray, unmarshalString)
            == Failure(InvalidJsonValue(raw, flag, v.error));
        JsonFailureSticks(rawValues, i + 1, flag, unmarshalArray, unmarshalString);
        return Failure(InvalidJsonValue(raw, flag, v.error));
      }
    }
    assert rawValues[..|rawValues|] == rawValues;
    return Success(result);
  }

  /** A failing raw value fails the whole json branch. */
  lemma {:induction false} JsonFailureSticks(raws: seq<string>, i: nat, flag: string,
                                             unmarshalArray: string -> Option<seq<string>>,
                                             unmarshalString: string -> Result<string, string>)
    requires i <= |raws| && JsonValues(raws[..i], flag, unmarshalArray, unmarshalString).Failure?
    ensures JsonValues(raws, flag, unmarshalArray, unmarshalString)
         == JsonValues(raws[..i], flag, unmarshalArray, unmarshalString)
    decreases |raws| - i
  {
    if i < |raws| {
      assert raws[..i + 1][..i] == raws[..i];
      JsonFailureSticks(raws, i + 1, flag, unmarshalArray, unmarshalString);
    } else {
      assert raws[..i] == raws;
    }
  }

  // ------------------------------------------------------ OutputMultiValues

  /** The separator written between values: comma over newline over space,
      whatever their order in the list. */
  function OutputSep(formats: seq<string>): Option<string> {
    if "comma" in formats then Some(",")
    else if "newline" in formats then Some("\n")
    else if "space" in formats then Some(" ")
    else None
  }

  /** OutputMultiValues; the JSON encoding is a parameter. */
  function OutputMultiValues(formats: seq<string>, values: seq<string>,
                             marshal: seq<string> -> Result<string, string>): (r: Result<string, MultiError>)
    ensures r.Failure? <==>
              || ("json" in formats && |formats| > 1)
              || (values != [] && formats == ["json"] && marshal(values).Failure?)
              || (values != [] && formats != [] && "json" !in formats && OutputSep(formats).None?)
  {
    if "json" in formats && |formats| > 1 then Failure(OutputJsonCombined)
    else if |values| == 0 then Success(if "json" in formats then "[]" else "")
    else if |formats| == 0 then Success(Join(values, ","))
    else if "json" in formats then
      match marshal(values)
      case Success(data) => Success(data)
      case Failure(e) => Failure(MarshalFailed(e))
    else
      match OutputSep(formats)
      case None => Failure(UnsupportedFormats(formats))
      case Some(sep) => Success(Join(values, sep))
  }

  /** Apart from json, only which formats are listed matters, not their order
      or repetition. */
  lemma OutputIgnoresOrder(f1: seq<string>, f2: seq<string>, values: seq<string>,
                           marshal: seq<string> -> Result<string, string>)
    requires forall x :: x in f1 <==> x in f2
    requires "json" !in f1
    ensures OutputMultiValues(f1, values, marshal).Success? <==> OutputMultiValues(f2, values, marshal).Success?
    ensures OutputMultiValues(f1, values, marshal).Success? ==>
              OutputMultiValues(f1, values, marshal).value == OutputMultiValues(f2, values, marshal).value
  {
    assert f1 == [] <==> f2 == [] by {
      if f1 != [] { assert f1[0] in f2; }
      if f2 != [] { assert f2[0] in f1; }
    }
    assert OutputSep(f1) == OutputSep(f2);
  }

  /** A run of non-separators followed by nothing or by a separator. */
  lemma {:induction false} RunLengthOf(v: string, t: string, seps: string)
    requires forall i :: 0 <= i < |v| ==> v[i] !in seps
    requires t == [] || t[0] in seps
    ensures RunLength(v + t, seps) == |v|
    decreases |v|
  {
    if v == [] {
      assert v + t == t;
    } else {
      assert (v + t)[0] == v[0] && (v + t)[1..] == v[1..] + t;
      RunLengthOf(v[1..], t, seps);
    }
  }

  /** Fields inverts joining by one separator, for non-empty values without
      separators. */
  lemma {:induction false} FieldsOfJoin(vs: seq<string>, c: char, seps: string)
    requires c in seps
    requires forall k :: 0 <= k < |vs| ==> vs[k] != [] && forall i :: 0 <= i < |vs[k]| ==> vs[k][i] !in seps
    ensures Fields(Join(vs, [c]), seps) == vs
    decreases |vs|
  {
    if |vs| == 1 {
      var v := vs[0];
      assert v + [] == v;
      RunLengthOf(v, [], seps);
      assert v[..|v|] == v && v[|v|..] == [];
    } else if |vs| > 1 {
      var v, rest := vs[0], vs[1..];
      assert vs == [v] + rest;
      JoinCons(v, rest, [c]);
      var tail := [c] + Join(rest, [c]);
      var s := v + tail;
      assert Join(vs, [c]) == s;
      RunLengthOf(v, tail, seps);
      assert s[..|v|] == v && s[|v|..] == tail;
      assert tail[1..] == Join(rest, [c]);
      FieldsOfJoin(rest, c, seps);
    }
  }

  /** Splitting and trimming a text joined by one separator gives the values
      back, when none of them is empty, holds a separator or has white space at
      either end. */
  lemma PiecesOfJoin(vs: seq<string>, c: char, seps: string)
    requires c in seps
    requires forall k :: 0 <= k < |vs| ==>
               vs[k] != "" && TrimSpace(vs[k]) == vs[k] && forall i :: 0 <= i < |vs[k]| ==> vs[k][i] !in seps
    ensures Pieces(Join(vs, [c]), seps) == vs
  {
    FieldsOfJoin(vs, c, seps);
    var ps := Pieces(Join(vs, [c]), seps);
    assert forall k :: 0 <= k < |vs| ==> ps[k] == Trimmed(vs[k]);
  }

  /** The written text when the formats are separator formats. */
  lemma OutputSeparated(formats: seq<string>, values: seq<string>,
                        marshal: seq<string> -> Result<string, string>)
    requires formats != [] && forall k :: 0 <= k < |formats| ==> SeparatorFormat(formats[k])
    requires values != []
    ensures "json" !in formats
    ensures exists c :: IsSeparatorOf(formats, c) && OutputMultiValues(formats, values, marshal) == Success(Join(values, [c]))
  {
    assert SeparatorFormat(formats[0]);
    var sep := OutputSep(formats).value;
    assert sep == [sep[0]] && IsSeparatorOf(formats, sep[0]);
  }

  /** Writing values out and reading the text back gives the values, when the
      formats are separator formats and each value is non-empty, holds no
      separator and has no white space at either end. */
  lemma MultiValuesRoundTrip(formats: seq<string>, values: seq<string>, flag: string,
                             unmarshalArray: string -> Option<seq<string>>,
                             unmarshalString: string -> Result<string, string>,
                             marshal: seq<string> -> Result<string, string>)
    requires formats != [] && forall k :: 0 <= k < |formats| ==> SeparatorFormat(formats[k])
    requires forall k :: 0 <= k < |values| ==>
               values[k] != "" && TrimSpace(values[k]) == values[k]
               && forall i :: 0 <= i < |values[k]| ==> !IsSeparatorOf(formats, values[k][i])
    ensures OutputMultiValues(formats, values, marshal).Success?
    ensures MultiValues(formats, [OutputMultiValues(formats, values, marshal).value], flag,
                        unmarshalArray, unmarshalString) == Success(values)
  {
    SepsOfSucceeds(formats);
    SepsOfChars(formats);
    var seps := SepsOf(formats).value;
    if values != [] {
      OutputSeparated(formats, values, marshal);
      var c :| IsSeparatorOf(formats, c) && OutputMultiValues(formats, values, marshal) == Success(Join(values, [c]));
      PiecesOfJoin(values, c, seps);
    }
    var text := OutputMultiValues(formats, values, marshal).value;
    assert [text][..0] == [];
    assert SplitAll([text], seps) == Pieces(text, seps);
  }

  // ---------------------------------------------------- CollectUnknownFlags

  predicate StartsWithDash(s: string) {
    |s| > 0 && s[0] == '-'
  }

  predicate IsLongArg(s: string) {
    |s| >= 2 && s[0] == '-' && s[1] == '-'
  }

  /** What the scanner makes of one argument. */
  datatype Reading =
    | Stop                                              // the `--` terminator
    | Flag(name: string, value: string, takesNext: bool) // a flag, its value, whether the value is the next argument
    | Other                                             // a positional argument, or a lone `-`

  /** The next argument, when there is one and it does not start with a dash:
      a flag without a value of its own takes it. */
  function Ahead(args: seq<string>, i: nat): (next: Option<string>)
    requires i < |args|
    ensures next.Some? <==> i + 1 < |args| && !StartsWithDash(args[i + 1])
    ensures next.Some? ==> next.value == args[i + 1]
  {
    if i + 1 < |args| && !StartsWithDash(args[i + 1]) then Some(args[i + 1]) else None
  }

  /** The value a flag takes from what follows it: the next argument, or "". */
  function NextValue(next: Option<string>): string {
    if next.Some? then next.value else ""
  }

  /** The reading of one argument, given what follows it: `--name=value`,
      `--name [value]`, `-xvalue`, `-x [value]`, `--` or anything else. */
  function ReadArg(arg: string, next: Option<string>): (r: Reading)
    ensures r.Stop? <==> arg == "--"
    ensures r.Flag? && r.takesNext ==> next.Some?
  {
    if IsLongArg(arg) then
      if arg == "--" then Stop
      else
        var eq := IndexOf(arg, '=');
        if eq != -1 then Flag(arg[2..eq], arg[eq + 1..], false)
        else Flag(arg[2..], NextValue(next), next.Some?)
    else if StartsWithDash(arg) && |arg| > 1 then
      if |arg| > 2 then Flag(arg[1..2], arg[2..], false)
      else Flag(arg[1..2], NextValue(next), next.Some?)
    else Other
  }

  /** How far the scanner moves past a reading. */
  function Width(r: Reading): nat {
    if r.Flag? && r.takesNext then 2 else 1
  }

  /** The readings of the arguments from `i` on. */
  function ReadingsFrom(args: seq<string>, i: nat): (rs: seq<Reading>)
    requires i <= |args|
    ensures |rs| == |args| - i
    decreases |args| - i
  {
    if i == |args| then [] else [ReadArg(args[i], Ahead(args, i))] + ReadingsFrom(args, i + 1)
  }

  /** The reading of every argument. A flag takes the next argument only when
      there is one and it does not start with a dash. */
  function Readings(args: seq<string>): (rs: seq<Reading>)
    ensures |rs| == |args|
  {
    ReadingsFrom(args, 0)
  }

  lemma {:induction false} ReadingFromAt(args: seq<string>, i: nat, k: nat)
    requires i <= k < |args|
    ensures ReadingsFrom(args, i)[k - i] == ReadArg(args[k], Ahead(args, k))
    decreases k - i
  {
    var rest := ReadingsFrom(args, i + 1);
    assert ReadingsFrom(args, i) == [ReadArg(args[i], Ahead(args, i))] + rest;
    if i < k {
      ReadingFromAt(args, i + 1, k);
      assert ReadingsFrom(args, i)[k - i] == rest[k - i - 1];
    }
  }

  /** The reading of `args[k]`. */
  lemma ReadingAt(args: seq<string>, k: nat)
    requires k < |args|
    ensures Readings(args)[k] == ReadArg(args[k], Ahead(args, k))
  {
    ReadingFromAt(args, 0, k);
  }

  /** A flag is recorded only when no known flag has its name; a later value
      replaces an earlier one. */
  function Record(known: set<string>, acc: map<string, string>, name: string, value: string): map<string, string> {
    if name in known then acc else acc[name := value]
  }

  /** The flags found from reading `i` on, added to `acc`. */
  function Scan(rs: seq<Reading>, i: nat, known: set<string>, acc: map<string, string>): map<string, string>
    decreases |rs| - i
  {
    if i >= |rs| then acc
    else
      match rs[i]
      case Stop => acc
      case Other => Scan(rs, i + 1, known, acc)
      case Flag(name, value, takesNext) => Scan(rs, i + Width(rs[i]), known, Record(known, acc, name, value))
  }

  /** The unknown flags of an argument list, with their values. */
  function UnknownFlags(args: seq<string>, known: set<string>): map<string, string> {
    Scan(Readings(args), 0, known, map[])
  }

  /** The reading of `--name=value`. */
  lemma ReadLongAssignment(arg: string, next: Option<string>)
    requires IsLongArg(arg) && arg != "--" && '=' in arg
    ensures 2 <= IndexOf(arg, '=')
    ensures ReadArg(arg, next) == Flag(arg[2..IndexOf(arg, '=')], arg[IndexOf(arg, '=') + 1..], false)
  {
  }

  /** The look-ahead of a flag without a value of its own: the next argument
      and the index of the last argument used. */
  method TakeNext(args: seq<string>, i: nat) returns (value: string, last: nat)
    requires i < |args|
    ensures value == NextValue(Ahead(args, i))
    ensures last == i + (if Ahead(args, i).Some? then 1 else 0)
  {
    if i + 1 < |args| && !StartsWithDash(args[i + 1]) {
      value := args[i + 1];
      last := i + 1;
    } else {
      value := "";
      last := i;
    }
  }

  /** The loop step over a flag. */
  lemma FlagStep(rs: seq<Reading>, start: nat, known: set<string>,
                 before: map<string, string>, after: map<string, string>, name: string, value: string, takesNext: bool)
    requires start < |rs| && rs[start] == Flag(name, value, takesNext)
    requires name in known ==> after == before
    requires name !in known ==> after == before[name := value]
    ensures Scan(rs, start, known, before) == Scan(rs, start + Width(rs[start]), known, after)
  {
  }

  /** CollectUnknownFlags, with the known flag set given by its names. */
  method CollectUnknownFlags(args: seq<string>, known: set<string>) returns (unknown: map<string, string>)
    ensures unknown == UnknownFlags(args, known)
  {
    unknown := map[];
    var i := 0;
    ghost var rs := Readings(args);
    while i < |args|
      invariant 0 <= i <= |args|
      invariant Scan(rs, i, known, unknown) == Scan(rs, 0, known, map[])
    {
      ghost var start, before := i, unknown;
      ReadingAt(args, i);
      var arg := args[i];
      if IsLongArg(arg) {
        if arg == "--" {
          assert rs[i].Stop?;
          break;
        }
        var eqIndex := IndexOf(arg, '=');
        var flagName, flagValue;
        if eqIndex != -1 {
          ReadLongAssignment(arg, Ahead(args, i));
          flagName := arg[2..eqIndex];
          flagValue := arg[eqIndex + 1..];
        } else {
          flagName := arg[2..];
          flagValue, i := TakeNext(args, i);
        }
        if flagName !in known {
          unknown := unknown[flagName := flagValue];
        }
        FlagStep(rs, start, known, before, unknown, flagName, flagValue, i > start);
      } else if StartsWithDash(arg) && |arg| > 1 {
        var flagName := arg[1..2];
        var flagValue;
        if |arg| > 2 {
          flagValue := arg[2..];
        } else {
          flagValue, i := TakeNext(args, i);
        }
        if flagName !in known {
          unknown := unknown[flagName := flagValue];
        }
        FlagStep(rs, start, known, before, unknown, flagName, flagValue, i > start);
      } else {
        assert rs[i].Other?;
      }
      i := i + 1;
    }
  }

  /** No name of a known flag is reported. */
  lemma {:induction false} ScanSkipsKnown(rs: seq<Reading>, i: nat, known: set<string>, acc: map<string, string>)
    requires acc.Keys !! known
    ensures Scan(rs, i, known, acc).Keys !! known
    decreases |rs| - i
  {
    if i < |rs| {
      match rs[i]
      case Stop =>
      case Other => ScanSkipsKnown(rs, i + 1, known, acc);
      case Flag(name, value, takesNext) => ScanSkipsKnown(rs, i + Width(rs[i]), known, Record(known, acc, name, value));
    }
  }

  lemma UnknownFlagsNotKnown(args: seq<string>, known: set<string>)
    ensures forall name :: name in UnknownFlags(args, known) ==> name !in known
  {
    ScanSkipsKnown(Readings(args), 0, known, map[]);
  }

  /** A scan that cannot jump over a Stop at `j` ends there. */
  lemma {:induction false} ScanCut(rs: seq<Reading>, j: nat, i: nat, known: set<string>, acc: map<string, string>)
    requires j < |rs| && rs[j] == Stop && i <= j
    requires 0 < j ==> Width(rs[j - 1]) == 1
    ensures Scan(rs, i, known, acc) == Scan(rs[..j], i, known, acc)
    decreases j - i
  {
    if i < j {
      assert rs[..j][i] == rs[i];
      match rs[i]
      case Stop =>
      case Other => ScanCut(rs, j, i + 1, known, acc);
      case Flag(name, value, takesNext) => ScanCut(rs, j, i + Width(rs[i]), known, Record(known, acc, name, value));
    }
  }

  /** Before a `--`, cutting the list at that `--` changes no reading. */
  lemma ReadingsCut(args: seq<string>, j: nat)
    requires j < |args| && args[j] == "--"
    ensures Readings(args)[..j] == Readings(args[..j])
  {
    forall k | 0 <= k < j ensures Readings(args)[k] == Readings(args[..j])[k] {
      ReadingAt(args, k);
      ReadingAt(args[..j], k);
      ReadCutAt(args, j, k);
    }
  }

  lemma ReadCutAt(args: seq<string>, j: nat, k: nat)
    requires j < |args| && args[j] == "--" && k < j
    ensures args[..j][k] == args[k] && Ahead(args[..j], k) == Ahead(args, k)
  {
    assert args[..j][k] == args[k];
    if k + 1 < j {
      assert args[..j][k + 1] == args[k + 1];
    }
  }

  /** Nothing at or after a `--` is collected. */
  lemma UnknownFlagsStopAtDash(before: seq<string>, after: seq<string>, known: set<string>)
    ensures UnknownFlags(before + ["--"] + after, known) == UnknownFlags(before, known)
  {
    var args := before + ["--"] + after;
    var j := |before|;
    assert args[j] == "--" && args[..j] == before;
    ReadingsCut(args, j);
    ReadingAt(args, j);
    if 0 < j {
      ReadingAt(args, j - 1);
    }
    ScanCut(Readings(args), j, 0, known, map[]);
  }

  /** Readings past a prefix are scanned as on their own. */
  lemma {:induction false} ScanShift(p: seq<Reading>, t: seq<Reading>, i: nat, known: set<string>, acc: map<string, string>)
    ensures Scan(p + t, |p| + i, known, acc) == Scan(t, i, known, acc)
    decreases |t| - i
  {
    if i < |t| {
      assert (p + t)[|p| + i] == t[i];
      match t[i]
      case Stop =>
      case Other => ScanShift(p, t, i + 1, known, acc);
      case Flag(name, value, takesNext) => ScanShift(p, t, i + Width(t[i]), known, Record(known, acc, name, value));
    }
  }

  /** A scan over readings without Stop whose last one takes no next argument
      goes on with the readings appended. */
  lemma {:induction false} ScanAppend(p: seq<Reading>, t: seq<Reading>, i: nat, known: set<string>, acc: map<string, string>)
    requires i <= |p|
    requires forall k :: 0 <= k < |p| ==> !p[k].Stop?
    requires 0 < |p| ==> Width(p[|p| - 1]) == 1
    ensures Scan(p + t, i, known, acc) == Scan(t, 0, known, Scan(p, i, known, acc))
    decreases |p| - i
  {
    if i == |p| {
      ScanShift(p, t, 0, known, acc);
    } else {
      assert (p + t)[i] == p[i];
      match p[i]
      case Other => ScanAppend(p, t, i + 1, known, acc);
      case Flag(name, value, takesNext) => ScanAppend(p, t, i + Width(p[i]), known, Record(known, acc, name, value));
    }
  }

  /** Appending arguments that start with a dash changes no earlier reading. */
  lemma ReadingsAppend(args: seq<string>, t: seq<string>)
    requires t == [] || StartsWithDash(t[0])
    ensures Readings(args + t) == Readings(args) + Readings(t)
  {
    var all := args + t;
    forall k | 0 <= k < |all| ensures Readings(all)[k] == (Readings(args) + Readings(t))[k] {
      ReadingAt(all, k);
      if k < |args| {
        ReadingAt(args, k);
        assert all[k] == args[k];
        if k + 1 < |args| {
          assert all[k + 1] == args[k + 1];
        } else if t != [] {
          assert all[k + 1] == t[0];
        }
        assert Ahead(all, k) == Ahead(args, k);
      } else {
        ReadingAt(t, k - |args|);
        assert all[k] == t[k - |args|];
        if k + 1 < |all| {
          assert all[k + 1] == t[k + 1 - |args|];
        }
        assert Ahead(all, k) == Ahead(t, k - |args|);
      }
    }
  }

  /** The scan of an argument list without `--` followed by one more argument
      that starts with a dash. */
  lemma UnknownFlagsAppend(args: seq<string>, arg: string, known: set<string>)
    requires "--" !in args && StartsWithDash(arg)
    ensures UnknownFlags(args + [arg], known) == Scan(Readings([arg]), 0, known, UnknownFlags(args, known))
  {
    ReadingsAppend(args, [arg]);
    var rs := Readings(args);
    forall k | 0 <= k < |rs| ensures !rs[k].Stop? {
      ReadingAt(args, k);
      assert args[k] in args;
    }
    if 0 < |rs| {
      ReadingAt(args, |rs| - 1);
    }
    ScanAppend(rs, Readings([arg]), 0, known, map[]);
  }

  /** A trailing `--name=value` records the value under the name. */
  lemma LongAssignmentRecorded(args: seq<string>, name: string, value: string, known: set<string>)
    requires "--" !in args && '=' !in name
    ensures UnknownFlags(args + ["--" + name + "=" + value], known)
            == Record(known, UnknownFlags(args, known), name, value)
  {
    var arg := "--" + name + "=" + value;
    IndexOfFirst(arg, '=', |name| + 2);
    assert arg[2..|name| + 2] == name && arg[|name| + 3..] == value;
    ReadingAt([arg], 0);
    assert Readings([arg])[0] == Flag(name, value, false);
    UnknownFlagsAppend(args, arg, known);
  }

  /** A trailing `--name value` takes the value from the next argument when
      that one does not start with a dash. */
  lemma LongLookAheadRecorded(args: seq<string>, name: string, value: string, known: set<string>)
    requires "--" !in args && name != "" && '=' !in name && !StartsWithDash(value)
    ensures UnknownFlags(args + ["--" + name, value], known)
            == Record(known, UnknownFlags(args, known), name, value)
  {
    var arg := "--" + name;
    var t := [arg, value];
    assert arg[2..] == name && arg != "--";
    var rt := Readings(t);
    ReadingAt(t, 0);
    ReadingAt(t, 1);
    assert rt[0] == Flag(name, value, true);
    ReadingsAppend(args, t);
    var rs := Readings(args);
    forall k | 0 <= k < |rs| ensures !rs[k].Stop? {
      ReadingAt(args, k);
      assert args[k] in args;
    }
    if 0 < |rs| {
      ReadingAt(args, |rs| - 1);
    }
    ScanAppend(rs, rt, 0, known, map[]);
  }

  /** A trailing `-x` followed by its value, attached or absent, records that
      value under the one-letter name. */
  lemma ShortFlagRecorded(args: seq<string>, letter: char, value: string, known: set<string>)
    requires "--" !in args && letter != '-'
    ensures UnknownFlags(args + ["-" + [letter] + value], known)
            == Record(known, UnknownFlags(args, known), [letter], value)
  {
    var arg := "-" + [letter] + value;
    assert arg[1] == letter && arg[1..2] == [letter] && arg[2..] == value;
    ReadingAt([arg], 0);
    assert Readings([arg])[0] == Flag([letter], value, false);
    UnknownFlagsAppend(args, arg, known);
  }
}
