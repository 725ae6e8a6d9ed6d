/**
  The small helpers of the command runner that the multi-value codec and the
  flag scanner rely on: membership in a list of strings, validation of a
  multi-value format list, the names given more than once, and the split of
  the argument list at the first `--`.
 */
module RunHelpers {
  import opened Wrappers

  /** The format names a multi-valued flag may use. */
  const AllowedMultiFormats: seq<string> := ["comma", "newline", "space", "json"]

  /** Why a format list is refused. */
  datatype FormatError =
    | InvalidMultiFormat(format: string, flag: string)
    | JsonNotAlone(flag: string)

  /** Linear search with early return. */
  method CheckInStringSlice(value: string, slice: seq<string>) returns (found: bool)
    ensures found <==> value in slice
  {
    for i := 0 to |slice|
      invariant value !in slice[..i]
    {
      if value == slice[i] {
        return true;
      }
    }
    return false;
  }

  /** The first format outside the allowed ones is reported; a list whose every
      format is allowed is refused only when it holds `json` beside another one. */
  method CheckMultiFormat(formats: seq<string>, flag: string) returns (err: Option<FormatError>)
    ensures err.None? <==>
              (forall k :: 0 <= k < |formats| ==> formats[k] in AllowedMultiFormats)
              && !("json" in formats && |formats| > 1)
    ensures (exists k :: 0 <= k < |formats| && formats[k] !in AllowedMultiFormats) ==>
              exists k :: 0 <= k < |formats| && formats[k] !in AllowedMultiFormats
                && (forall j :: 0 <= j < k ==> formats[j] in AllowedMultiFormats)
                && err == Some(InvalidMultiFormat(formats[k], flag))
    ensures ((forall k :: 0 <= k < |formats| ==> formats[k] in AllowedMultiFormats)
             && "json" in formats && |formats| > 1) ==> err == Some(JsonNotAlone(flag))
  {
    for i := 0 to |formats|
      invariant forall j :: 0 <= j < i ==> formats[j] in AllowedMultiFormats
    {
      var allowed := CheckInStringSlice(formats[i], AllowedMultiFormats);
      if !allowed {
        return Some(InvalidMultiFormat(formats[i], flag));
      }
    }
    var hasJson := CheckInStringSlice("json", formats);
    if hasJson && |formats| > 1 {
      return Some(JsonNotAlone(flag));
    }
    return None;
  }

  /** The names that occur more than once, each reported once. The source reads
      them back from a map, so their order is not fixed: the second loop takes
      the counted names in an arbitrary order. */
  method GetRepeatedFlagsName(names: seq<string>) returns (repeated: seq<string>)
    ensures forall n :: n in repeated <==> multiset(names)[n] > 1
    ensures forall i, j :: 0 <= i < j < |repeated| ==> repeated[i] != repeated[j]
  {
    var nameCount: map<string, int> := map[];
    for i := 0 to |names|
      invariant forall n :: n in nameCount <==> n in names[..i]
      invariant forall n :: n in nameCount ==> nameCount[n] == multiset(names[..i])[n]
    {
      var n := names[i];
      var c := if n in nameCount then nameCount[n] else 0;
      nameCount := nameCount[n := c + 1];
      assert names[..i + 1] == names[..i] + [n];
    }
    assert names[..|names|] == names;
    repeated := [];
    var keys := nameCount.Keys;
    while keys != {}
      invariant keys <= nameCount.Keys
      invariant forall n :: n in repeated <==> n in nameCount && n !in keys && nameCount[n] > 1
      invariant forall i, j :: 0 <= i < j < |repeated| ==> repeated[i] != repeated[j]
      decreases |keys|
    {
      var n :| n in keys;
      if nameCount[n] > 1 {
        repeated := repeated + [n];
      }
      keys := keys - {n};
    }
    forall n | multiset(names)[n] > 1 ensures n in nameCount {
      assert n in multiset(names);
    }
  }

  /** The arguments before the first `--` and those after it; with no `--`, all
      arguments come before and none after. */
  method SplitAtDoubleDash(args: seq<string>) returns (before: seq<string>, after: seq<string>)
    ensures "--" !in args ==> before == args && after == []
    ensures "--" in args ==> "--" !in before && before + ["--"] + after == args
  {
    for i := 0 to |args|
      invariant "--" !in args[..i]
    {
      if args[i] == "--" {
        before := args[..i];
        after := args[i + 1..];
        assert args == args[..i] + [args[i]] + args[i + 1..];
        return;
      }
    }
    assert args[..|args|] == args;
    before := args;
    after := [];
  }

  /** The two equations of SplitAtDoubleDash fix its result: `before` is the
      prefix up to the first `--`. */
  lemma SplitAtDoubleDashUnique(args: seq<string>, b1: seq<string>, a1: seq<string>, b2: seq<string>, a2: seq<string>)
    requires "--" !in b1 && b1 + ["--"] + a1 == args
    requires "--" !in b2 && b2 + ["--"] + a2 == args
    ensures b1 == b2 && a1 == a2
  {
    DashAt(args, b1, a1);
    DashAt(args, b2, a2);
    assert |b1| <= |b2| && |b2| <= |b1|;
  }

  /** Where `--` sits when b + ["--"] + a is the argument list. */
  lemma DashAt(args: seq<string>, b: seq<string>, a: seq<string>)
    requires "--" !in b && b + ["--"] + a == args
    ensures |b| < |args| && args[|b|] == "--" && forall j :: 0 <= j < |b| ==> args[j] != "--"
    ensures b == args[..|b|] && a == args[|b| + 1..]
  {
    assert forall j :: 0 <= j < |b| ==> args[j] == b[j];
  }
}
