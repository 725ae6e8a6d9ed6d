/**
  Writing the collected flag values out as shell code that sets environment
  variables: the variable name of a flag, one line per flag in the syntax of
  a POSIX shell, PowerShell or cmd.exe, and the choice of the shell.
 */
module Shell {
  import opened Wrappers
  import opened Text
  import opened Types
  import opened Utils
  import opened StringOrder
  import PosixQuoting
  import PowershellQuoting
  import CmdQuoting

  // ------------------------------------------------------ variable names

  /** The character of a derived variable name for one character of the key. */
  function EnvChar(c: char): char {
    if c == '-' then '_' else UpperChar(c)
  }

  /** calcEnvName: the explicit name of the flag, or else its key with every
      dash turned into an underscore and upper-cased; behind the prefix. */
  function CalcEnvName(fs: FlagSpec, key: string, prefix: string): (r: string)
    ensures fs.EnvName != "" ==> r == prefix + fs.EnvName
    ensures fs.EnvName == "" ==> |r| == |prefix| + |key| && r[..|prefix|] == prefix
    ensures fs.EnvName == "" ==> forall i :: 0 <= i < |key| ==> r[|prefix| + i] == EnvChar(key[i])
  {
    ReplaceAllChar(key, '-', '_');
    var name := if fs.EnvName == "" then ToUpper(ReplaceAll(key, '-', "_")) else fs.EnvName;
    if prefix != "" then prefix + name else name
  }

  // ------------------------------------------------------ the three dialects

  datatype Dialect = Posix | PowerShell | Cmd

  /** What separates the lines of the output. */
  function LineSep(d: Dialect): string {
    if d == Cmd then "\r\n" else "\n"
  }

  /** The text of a line before the literal of the value. */
  function Head(d: Dialect, name: string, persist: bool): string {
    match d
    case Posix => (if persist then "export " else "") + name + "="
    case PowerShell =>
      if persist then "[System.Environment]::SetEnvironmentVariable(" + PowershellQuoting.QuoteAsWritten(name) + ","
      else "$Env:" + name + " = "
    case Cmd => if persist then "setx " + name + " \"" else "set \"" + name + "="
  }

  /** The line that sets one variable. A persistent PowerShell variable is set
      for the user; a session cmd variable takes the literal without its
      outer double quotes. */
  function Line(d: Dialect, name: string, value: string, persist: bool): string {
    match d
    case Posix => Head(d, name, persist) + PosixQuoting.ShellLiteral(value)
    case PowerShell =>
      Head(d, name, persist) + PowershellQuoting.PowershellLiteralAsWritten(value) + (if persist then ",'User')" else "")
    case Cmd =>
      Head(d, name, persist)
        + (if persist then CmdQuoting.CmdLiteral(value) else TrimChar(CmdQuoting.CmdLiteral(value), '"'))
        + "\""
  }

  /** The line, with the literal built by the builder loops. */
  method BuildLine(d: Dialect, name: string, value: string, persist: bool) returns (line: string)
    ensures line == Line(d, name, value, persist)
  {
    match d
    case Posix =>
      var quoted := PosixQuoting.ShellLiteral(value);
      if persist {
        line := "export " + name + "=" + quoted;
      } else {
        line := name + "=" + quoted;
      }
    case PowerShell =>
      var escaped := PowershellQuoting.BuildPowershellLiteral(value);
      if persist {
        line := "[System.Environment]::SetEnvironmentVariable(" + PowershellQuoting.QuoteAsWritten(name) + ","
          + escaped + ",'User')";
      } else {
        line := "$Env:" + name + " = " + escaped;
      }
    case Cmd =>
      var escaped := CmdQuoting.BuildCmdLiteral(value);
      if persist {
        line := "setx " + name + " \"" + escaped + "\"";
      } else {
        line := "set \"" + name + "=" + TrimChar(escaped, '"') + "\"";
      }
  }

  // ------------------------------------------------------------ the lines

  /** Why exporting fails. */
  datatype ExportError =
    | FlagFailed(key: string, cause: MultiError)   // the values of a flag could not be written
    | DetectFailed(reason: string)                  // the user's shell could not be found

  /** The key names a flag; a missing key reads as a nil flag. */
  predicate IsPresent(spec: CmdSpec, key: string) {
    key in spec.Flags && spec.Flags[key].Some?
  }

  /** The values of the flag of a key, written out. */
  function FlagOutput(spec: CmdSpec, key: string, marshal: seq<string> -> Result<string, string>): Result<string, MultiError>
    requires IsPresent(spec, key)
  {
    var fs := spec.Flags[key].value;
    OutputMultiValues(fs.MultiFormat, fs.Value, marshal)
  }

  /** The flag of the key cannot be written out. */
  predicate Fails(spec: CmdSpec, key: string, marshal: seq<string> -> Result<string, string>) {
    IsPresent(spec, key) && FlagOutput(spec, key, marshal).Failure?
  }

  /** Lines in front of a result, which a failure discards. */
  function Prepend(lines: seq<string>, r: Result<seq<string>, ExportError>): Result<seq<string>, ExportError> {
    match r
    case Success(ls) => Success(lines + ls)
    case Failure(e) => Failure(e)
  }

  /** What one key contributes: no line for a nil flag, the line of the
      flag, or the failure to write its values out. */
  function KeyLine(d: Dialect, spec: CmdSpec, key: string,
                   marshal: seq<string> -> Result<string, string>): Result<Option<string>, ExportError>
  {
    if !IsPresent(spec, key) then Success(None)
    else
      var fs := spec.Flags[key].value;
      match FlagOutput(spec, key, marshal)
      case Failure(e) => Failure(FlagFailed(key, e))
      case Success(val) => Success(Some(Line(d, CalcEnvName(fs, key, spec.EnvPrefix), val, fs.Export)))
  }

  /** The lines of the keys from index i on: nil flags are skipped and the
      first flag that cannot be written out stops the export. */
  function ExportLines(d: Dialect, spec: CmdSpec, keys: seq<string>, i: nat,
                       marshal: seq<string> -> Result<string, string>): Result<seq<string>, ExportError>
    decreases |keys| - i
  {
    if i >= |keys| then Success([])
    else
      match KeyLine(d, spec, keys[i], marshal)
      case Failure(e) => Failure(e)
      case Success(None) => ExportLines(d, spec, keys, i + 1, marshal)
      case Success(Some(line)) => Prepend([line], ExportLines(d, spec, keys, i + 1, marshal))
  }

  /** What the exporters return: nothing for a nil command or one without
      flags, otherwise the lines of the flags in ascending key order. */
  function Export(d: Dialect, spec: Option<CmdSpec>, marshal: seq<string> -> Result<string, string>): Result<string, ExportError> {
    if spec.None? || |spec.value.Flags| == 0 then Success("")
    else
      match ExportLines(d, spec.value, SortStrings(spec.value.Flags.Keys), 0, marshal)
      case Failure(e) => Failure(e)
      case Success(lines) => Success(Join(lines, LineSep(d)))
  }

  lemma PrependTwice(a: seq<string>, b: seq<string>, r: Result<seq<string>, ExportError>)
    ensures Prepend(a, Prepend(b, r)) == Prepend(a + b, r)
  {
    if r.Success? {
      assert a + (b + r.value) == (a + b) + r.value;
    }
  }

  lemma PrependNothing(r: Result<seq<string>, ExportError>)
    ensures Prepend([], r) == r
  {
    if r.Success? {
      assert [] + r.value == r.value;
    }
  }

  /** KeyLine, with the literal built by the builder loops. */
  method ExportKey(d: Dialect, spec: CmdSpec, key: string, marshal: seq<string> -> Result<string, string>)
    returns (r: Result<Option<string>, ExportError>)
    ensures r == KeyLine(d, spec, key, marshal)
  {
    var fs := if key in spec.Flags then spec.Flags[key] else None;
    if fs.None? {
      return Success(None);
    }
    var name := CalcEnvName(fs.value, key, spec.EnvPrefix);
    var val := OutputMultiValues(fs.value.MultiFormat, fs.value.Value, marshal);
    if val.Failure? {
      return Failure(FlagFailed(key, val.error));
    }
    var line := BuildLine(d, name, val.value, fs.value.Export);
    return Success(Some(line));
  }

  /** The loop the three exporters share: the lines of the keys in turn. */
  method CollectLines(d: Dialect, spec: CmdSpec, keys: seq<string>, marshal: seq<string> -> Result<string, string>)
    returns (r: Result<seq<string>, ExportError>)
    ensures r == ExportLines(d, spec, keys, 0, marshal)
  {
    ghost var total := ExportLines(d, spec, keys, 0, marshal);
    var lines: seq<string> := [];
    PrependNothing(total);
    var i := 0;
    while i < |keys|
      invariant 0 <= i <= |keys|
      invariant Prepend(lines, ExportLines(d, spec, keys, i, marshal)) == total
    {
      var step := ExportKey(d, spec, keys[i], marshal);
      match step {
        case Failure(e) =>
          return Failure(e);
        case Success(None) =>
        case Success(Some(line)) =>
          PrependTwice(lines, [line], ExportLines(d, spec, keys, i + 1, marshal));
          lines := lines + [line];
      }
      i := i + 1;
    }
    assert lines + [] == lines;
    return Success(lines);
  }

  /** The exporters: nothing for a nil command or one without flags,
      otherwise the lines of the flags in ascending key order. */
  method ExportLike(d: Dialect, spec: Option<CmdSpec>, marshal: seq<string> -> Result<string, string>)
    returns (r: Result<string, ExportError>)
    ensures r == Export(d, spec, marshal)
  {
    if spec.None? || |spec.value.Flags| == 0 {
      return Success("");
    }
    var keys := SortStrings(spec.value.Flags.Keys);
    var lines := CollectLines(d, spec.value, keys, marshal);
    if lines.Failure? {
      return Failure(lines.error);
    }
    return Success(Join(lines.value, LineSep(d)));
  }

  /** exportEnvVarLinuxLike. */
  method ExportEnvVarLinuxLike(spec: Option<CmdSpec>, marshal: seq<string> -> Result<string, string>)
    returns (r: Result<string, ExportError>)
    ensures r == Export(Posix, spec, marshal)
  {
    r := ExportLike(Posix, spec, marshal);
  }

  /** exportEnvVarPowershellLike. */
  method ExportEnvVarPowershellLike(spec: Option<CmdSpec>, marshal: seq<string> -> Result<string, string>)
    returns (r: Result<string, ExportError>)
    ensures r == Export(PowerShell, spec, marshal)
  {
    r := ExportLike(PowerShell, spec, marshal);
  }

  /** exportEnvVarCmdLike. */
  method ExportEnvVarCmdLike(spec: Option<CmdSpec>, marshal: seq<string> -> Result<string, string>)
    returns (r: Result<string, ExportError>)
    ensures r == Export(Cmd, spec, marshal)
  {
    r := ExportLike(Cmd, spec, marshal);
  }

  // ------------------------------------------------- what the export holds

  lemma {:induction false} LinesOfNilFlags(d: Dialect, spec: CmdSpec, keys: seq<string>, i: nat,
                                           marshal: seq<string> -> Result<string, string>)
    requires forall j :: i <= j < |keys| ==> !IsPresent(spec, keys[j])
    ensures ExportLines(d, spec, keys, i, marshal) == Success([])
    decreases |keys| - i
  {
    if i < |keys| {
      LinesOfNilFlags(d, spec, keys, i + 1, marshal);
    }
  }

  /** A command whose flags are all nil exports nothing. */
  lemma ExportNilFlags(d: Dialect, spec: CmdSpec, marshal: seq<string> -> Result<string, string>)
    requires forall k :: k in spec.Flags ==> spec.Flags[k].None?
    ensures Export(d, Some(spec), marshal) == Success("")
  {
    if |spec.Flags| > 0 {
      var keys := SortStrings(spec.Flags.Keys);
      forall j | 0 <= j < |keys|
        ensures !IsPresent(spec, keys[j])
      {
        assert keys[j] in spec.Flags.Keys;
      }
      LinesOfNilFlags(d, spec, keys, 0, marshal);
    }
  }

  /** The index of the first key from i on whose flag cannot be written out,
      or the length when there is none. */
  function FirstFailure(spec: CmdSpec, keys: seq<string>, i: nat,
                        marshal: seq<string> -> Result<string, string>): (j: nat)
    requires i <= |keys|
    ensures i <= j <= |keys|
    ensures j < |keys| ==> Fails(spec, keys[j], marshal)
    ensures forall k :: i <= k < j ==> !Fails(spec, keys[k], marshal)
    decreases |keys| - i
  {
    if i == |keys| || Fails(spec, keys[i], marshal) then i
    else FirstFailure(spec, keys, i + 1, marshal)
  }

  /** The lines fail exactly when some flag fails, with the error of the
      first one. */
  lemma {:induction false} LinesFailure(d: Dialect, spec: CmdSpec, keys: seq<string>, i: nat,
                                        marshal: seq<string> -> Result<string, string>)
    requires i <= |keys|
    ensures ExportLines(d, spec, keys, i, marshal).Failure? <==> FirstFailure(spec, keys, i, marshal) < |keys|
    ensures ExportLines(d, spec, keys, i, marshal).Failure? ==>
              var j := FirstFailure(spec, keys, i, marshal);
              ExportLines(d, spec, keys, i, marshal).error == FlagFailed(keys[j], FlagOutput(spec, keys[j], marshal).error)
    decreases |keys| - i
  {
    if i < |keys| {
      LinesFailure(d, spec, keys, i + 1, marshal);
    }
  }

  /** The export fails exactly when the values of some flag cannot be
      written out; the error names the least such key, and carries why. */
  lemma ExportFailure(d: Dialect, spec: CmdSpec, marshal: seq<string> -> Result<string, string>)
    ensures Export(d, Some(spec), marshal).Failure? <==> exists k :: Fails(spec, k, marshal)
    ensures Export(d, Some(spec), marshal).Failure? ==>
              var e := Export(d, Some(spec), marshal).error;
              && e.FlagFailed?
              && Fails(spec, e.key, marshal)
              && e.cause == FlagOutput(spec, e.key, marshal).error
              && forall k :: Fails(spec, k, marshal) && k != e.key ==> StringLess(e.key, k)
  {
    if |spec.Flags| == 0 {
      assert spec.Flags == map[];
    } else {
      var keys := SortStrings(spec.Flags.Keys);
      LinesFailure(d, spec, keys, 0, marshal);
      FirstFailureLeast(spec, keys, marshal);
    }
  }

  /** Over the keys of the command in ascending order, the first failing key
      is the least failing key. */
  lemma FirstFailureLeast(spec: CmdSpec, keys: seq<string>, marshal: seq<string> -> Result<string, string>)
    requires Ascending(keys)
    requires forall x :: x in keys <==> x in spec.Flags
    ensures var j := FirstFailure(spec, keys, 0, marshal);
            forall k :: Fails(spec, k, marshal) ==> j < |keys| && (k == keys[j] || StringLess(keys[j], k))
  {
    var j := FirstFailure(spec, keys, 0, marshal);
    forall k | Fails(spec, k, marshal)
      ensures j < |keys| && (k == keys[j] || StringLess(keys[j], k))
    {
      assert k in keys;
      var n :| 0 <= n < |keys| && keys[n] == k;
      assert j <= n;
    }
  }

  /** Whether and how the export fails does not depend on the shell. */
  lemma FailureAnyDialect(d1: Dialect, d2: Dialect, spec: CmdSpec, marshal: seq<string> -> Result<string, string>)
    ensures Export(d1, Some(spec), marshal).Failure? <==> Export(d2, Some(spec), marshal).Failure?
    ensures Export(d1, Some(spec), marshal).Failure? ==>
              Export(d1, Some(spec), marshal).error == Export(d2, Some(spec), marshal).error
  {
    ExportFailure(d1, spec, marshal);
    ExportFailure(d2, spec, marshal);
    if Export(d1, Some(spec), marshal).Failure? {
      var k1 := Export(d1, Some(spec), marshal).error.key;
      var k2 := Export(d2, Some(spec), marshal).error.key;
      if k1 != k2 {
        LessTransitive(k1, k2, k1);
        LessIrreflexive(k1);
      }
    }
  }

  /** The keys from index i on that name a flag, in their order. */
  function Present(spec: CmdSpec, keys: seq<string>, i: nat): (ps: seq<string>)
    decreases |keys| - i
  {
    if i >= |keys| then []
    else if IsPresent(spec, keys[i]) then [keys[i]] + Present(spec, keys, i + 1)
    else Present(spec, keys, i + 1)
  }

  lemma {:induction false} PresentMembers(spec: CmdSpec, keys: seq<string>, i: nat)
    requires i <= |keys|
    ensures forall x :: x in Present(spec, keys, i) <==> IsPresent(spec, x) && x in keys[i..]
    decreases |keys| - i
  {
    if i < |keys| {
      PresentMembers(spec, keys, i + 1);
      assert keys[i..] == [keys[i]] + keys[i + 1..];
    }
  }

  lemma {:induction false} PresentAscending(spec: CmdSpec, keys: seq<string>, i: nat)
    requires i <= |keys|
    requires Ascending(keys)
    ensures Ascending(Present(spec, keys, i))
    decreases |keys| - i
  {
    if i < |keys| {
      PresentAscending(spec, keys, i + 1);
      if IsPresent(spec, keys[i]) {
        var tail := Present(spec, keys, i + 1);
        var ps := [keys[i]] + tail;
        assert Present(spec, keys, i) == ps;
        PresentMembers(spec, keys, i + 1);
        forall a, b | 0 <= a < b < |ps|
          ensures StringLess(ps[a], ps[b])
        {
          if a == 0 {
            assert ps[b] == tail[b - 1] && tail[b - 1] in tail;
            var m :| 0 <= m < |keys[i + 1..]| && keys[i + 1..][m] == ps[b];
            assert keys[i + 1 + m] == ps[b] && ps[a] == keys[i];
            assert StringLess(keys[i], keys[i + 1 + m]);
          } else {
            assert ps[a] == tail[a - 1] && ps[b] == tail[b - 1];
          }
        }
      }
    }
  }

  /** KeyLine of the command, as a function of the key. */
  function LineOf(d: Dialect, spec: CmdSpec, marshal: seq<string> -> Result<string, string>): string -> Result<Option<string>, ExportError> {
    key => KeyLine(d, spec, key, marshal)
  }

  /** Line j is the line of the j-th key. */
  predicate LinesMatch(lineOf: string -> Result<Option<string>, ExportError>, ps: seq<string>, lines: seq<string>) {
    |lines| == |ps| && forall j :: 0 <= j < |ps| ==> lineOf(ps[j]) == Success(Some(lines[j]))
  }

  lemma LinesMatchCons(lineOf: string -> Result<Option<string>, ExportError>, k: string, ps: seq<string>,
                       line: string, lines: seq<string>)
    requires LinesMatch(lineOf, ps, lines) && lineOf(k) == Success(Some(line))
    ensures LinesMatch(lineOf, [k] + ps, [line] + lines)
  {
    var ps', lines' := [k] + ps, [line] + lines;
    forall j | 0 <= j < |ps'|
      ensures lineOf(ps'[j]) == Success(Some(lines'[j]))
    {
      if j == 0 {
        assert ps'[j] == k && lines'[j] == line;
      } else {
        assert ps'[j] == ps[j - 1] && lines'[j] == lines[j - 1];
      }
    }
  }

  /** On success, one line per key that names a flag, each the line of its
      flag. */
  lemma {:induction false} LinesShape(d: Dialect, spec: CmdSpec, keys: seq<string>, i: nat,
                                      marshal: seq<string> -> Result<string, string>)
    requires ExportLines(d, spec, keys, i, marshal).Success?
    ensures LinesMatch(LineOf(d, spec, marshal), Present(spec, keys, i), ExportLines(d, spec, keys, i, marshal).value)
    decreases |keys| - i
  {
    if i < |keys| {
      var step := KeyLine(d, spec, keys[i], marshal);
      LinesShape(d, spec, keys, i + 1, marshal);
      if step.Success? && step.value.Some? {
        var tail := ExportLines(d, spec, keys, i + 1, marshal).value;
        assert ExportLines(d, spec, keys, i, marshal).value == [step.value.value] + tail;
        assert Present(spec, keys, i) == [keys[i]] + Present(spec, keys, i + 1);
        assert LineOf(d, spec, marshal)(keys[i]) == step;
        LinesMatchCons(LineOf(d, spec, marshal), keys[i], Present(spec, keys, i + 1), step.value.value, tail);
      }
    }
  }

  /** A successful export: the lines of the flags that are not nil, in
      ascending key order, joined by the line separator of the shell. */
  lemma ExportSuccess(d: Dialect, spec: CmdSpec, marshal: seq<string> -> Result<string, string>)
    requires |spec.Flags| > 0 && Export(d, Some(spec), marshal).Success?
    ensures var keys := SortStrings(spec.Flags.Keys);
            var lines := ExportLines(d, spec, keys, 0, marshal).value;
            var ps := Present(spec, keys, 0);
            && Export(d, Some(spec), marshal).value == Join(lines, LineSep(d))
            && (forall x :: x in ps <==> IsPresent(spec, x))
            && Ascending(ps)
            && LinesMatch(LineOf(d, spec, marshal), ps, lines)
  {
    var keys := SortStrings(spec.Flags.Keys);
    PresentMembers(spec, keys, 0);
    assert keys[0..] == keys;
    PresentAscending(spec, keys, 0);
    LinesShape(d, spec, keys, 0, marshal);
  }

  // ---------------------------------------------------- reading a line back

  /** In a POSIX line the text after the `=` is read back as the value. */
  lemma PosixLineReads(name: string, value: string, persist: bool)
    ensures var line := Line(Posix, name, value, persist);
            var head := Head(Posix, name, persist);
            head <= line && PosixQuoting.PosixWord(line[|head|..]) == Some(value)
  {
    var head := Head(Posix, name, persist);
    var lit := PosixQuoting.ShellLiteral(value);
    PosixQuoting.ShellLiteralRoundTrip(value);
    assert (head + lit)[|head|..] == lit;
  }

  /** On a name and a value without typographic single quotes, the PowerShell
      line as written is the line the corrected quoting would give. */
  lemma PowershellLineAgrees(name: string, value: string, persist: bool)
    requires PowershellQuoting.PlainQuotes(name) && PowershellQuoting.PlainQuotes(value)
    ensures Line(PowerShell, name, value, persist)
            == (if persist then "[System.Environment]::SetEnvironmentVariable(" + PowershellQuoting.Quote(name) + ","
                else "$Env:" + name + " = ")
               + PowershellQuoting.PowershellLiteral(value) + (if persist then ",'User')" else "")
  {
    PowershellQuoting.QuoteAgrees(name);
    PowershellQuoting.LiteralAgrees(value);
  }

  /** In a PowerShell session line the expression after ` = ` evaluates to
      the value, when the value holds no typographic single quote. */
  lemma PowershellLineReads(name: string, value: string)
    requires PowershellQuoting.PlainQuotes(value)
    ensures var line := Line(PowerShell, name, value, false);
            var head := Head(PowerShell, name, false);
            head <= line && PowershellQuoting.StringSum(line[|head|..]) == Some(value)
  {
    var head := Head(PowerShell, name, false);
    var lit := PowershellQuoting.PowershellLiteralAsWritten(value);
    PowershellQuoting.PowershellLiteralAsWrittenRoundTrip(value);
    assert Line(PowerShell, name, value, false) == head + lit + "";
    assert (head + lit + "")[|head|..] == lit;
  }

  /** The first argument of SetEnvironmentVariable is the variable name, when
      the name holds no typographic single quote. */
  lemma PowershellNameReads(name: string, value: string)
    requires PowershellQuoting.PlainQuotes(name)
    ensures var line := Line(PowerShell, name, value, true);
            var call := "[System.Environment]::SetEnvironmentVariable(";
            var rest := "," + PowershellQuoting.PowershellLiteralAsWritten(value) + ",'User')";
            call <= line && PowershellQuoting.StringTerm(line[|call|..]) == Some((name, rest))
  {
    var call := "[System.Environment]::SetEnvironmentVariable(";
    var rest := "," + PowershellQuoting.PowershellLiteralAsWritten(value) + ",'User')";
    var q := PowershellQuoting.QuoteAsWritten(name);
    var lit := PowershellQuoting.PowershellLiteralAsWritten(value);
    PowershellQuoting.QuoteAgrees(name);
    PowershellQuoting.QuoteTerm(name, rest);
    assert Line(PowerShell, name, value, true) == call + q + "," + lit + ",'User')";
    ConcatAssoc(call + q, ",", lit);
    ConcatAssoc(call + q, "," + lit, ",'User')");
    ConcatAssoc(call, q, rest);
    assert (call + (q + rest))[|call|..] == q + rest;
  }

  /** In a setx line the quoted literal reads back as a value without
      backslashes. */
  lemma CmdSetxLineReads(name: string, value: string)
    requires '\\' !in value
    ensures var line := Line(Cmd, name, value, true);
            var head := Head(Cmd, name, true);
            |head| < |line| && head <= line && CmdQuoting.Unquote(line[|head|..|line| - 1]) == Some(value)
  {
    var head := Head(Cmd, name, true);
    var lit := CmdQuoting.CmdLiteral(value);
    CmdQuoting.CmdLiteralRoundTrip(value);
    assert Line(Cmd, name, value, true) == head + lit + "\"";
    assert (head + lit + "\"")[|head|..|head| + |lit|] == lit;
  }

  // ------------------------------------------------------ choosing the shell

  /** The dialect for the shell type of the command; the name of the user's
      shell decides when the type is automatic or unknown. */
  function DialectOf(shellType: ShellType, detected: Result<string, string>): (r: Result<Dialect, ExportError>)
    ensures r.Failure? <==> shellType !in {ShellTypeSh, ShellTypePowershell, ShellTypeCmd} && detected.Failure?
  {
    if shellType == ShellTypeSh then Success(Posix)
    else if shellType == ShellTypePowershell then Success(PowerShell)
    else if shellType == ShellTypeCmd then Success(Cmd)
    else
      match detected
      case Failure(e) => Failure(DetectFailed(e))
      case Success(shellName) =>
        var lowerName := ToLower(shellName);
        if ContainsString(lowerName, "powershell") || ContainsString(lowerName, "pwsh") then Success(PowerShell)
        else if ContainsString(lowerName, "cmd.exe") || ContainsString(lowerName, "cmd") then Success(Cmd)
        else Success(Posix)
  }

  /** exportEnvVar; `detected` is what detecting the user's shell gives. */
  method ExportEnvVar(spec: CmdSpec, detected: Result<string, string>, marshal: seq<string> -> Result<string, string>)
    returns (r: Result<string, ExportError>)
    ensures DialectOf(spec.ShellType, detected).Failure? ==> r == Failure(DialectOf(spec.ShellType, detected).error)
    ensures DialectOf(spec.ShellType, detected).Success? ==> r == Export(DialectOf(spec.ShellType, detected).value, Some(spec), marshal)
  {
    if spec.ShellType == ShellTypeSh {
      r := ExportEnvVarLinuxLike(Some(spec), marshal);
    } else if spec.ShellType == ShellTypePowershell {
      r := ExportEnvVarPowershellLike(Some(spec), marshal);
    } else if spec.ShellType == ShellTypeCmd {
      r := ExportEnvVarCmdLike(Some(spec), marshal);
    } else if detected.Failure? {
      r := Failure(DetectFailed(detected.error));
    } else {
      var lowerName := ToLower(detected.value);
      if ContainsString(lowerName, "powershell") || ContainsString(lowerName, "pwsh") {
        r := ExportEnvVarPowershellLike(Some(spec), marshal);
      } else if ContainsString(lowerName, "cmd.exe") || ContainsString(lowerName, "cmd") {
        r := ExportEnvVarCmdLike(Some(spec), marshal);
      } else {
        r := ExportEnvVarLinuxLike(Some(spec), marshal);
      }
    }
  }

  /** A name that contains "cmd.exe" contains "cmd": the first test of the
      cmd branch adds nothing to the second. */
  lemma {:induction false} CmdExeContainsCmd(s: string)
    requires ContainsString(s, "cmd.exe")
    ensures ContainsString(s, "cmd")
  {
    if !("cmd.exe" <= s) {
      CmdExeContainsCmd(s[1..]);
    }
  }

  /** The shell name is compared without regard to case. */
  lemma DetectIgnoresCase(shellType: ShellType, shellName: string)
    ensures DialectOf(shellType, Success(ToUpper(shellName))) == DialectOf(shellType, Success(shellName))
  {
    LowerOfUpper(shellName);
  }
}
