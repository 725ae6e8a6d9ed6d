/**
  The records of the binder: the description of one flag, the description of
  the command being bound, and the shell kind. They carry no behaviour.
 */
module Types {
  import opened Wrappers
  import opened IntRanges

  /** One flag of the bound command. */
  datatype FlagSpec = FlagSpec(
    ShortName: string,
    Default: seq<string>,
    NoOptDefValue: string,
    Choices: seq<string>,
    Required: bool,
    Multi: bool,
    MultiFormat: seq<string>,  // any of "comma", "newline", "space", "json"
    Helper: string,
    EnvName: string,           // explicit variable name; "" derives it from the key
    Export: bool,
    Value: seq<string>         // the values collected for the flag
  )

  /** The shell kind is a plain integer; four values are named. */
  type ShellType = int

  const ShellTypeAuto: ShellType := 0
  const ShellTypeSh: ShellType := 1
  const ShellTypePowershell: ShellType := 2
  const ShellTypeCmd: ShellType := 3

  /** The bound command. A flag entry of None stands for a nil *FlagSpec. */
  datatype CmdSpec = CmdSpec(
    Name: string,
    ShortDesc: string,
    LongDesc: string,
    Interactive: bool,
    EnvPrefix: string,
    Flags: map<string, Option<FlagSpec>>,
    Debug: bool,
    ArgsRange: IntRange,
    ArgsChoices: seq<seq<string>>,
    ArgsValue: seq<string>,
    ShellType: ShellType,
    HelpVar: string,
    HelpExport: bool
  )
}
