/**
 * The flag scanner `parse_command_line` (colorizer.py:111-131). It walks the argument list left to
 * right: `-f/--file`, `-r/--rules` and `-c/--colors` take the next argument as their value, `-h/--help`
 * stops with the usage message, and every other argument is skipped. The scan does not look at
 * what it takes as a value, so `-f -h` sets the file to `-h`.
 */
module CommandLine {
  import opened Wrappers

  /** The three file names the scan returns, `""` when not given. */
  datatype Settings = Settings(file: string, rules: string, colors: string)

  /**
   * The result of a scan: the settings; the usage message and exit of `print_usage_and_exit`; or the
   * `IndexError` of reading the value of a flag that is the last argument.
   */
  datatype Parsed = Options(settings: Settings) | Help | IndexError

  /** What an argument means when the scan reaches it in flag position. */
  datatype Flag = FileFlag | RulesFlag | ColorsFlag | HelpFlag | Other

  function Classify(arg: string): Flag {
    if arg == "-f" || arg == "--file" then FileFlag
    else if arg == "-r" || arg == "--rules" then RulesFlag
    else if arg == "-c" || arg == "--colors" then ColorsFlag
    else if arg == "-h" || arg == "--help" then HelpFlag
    else Other
  }

  predicate TakesValue(f: Flag) {
    f == FileFlag || f == RulesFlag || f == ColorsFlag
  }

  /** The settings with the field of the value flag `f` set to `value`. */
  function Set(s: Settings, f: Flag, value: string): Settings
    requires TakesValue(f)
  {
    match f
    case FileFlag => s.(file := value)
    case RulesFlag => s.(rules := value)
    case ColorsFlag => s.(colors := value)
  }

  /** The result of scanning the arguments `args` that remain, with the settings so far `acc`. */
  function Scan(args: seq<string>, acc: Settings): Parsed {
    if args == [] then Options(acc)
    else
      var f := Classify(args[0]);
      if f == HelpFlag then Help
      else if f == Other then Scan(args[1..], acc)
      else if |args| < 2 then IndexError
      else Scan(args[2..], Set(acc, f, args[1]))
  }

  /** The result of `parse_command_line(cmdLine)`. */
  function ParseFlags(cmdLine: seq<string>): Parsed {
    Scan(cmdLine, Settings("", "", ""))
  }

  /** `parse_command_line`: moves the cursor by two over a flag and its value, by one over anything else. */
  method ParseCommandLine(cmdLine: seq<string>) returns (r: Parsed)
    ensures r == ParseFlags(cmdLine)
  {
    var file, rules, colors := "", "", "";
    var index := 0;
    while index < |cmdLine|
      invariant index <= |cmdLine|
      invariant Scan(cmdLine[index..], Settings(file, rules, colors)) == ParseFlags(cmdLine)
      decreases |cmdLine| - index
    {
      assert cmdLine[index..][0] == cmdLine[index];
      if cmdLine[index] == "-f" || cmdLine[index] == "--file" {
        if index + 1 >= |cmdLine| {
          return IndexError;
        }
        assert cmdLine[index..][1] == cmdLine[index + 1] && cmdLine[index..][2..] == cmdLine[index + 2..];
        file := cmdLine[index + 1];
        index := index + 2;
      } else if cmdLine[index] == "-r" || cmdLine[index] == "--rules" {
        if index + 1 >= |cmdLine| {
          return IndexError;
        }
        assert cmdLine[index..][1] == cmdLine[index + 1] && cmdLine[index..][2..] == cmdLine[index + 2..];
        rules := cmdLine[index + 1];
        index := index + 2;
      } else if cmdLine[index] == "-c" || cmdLine[index] == "--colors" {
        if index + 1 >= |cmdLine| {
          return IndexError;
        }
        assert cmdLine[index..][1] == cmdLine[index + 1] && cmdLine[index..][2..] == cmdLine[index + 2..];
        colors := cmdLine[index + 1];
        index := index + 2;
      } else if cmdLine[index] == "-h" || cmdLine[index] == "--help" {
        return Help;
      } else {
        assert cmdLine[index..][1..] == cmdLine[index + 1..];
        index := index + 1;
      }
    }
    assert cmdLine[index..] == [];
    return Options(Settings(file, rules, colors));
  }

  // A reference description of argument lists that hold no help flag

  /** One item of an argument list: a value flag followed by its value, or a word the scan skips. */
  datatype Arg = Given(flag: string, value: string) | Bare(word: string)

  /** Every flag is a value flag and every skipped word is one the scan skips. */
  predicate WellFormed(args: seq<Arg>) {
    forall i :: 0 <= i < |args| ==>
      if args[i].Given? then TakesValue(Classify(args[i].flag)) else Classify(args[i].word) == Other
  }

  /** The argument list the items spell out. */
  function Words(args: seq<Arg>): seq<string> {
    if args == [] then []
    else match args[0]
      case Given(flag, value) => [flag, value] + Words(args[1..])
      case Bare(word) => [word] + Words(args[1..])
  }

  /** The value of the last item whose flag means `f`, if any. */
  function LastValue(args: seq<Arg>, f: Flag): Option<string> {
    if args == [] then None
    else
      var later := LastValue(args[1..], f);
      if later.Some? then later
      else if args[0].Given? && Classify(args[0].flag) == f then Some(args[0].value)
      else None
  }

  function OrElse(o: Option<string>, default: string): string {
    if o.Some? then o.value else default
  }

  /** The settings `acc` with each field replaced by the last value the items give it. */
  function Applied(acc: Settings, args: seq<Arg>): Settings {
    Settings(
      OrElse(LastValue(args, FileFlag), acc.file),
      OrElse(LastValue(args, RulesFlag), acc.rules),
      OrElse(LastValue(args, ColorsFlag), acc.colors))
  }

  /**
   * Scanning the words of well-formed items, then anything else, is scanning the rest with each
   * setting overwritten by the last value the items give it.
   */
  lemma {:induction false} ScanWords(args: seq<Arg>, rest: seq<string>, acc: Settings)
    requires WellFormed(args)
    ensures Scan(Words(args) + rest, acc) == Scan(rest, Applied(acc, args))
  {
    if args == [] {
      assert Words(args) + rest == rest;
    } else {
      assert WellFormed(args[1..]) by {
        forall i | 0 <= i < |args[1..]| ensures args[1..][i] == args[i + 1] { }
      }
      var tail := Words(args[1..]) + rest;
      match args[0]
      case Given(flag, value) =>
        assert Words(args) + rest == [flag, value] + tail;
        ScanGiven(flag, value, tail, acc);
        ScanWords(args[1..], rest, Set(acc, Classify(flag), value));
        AppliedGiven(args, acc);
      case Bare(word) =>
        assert Words(args) + rest == [word] + tail;
        ScanBare(word, tail, acc);
        ScanWords(args[1..], rest, acc);
    }
  }

  lemma ScanGiven(flag: string, value: string, rest: seq<string>, acc: Settings)
    requires TakesValue(Classify(flag))
    ensures Scan([flag, value] + rest, acc) == Scan(rest, Set(acc, Classify(flag), value))
  {
    assert ([flag, value] + rest)[2..] == rest;
  }

  lemma ScanBare(word: string, rest: seq<string>, acc: Settings)
    requires Classify(word) == Other
    ensures Scan([word] + rest, acc) == Scan(rest, acc)
  {
    assert ([word] + rest)[1..] == rest;
  }

  lemma AppliedGiven(args: seq<Arg>, acc: Settings)
    requires args != [] && args[0].Given? && TakesValue(Classify(args[0].flag))
    ensures Applied(acc, args) == Applied(Set(acc, Classify(args[0].flag), args[0].value), args[1..])
  {
  }

  /**
   * An argument list without a help flag in flag position parses to the last value given to each
   * flag, `""` for a flag never given; every value is taken whatever it looks like.
   */
  lemma LastFlagWins(args: seq<Arg>)
    requires WellFormed(args)
    ensures ParseFlags(Words(args)) == Options(Settings(
      OrElse(LastValue(args, FileFlag), ""),
      OrElse(LastValue(args, RulesFlag), ""),
      OrElse(LastValue(args, ColorsFlag), "")))
  {
    ScanWords(args, [], Settings("", "", ""));
    assert Words(args) + [] == Words(args);
  }

  /** A value flag left in flag position as the last argument raises `IndexError`. */
  lemma TrailingFlagRaises(args: seq<Arg>, flag: string)
    requires WellFormed(args) && TakesValue(Classify(flag))
    ensures ParseFlags(Words(args) + [flag]) == IndexError
  {
    ScanWords(args, [flag], Settings("", "", ""));
  }

  /** A help flag reached in flag position ends the scan with the usage message, whatever follows it. */
  lemma HelpStopsTheScan(args: seq<Arg>, help: string, rest: seq<string>)
    requires WellFormed(args) && Classify(help) == HelpFlag
    ensures ParseFlags(Words(args) + ([help] + rest)) == Help
  {
    ScanWords(args, [help] + rest, Settings("", "", ""));
  }

  /** The program name is skipped, and `-h` taken as the value of `-f` is a file name, not a request for help. */
  lemma HelpAsValueExample()
    ensures ParseFlags(["colorize.py", "-f", "-h", "-c", "dark"]) == Options(Settings("-h", "", "dark"))
  {
    var args := [Bare("colorize.py"), Given("-f", "-h"), Given("-c", "dark")];
    assert Words(args) == ["colorize.py", "-f", "-h", "-c", "dark"];
    LastFlagWins(args);
  }
}
