/** The command line parser of host/src/cli.ts. */
module ArgvParser {
  import opened Wrappers
  import opened Strings

  datatype ParsedArgs = ParsedArgs(
    positional: seq<string>, flags: set<string>, options: map<string, string>, params: map<string, string>)

  datatype Result = Ok(args: ParsedArgs) | UsageError

  const PARAM := "param"
  const PROTO := "__proto__"
  const EMPTY := ParsedArgs([], {}, map[], map[])

  predicate IsBooleanFlag(key: string) {
    key in ["follow", "workflow", "no-follow", "force", "bootstrap", "cleanup-on-failure", "wait-guest", "remote",
            "sign", "skip-seed-iso"]
  }

  type FlagTest = string -> bool

  /** `params[key] = value` on a plain object; assigning a string to its prototype does nothing. */
  function SetParam(params: map<string, string>, key: string, value: string): map<string, string> {
    if key == PROTO then params else params[key := value]
  }

  /** What one `--` argument does: `next` is the argument after it, if any. The second component says whether `next` was
      its value. */
  function Long(isFlag: FlagTest, a: string, next: Option<string>, acc: ParsedArgs): (r: Option<(ParsedArgs, bool)>)
    requires |a| >= 2
  {
    var eq := IndexOf(a[2..], '=');
    var key := if eq.Some? then a[2..][..eq.value] else a[2..];
    var value: Option<string> := if eq.Some? then Some(a[2..][eq.value + 1..]) else next;
    if isFlag(key) then Some((acc.(flags := acc.flags + {key}), false))
    else if value.None? then None
    else if key == PARAM then
      match IndexOf(value.value, '=')
      case None => None
      case Some(k) =>
        Some((acc.(params := SetParam(acc.params, value.value[..k], value.value[k + 1..])), eq.None?))
    else Some((acc.(options := acc.options[key := value.value]), eq.None?))
  }

  function ParseFrom(isFlag: FlagTest, argv: seq<string>, acc: ParsedArgs): (r: Result)
    decreases |argv|
  {
    if argv == [] then Ok(acc)
    else if argv[0] == "--" then Ok(acc.(positional := acc.positional + argv[1..]))
    else if "--" <= argv[0] then
      match Long(isFlag, argv[0], if |argv| > 1 then Some(argv[1]) else None, acc)
      case None => UsageError
      case Some((acc', took)) =>
        if took && |argv| > 1 then ParseFrom(isFlag, argv[2..], acc') else ParseFrom(isFlag, argv[1..], acc')
    else ParseFrom(isFlag, argv[1..], acc.(positional := acc.positional + [argv[0]]))
  }

  function Parse(argv: seq<string>): (r: Result) { ParseFrom(IsBooleanFlag, argv, EMPTY) }

  lemma LongTakesOnlyGiven(isFlag: FlagTest, a: string, acc: ParsedArgs)
    requires |a| >= 2 && Long(isFlag, a, None, acc).Some?
    ensures !Long(isFlag, a, None, acc).value.1
  {
  }

  method ParseLoop(isFlag: FlagTest, argv: seq<string>) returns (r: Result)
    ensures r == ParseFrom(isFlag, argv, EMPTY)
  {
    var positional: seq<string> := [];
    var flags: set<string> := {};
    var options: map<string, string> := map[];
    var params: map<string, string> := map[];
    var i := 0;
    assert argv[0..] == argv;
    while i < |argv|
      invariant 0 <= i <= |argv|
      invariant ParseFrom(isFlag, argv[i..], ParsedArgs(positional, flags, options, params)) ==
                ParseFrom(isFlag, argv, EMPTY)
    {
      var a := argv[i];
      assert argv[i..][0] == a && argv[i..][1..] == argv[i + 1..];
      if a == "--" {
        return Ok(ParsedArgs(positional + argv[i + 1..], flags, options, params));
      }
      if "--" <= a {
        var next := if i + 1 < |argv| then Some(argv[i + 1]) else None;
        var acc := ParsedArgs(positional, flags, options, params);
        var done := Long(isFlag, a, next, acc);
        if done.None? {
          return UsageError;
        }
        var (acc', took) := done.value;
        positional, flags, options, params := acc'.positional, acc'.flags, acc'.options, acc'.params;
        if took {
          if next.None? {
            LongTakesOnlyGiven(isFlag, a, acc);
          }
          assert argv[i..][2..] == argv[i + 2..];
          i := i + 1;
        }
        i := i + 1;
      } else {
        positional := positional + [a];
        i := i + 1;
      }
    }
    r := Ok(ParsedArgs(positional, flags, options, params));
  }

  method ParseArgs(argv: seq<string>) returns (r: Result)
    ensures r == Parse(argv)
  {
    r := ParseLoop(IsBooleanFlag, argv);
  }
}
