/** A printer for command lines: what parses, and to what. */
module ArgvLaws {
  import opened Wrappers
  import opened Sequences
  import opened Strings
  import opened ArgvParser

  /** One element of a command line. `joined` tells `--k=v` from `--k v`. */
  datatype Item =
    | Flag(name: string, ignored: Option<string>)
    | Opt(key: string, value: string, joined: bool)
    | Param(key: string, value: string, joined: bool)
    | Pos(text: string)

  ghost predicate Proper(isFlag: FlagTest, item: Item) {
    match item
    case Flag(name, _) => isFlag(name) && '=' !in name
    case Opt(key, _, joined) => !isFlag(key) && key != PARAM && '=' !in key && (joined || key != "")
    case Param(key, _, _) => '=' !in key
    case Pos(text) => !("--" <= text)
  }

  function PrintItem(item: Item): (r: seq<string>)
    ensures r != []
  {
    match item
    case Flag(name, None) => ["--" + name]
    case Flag(name, Some(v)) => ["--" + name + "=" + v]
    case Opt(key, value, joined) => if joined then ["--" + key + "=" + value] else ["--" + key, value]
    case Param(key, value, joined) =>
      if joined then ["--" + PARAM + "=" + (key + "=" + value)] else ["--" + PARAM, key + "=" + value]
    case Pos(text) => [text]
  }

  function PrintItems(items: seq<Item>): seq<string> {
    if items == [] then [] else PrintItem(items[0]) + PrintItems(items[1..])
  }

  /** A whole command line: its items and, after a bare `--`, anything at all. */
  function Print(items: seq<Item>, tail: Option<seq<string>>): seq<string> {
    PrintItems(items) + if tail.Some? then ["--"] + tail.value else []
  }

  function Apply(item: Item, acc: ParsedArgs): ParsedArgs {
    match item
    case Flag(name, _) => acc.(flags := acc.flags + {name})
    case Opt(key, value, _) => acc.(options := acc.options[key := value])
    case Param(key, value, _) => acc.(params := SetParam(acc.params, key, value))
    case Pos(text) => acc.(positional := acc.positional + [text])
  }

  function ApplyAll(items: seq<Item>, acc: ParsedArgs): ParsedArgs
    decreases |items|
  {
    if items == [] then acc else ApplyAll(items[1..], Apply(items[0], acc))
  }

  function Meaning(items: seq<Item>, tail: Option<seq<string>>): ParsedArgs {
    var all := ApplyAll(items, EMPTY);
    if tail.Some? then all.(positional := all.positional + tail.value) else all
  }

  // ----- Printing, then parsing -----

  lemma SplitJoined(key: string, value: string)
    requires '=' !in key
    ensures IndexOf(key + "=" + value, '=') == Some(|key|)
    ensures (key + "=" + value)[..|key|] == key && (key + "=" + value)[|key| + 1..] == value
  {
    var s := key + "=" + value;
    assert s[..|key|] == key;
    IndexOfIs(s, '=', |key|);
  }

  lemma AfterDashes(s: string)
    ensures "--" <= "--" + s && ("--" + s)[2..] == s
    ensures s != "" ==> "--" + s != "--"
  {
    if s != "" {
      assert |"--" + s| > 2;
    }
  }

  lemma LongJoined(isFlag: FlagTest, key: string, value: string, next: Option<string>, acc: ParsedArgs)
    requires '=' !in key
    ensures Long(isFlag, "--" + key + "=" + value, next, acc) ==
            if isFlag(key) then Some((acc.(flags := acc.flags + {key}), false))
            else if key != PARAM then Some((acc.(options := acc.options[key := value]), false))
            else
              match IndexOf(value, '=')
              case None => None
              case Some(k) => Some((acc.(params := SetParam(acc.params, value[..k], value[k + 1..])), false))
  {
    var s := key + "=" + value;
    Assoc("--", key, "=");
    Assoc("--", key + "=", value);
    AfterDashes(s);
    SplitJoined(key, value);
    LongSplit(isFlag, "--" + s, |key|, next, acc);
  }

  lemma LongSplit(isFlag: FlagTest, a: string, k: nat, next: Option<string>, acc: ParsedArgs)
    requires |a| >= 2 && IndexOf(a[2..], '=') == Some(k)
    ensures var key, value := a[2..][..k], a[2..][k + 1..];
            Long(isFlag, a, next, acc) ==
            if isFlag(key) then Some((acc.(flags := acc.flags + {key}), false))
            else if key != PARAM then Some((acc.(options := acc.options[key := value]), false))
            else
              match IndexOf(value, '=')
              case None => None
              case Some(j) => Some((acc.(params := SetParam(acc.params, value[..j], value[j + 1..])), false))
  {
  }

  lemma LongSpaced(isFlag: FlagTest, key: string, value: string, acc: ParsedArgs)
    requires '=' !in key
    ensures Long(isFlag, "--" + key, Some(value), acc) ==
            if isFlag(key) then Some((acc.(flags := acc.flags + {key}), false))
            else if key != PARAM then Some((acc.(options := acc.options[key := value]), true))
            else
              match IndexOf(value, '=')
              case None => None
              case Some(k) => Some((acc.(params := SetParam(acc.params, value[..k], value[k + 1..])), true))
  {
    AfterDashes(key);
  }

  lemma ParseOne(isFlag: FlagTest, a: string, rest: seq<string>, acc: ParsedArgs, after: ParsedArgs)
    requires "--" <= a && a != "--"
    requires Long(isFlag, a, if rest == [] then None else Some(rest[0]), acc) == Some((after, false))
    ensures ParseFrom(isFlag, [a] + rest, acc) == ParseFrom(isFlag, rest, after)
  {
    var argv := [a] + rest;
    assert argv[1..] == rest;
    assert rest != [] ==> argv[1] == rest[0];
  }

  lemma ParseTwo(isFlag: FlagTest, a: string, v: string, rest: seq<string>, acc: ParsedArgs, after: ParsedArgs)
    requires "--" <= a && a != "--" && Long(isFlag, a, Some(v), acc) == Some((after, true))
    ensures ParseFrom(isFlag, [a, v] + rest, acc) == ParseFrom(isFlag, rest, after)
  {
    assert ([a, v] + rest)[2..] == rest;
  }

  lemma DashedName(name: string, value: string)
    ensures "--" <= "--" + name + "=" + value && "--" + name + "=" + value != "--"
  {
    assert |"--" + name + "=" + value| > 2;
  }

  lemma ParseItem(isFlag: FlagTest, item: Item, rest: seq<string>, acc: ParsedArgs)
    requires Proper(isFlag, item) && !isFlag(PARAM) && !isFlag("") && '=' !in PARAM
    ensures ParseFrom(isFlag, PrintItem(item) + rest, acc) == ParseFrom(isFlag, rest, Apply(item, acc))
  {
    var after := Apply(item, acc);
    var next := if rest == [] then None else Some(rest[0]);
    match item
    case Flag(name, Some(v)) =>
      LongJoined(isFlag, name, v, next, acc);
      DashedName(name, v);
      ParseOne(isFlag, "--" + name + "=" + v, rest, acc, after);
    case Flag(name, None) =>
      AfterDashes(name);
      ParseOne(isFlag, "--" + name, rest, acc, after);
    case Opt(key, value, true) =>
      LongJoined(isFlag, key, value, next, acc);
      DashedName(key, value);
      ParseOne(isFlag, "--" + key + "=" + value, rest, acc, after);
    case Opt(key, value, false) =>
      LongSpaced(isFlag, key, value, acc);
      AfterDashes(key);
      ParseTwo(isFlag, "--" + key, value, rest, acc, after);
    case Param(key, value, joined) => ParseParam(isFlag, key, value, joined, rest, acc);
    case Pos(text) =>
      assert ([text] + rest)[1..] == rest;
      assert text != "--";
  }

  lemma ParseParam(isFlag: FlagTest, key: string, value: string, joined: bool, rest: seq<string>, acc: ParsedArgs)
    requires '=' !in key && !isFlag(PARAM) && '=' !in PARAM
    ensures ParseFrom(isFlag, PrintItem(Param(key, value, joined)) + rest, acc) ==
            ParseFrom(isFlag, rest, Apply(Param(key, value, joined), acc))
  {
    var pair := key + "=" + value;
    var after := Apply(Param(key, value, joined), acc);
    SplitJoined(key, value);
    if joined {
      LongJoined(isFlag, PARAM, pair, if rest == [] then None else Some(rest[0]), acc);
      DashedName(PARAM, pair);
      ParseOne(isFlag, "--" + PARAM + "=" + pair, rest, acc, after);
    } else {
      LongSpaced(isFlag, PARAM, pair, acc);
      AfterDashes(PARAM);
      ParseTwo(isFlag, "--" + PARAM, pair, rest, acc, after);
    }
  }

  /** Items in front of anything are parsed one by one, each as itself. */
  lemma {:induction false} ParseItems(isFlag: FlagTest, items: seq<Item>, rest: seq<string>, acc: ParsedArgs)
    requires (forall item :: item in items ==> Proper(isFlag, item)) && !isFlag(PARAM) && !isFlag("") && '=' !in PARAM
    ensures ParseFrom(isFlag, PrintItems(items) + rest, acc) == ParseFrom(isFlag, rest, ApplyAll(items, acc))
    decreases |items|
  {
    if items == [] {
      assert PrintItems(items) + rest == rest;
    } else {
      var tail := PrintItems(items[1..]) + rest;
      assert PrintItems(items) + rest == PrintItem(items[0]) + tail;
      ParseItem(isFlag, items[0], tail, acc);
      ParseItems(isFlag, items[1..], rest, Apply(items[0], acc));
    }
  }

  lemma RealTable()
    ensures !IsBooleanFlag(PARAM) && !IsBooleanFlag("") && '=' !in PARAM
  {
  }

  /** Parsing undoes printing: every list of proper items in any order, with anything after `--`, means itself; where a
      key is repeated the last value counts. */
  lemma ParsePrint(items: seq<Item>, tail: Option<seq<string>>)
    requires forall item :: item in items ==> Proper(IsBooleanFlag, item)
    ensures Parse(Print(items, tail)) == Ok(Meaning(items, tail))
  {
    RealTable();
    var rest := if tail.Some? then ["--"] + tail.value else [];
    ParseItems(IsBooleanFlag, items, rest, EMPTY);
    if tail.Some? {
      assert rest[1..] == tail.value;
    }
  }

  // ----- Nothing else parses -----

  lemma JoinAt(s: string, k: nat)
    requires IndexOf(s, '=') == Some(k)
    ensures s == s[..k] + "=" + s[k + 1..] && '=' !in s[..k]
  {
  }

  /** The item an accepted `--` argument with an equals sign is. */
  lemma JoinedItem(isFlag: FlagTest, a: string, k: nat, next: Option<string>, acc: ParsedArgs) returns (item: Item)
    requires "--" <= a && IndexOf(a[2..], '=') == Some(k) && Long(isFlag, a, next, acc).Some?
    ensures Proper(isFlag, item) && PrintItem(item) == [a]
    ensures Long(isFlag, a, next, acc) == Some((Apply(item, acc), false))
  {
    var key, value := a[2..][..k], a[2..][k + 1..];
    LongSplit(isFlag, a, k, next, acc);
    JoinAt(a[2..], k);
    assert a == "--" + a[2..] == "--" + key + "=" + value;
    if isFlag(key) {
      item := Flag(key, Some(value));
    } else if key != PARAM {
      item := Opt(key, value, true);
    } else {
      var j := IndexOf(value, '=').value;
      JoinAt(value, j);
      item := Param(value[..j], value[j + 1..], true);
    }
  }

  /** And one without. */
  lemma SpacedItem(isFlag: FlagTest, a: string, next: Option<string>, acc: ParsedArgs) returns (item: Item)
    requires "--" <= a && a != "--" && IndexOf(a[2..], '=') == None && Long(isFlag, a, next, acc).Some?
    ensures Proper(isFlag, item) && (!isFlag(a[2..]) ==> next.Some?)
    ensures PrintItem(item) == if isFlag(a[2..]) then [a] else [a, next.value]
    ensures Long(isFlag, a, next, acc) == Some((Apply(item, acc), !isFlag(a[2..])))
  {
    var key := a[2..];
    assert a == "--" + key;
    if isFlag(key) {
      item := Flag(key, None);
    } else if key != PARAM {
      item := Opt(key, next.value, false);
    } else {
      var j := IndexOf(next.value, '=').value;
      JoinAt(next.value, j);
      item := Param(next.value[..j], next.value[j + 1..], false);
    }
  }

  /** The first item of an accepted command line, and how many arguments it takes. */
  lemma FirstItem(isFlag: FlagTest, argv: seq<string>, acc: ParsedArgs) returns (item: Item, n: nat)
    requires argv != [] && argv[0] != "--" && ParseFrom(isFlag, argv, acc).Ok?
    ensures 1 <= n <= |argv| && Proper(isFlag, item) && PrintItem(item) == argv[..n]
    ensures ParseFrom(isFlag, argv, acc) == ParseFrom(isFlag, argv[n..], Apply(item, acc))
  {
    var a := argv[0];
    var next := if |argv| > 1 then Some(argv[1]) else None;
    if !("--" <= a) {
      item, n := Pos(a), 1;
    } else if IndexOf(a[2..], '=').Some? {
      item := JoinedItem(isFlag, a, IndexOf(a[2..], '=').value, next, acc);
      n := 1;
    } else {
      item := SpacedItem(isFlag, a, next, acc);
      n := if isFlag(a[2..]) then 1 else 2;
      assert n == 2 ==> argv[..2] == [a, argv[1]];
    }
    assert argv[..1] == [a];
  }

  lemma PrintCons(item: Item, items: seq<Item>, tail: Option<seq<string>>)
    ensures Print([item] + items, tail) == PrintItem(item) + Print(items, tail)
  {
    assert ([item] + items)[1..] == items;
  }

  /** Every accepted command line is a printed one. */
  lemma {:induction false} ParsedIsPrinted(isFlag: FlagTest, argv: seq<string>, acc: ParsedArgs)
    returns (items: seq<Item>, tail: Option<seq<string>>)
    requires ParseFrom(isFlag, argv, acc).Ok?
    ensures forall item :: item in items ==> Proper(isFlag, item)
    ensures argv == Print(items, tail)
    decreases |argv|
  {
    if argv == [] {
      items, tail := [], None;
    } else if argv[0] == "--" {
      items, tail := [], Some(argv[1..]);
      assert argv == ["--"] + argv[1..];
    } else {
      var item, n := FirstItem(isFlag, argv, acc);
      items, tail := ParsedIsPrinted(isFlag, argv[n..], Apply(item, acc));
      PrintCons(item, items, tail);
      items := [item] + items;
      assert argv == argv[..n] + argv[n..];
    }
  }

  /** The command lines accepted are exactly the printed ones. */
  lemma ParsesExactly(argv: seq<string>)
    ensures Parse(argv).Ok? <==>
            exists items, tail ::
              (forall item :: item in items ==> Proper(IsBooleanFlag, item)) && argv == Print(items, tail)
  {
    if Parse(argv).Ok? {
      var items, tail := ParsedIsPrinted(IsBooleanFlag, argv, EMPTY);
    }
    if items, tail :|
      (forall item :: item in items ==> Proper(IsBooleanFlag, item)) && argv == Print(items, tail)
    {
      ParsePrint(items, tail);
    }
  }

  /** `--k v` and `--k=v` mean the same wherever an item may stand, for every key that is no flag and every value. */
  lemma JoinedOrSpaced(before: seq<Item>, key: string, value: string, rest: seq<string>)
    requires forall item :: item in before ==> Proper(IsBooleanFlag, item)
    requires !IsBooleanFlag(key) && key != PARAM && '=' !in key && key != ""
    ensures Parse(PrintItems(before) + (["--" + key, value] + rest)) ==
            Parse(PrintItems(before) + (["--" + key + "=" + value] + rest))
  {
    RealTable();
    var acc := ApplyAll(before, EMPTY);
    ParseItems(IsBooleanFlag, before, ["--" + key, value] + rest, EMPTY);
    ParseItems(IsBooleanFlag, before, ["--" + key + "=" + value] + rest, EMPTY);
    ParseItem(IsBooleanFlag, Opt(key, value, false), rest, acc);
    ParseItem(IsBooleanFlag, Opt(key, value, true), rest, acc);
  }

  lemma {:induction false} FlagsFromTable(isFlag: FlagTest, argv: seq<string>, acc: ParsedArgs)
    requires ParseFrom(isFlag, argv, acc).Ok? && forall f :: f in acc.flags ==> isFlag(f)
    ensures forall f :: f in ParseFrom(isFlag, argv, acc).args.flags ==> isFlag(f)
    decreases |argv|
  {
    if argv != [] && argv[0] != "--" {
      if "--" <= argv[0] {
        var (after, took) := Long(isFlag, argv[0], if |argv| > 1 then Some(argv[1]) else None, acc).value;
        FlagsFromTable(isFlag, argv[if took && |argv| > 1 then 2 else 1..], after);
      } else {
        FlagsFromTable(isFlag, argv[1..], acc.(positional := acc.positional + [argv[0]]));
      }
    }
  }

  /** An option that is no flag is an error at the end of the command line. */
  lemma ValueMissing(isFlag: FlagTest, key: string, acc: ParsedArgs)
    requires !isFlag(key) && key != "" && '=' !in key
    ensures ParseFrom(isFlag, ["--" + key], acc) == UsageError
  {
    AfterDashes(key);
  }

  lemma OptionTakesNext(isFlag: FlagTest, before: seq<Item>, key: string, value: string, rest: seq<string>)
    requires !isFlag(PARAM) && !isFlag("") && '=' !in PARAM && forall item :: item in before ==> Proper(isFlag, item)
    requires !isFlag(key) && key != PARAM && key != "" && '=' !in key
    ensures ParseFrom(isFlag, PrintItems(before) + ["--" + key], EMPTY) == UsageError
    ensures ParseFrom(isFlag, PrintItems(before) + (["--" + key, value] + rest), EMPTY) ==
            ParseFrom(isFlag, rest, Apply(Opt(key, value, false), ApplyAll(before, EMPTY)))
  {
    ParseItems(isFlag, before, ["--" + key], EMPTY);
    ValueMissing(isFlag, key, ApplyAll(before, EMPTY));
    ParseItems(isFlag, before, ["--" + key, value] + rest, EMPTY);
    ParseItem(isFlag, Opt(key, value, false), rest, ApplyAll(before, EMPTY));
  }

  /** No command line sets a flag outside the ten names: any other option takes the next argument as its value, and is
      an error at the end. */
  lemma OnlyTableFlags(argv: seq<string>, before: seq<Item>, key: string, value: string, rest: seq<string>)
    requires forall item :: item in before ==> Proper(IsBooleanFlag, item)
    requires !IsBooleanFlag(key)
    ensures Parse(argv).Ok? ==> key !in Parse(argv).args.flags
    ensures key != PARAM && key != "" && '=' !in key ==>
              && Parse(PrintItems(before) + ["--" + key]) == UsageError
              && Parse(PrintItems(before) + (["--" + key, value] + rest)) ==
                 ParseFrom(IsBooleanFlag, rest, Apply(Opt(key, value, false), ApplyAll(before, EMPTY)))
  {
    RealTable();
    if Parse(argv).Ok? {
      FlagsFromTable(IsBooleanFlag, argv, EMPTY);
    }
    if key != PARAM && key != "" && '=' !in key {
      OptionTakesNext(IsBooleanFlag, before, key, value, rest);
    }
  }

  /** Flags the verbs look for that are not in the table. */
  const UNKNOWN_FLAGS: seq<string> := [
    "dry-run", "start", "no-wait", "no-ssl", "no-auto-approve", "include-revoked", "disable-loopback-bypass" ]

  lemma UnknownNames(key: string)
    requires key in UNKNOWN_FLAGS
    ensures !IsBooleanFlag(key)
  {
  }

  /** So none of them is ever set. */
  lemma UnknownFlagsNeverSet(argv: seq<string>, key: string)
    requires key in UNKNOWN_FLAGS
    ensures Parse(argv).Ok? ==> key !in Parse(argv).args.flags
  {
    UnknownNames(key);
    OnlyTableFlags(argv, [], key, "", []);
  }

  // ----- The names the parser knows -----

  lemma TableListed(name: string)
    ensures IsBooleanFlag(name) <==>
            name in {"bootstrap", "cleanup-on-failure", "follow", "force", "no-follow", "remote", "sign",
                     "skip-seed-iso", "wait-guest", "workflow"}
  {
  }

  lemma {:induction false} ApplyLast(items: seq<Item>, item: Item, acc: ParsedArgs)
    ensures ApplyAll(items + [item], acc) == Apply(item, ApplyAll(items, acc))
    decreases |items|
  {
    if items == [] {
      assert items + [item] == [item] && [item][1..] == [];
    } else {
      assert (items + [item])[1..] == items[1..] + [item];
      ApplyLast(items[1..], item, Apply(items[0], acc));
    }
  }

  lemma {:induction false} PrintLast(items: seq<Item>, item: Item)
    ensures PrintItems(items + [item]) == PrintItems(items) + PrintItem(item)
  {
    if items == [] {
      assert items + [item] == [item] && [item][1..] == [];
      assert PrintItems([item]) == PrintItem(item) + [];
    } else {
      assert (items + [item])[0] == items[0] && (items + [item])[1..] == items[1..] + [item];
      PrintLast(items[1..], item);
      Assoc(PrintItem(items[0]), PrintItems(items[1..]), PrintItem(item));
    }
  }

  lemma LastItem(items: seq<Item>, item: Item)
    requires Proper(IsBooleanFlag, item) && forall i :: i in items ==> Proper(IsBooleanFlag, i)
    ensures Parse(PrintItems(items) + PrintItem(item)) == Ok(Apply(item, Meaning(items, None)))
  {
    PrintLast(items, item);
    assert Print(items + [item], None) == PrintItems(items + [item]);
    ParsePrint(items + [item], None);
    ApplyLast(items, item, EMPTY);
  }

  lemma NamesPlain(name: string)
    requires IsBooleanFlag(name)
    ensures '=' !in name
  {
  }

  /** A flag of the table is set, whatever came before it, and nothing else changes. */
  lemma FlagSet(items: seq<Item>, name: string)
    requires forall i :: i in items ==> Proper(IsBooleanFlag, i)
    requires name in {"bootstrap", "cleanup-on-failure", "follow", "force", "no-follow", "remote", "sign",
                      "skip-seed-iso", "wait-guest", "workflow"}
    ensures var before := Meaning(items, None);
            Parse(PrintItems(items) + ["--" + name]) == Ok(before.(flags := before.flags + {name}))
  {
    TableListed(name);
    NamesPlain(name);
    LastItem(items, Flag(name, None));
  }

  /** `--param` sets a parameter, whatever came before it, but for one name that a plain object does not take. */
  lemma ParamSet(items: seq<Item>, key: string, value: string)
    requires '=' !in key && forall i :: i in items ==> Proper(IsBooleanFlag, i)
    ensures var before := Meaning(items, None);
            Parse(PrintItems(items) + ["--" + "param", key + "=" + value]) ==
            Ok(if key == "__proto__" then before else before.(params := before.params[key := value]))
  {
    LastItem(items, Param(key, value, false));
  }

}
