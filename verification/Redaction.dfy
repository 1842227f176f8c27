/** Redacting credentials from argument vectors (`redact_credential_args`, guest/src/service.rs). */
module Redaction {
  import opened Wrappers
  import opened Sequences
  import opened Strings

  const REDACTED := "***REDACTED***"

  const CREDENTIAL_FLAGS: seq<string> := [
    "password", "passwd", "pass", "pwd", "secret", "token", "api-key", "api_key", "apikey", "auth", "auth-token",
    "auth_token", "credentials", "client-secret", "client_secret", "p", "u" ]

  /** What is left of a flag without its dashes; `None` for anything not starting with a dash. */
  function NormaliseFlag(arg: string): (r: Option<string>)
    ensures r.Some? ==> 1 <= |arg| - |r.value| <= 2 && r.value == arg[|arg| - |r.value|..]
  {
    if "--" <= arg then Some(arg[2..]) else if "-" <= arg then Some(arg[1..]) else None
  }

  predicate IsCredentialFlag(flag: string) {
    var name := match IndexOf(flag, '=') { case None => flag case Some(k) => flag[..k] };
    Lower(name) in CREDENTIAL_FLAGS
  }

  /** How one argument is treated: `head` is everything before the equals sign. */
  datatype Kind = WithValue(head: string) | NamesNext | Plain

  function Classify(isCredential: string -> bool, arg: string): (r: Kind) {
    match NormaliseFlag(arg)
    case None => Plain
    case Some(stripped) =>
      match IndexOf(stripped, '=')
      case Some(k) =>
        if isCredential(stripped[..k]) then WithValue(arg[..|arg| - |stripped|] + stripped[..k]) else Plain
      case None => if isCredential(stripped) then NamesNext else Plain
  }

  function RedactWith(isCredential: string -> bool, args: seq<string>): (out: seq<string>)
    ensures |out| == |args|
  {
    if args == [] then []
    else
      match Classify(isCredential, args[0])
      case WithValue(head) => [head + "=" + REDACTED] + RedactWith(isCredential, args[1..])
      case NamesNext =>
        if |args| == 1 then [args[0]] else [args[0], REDACTED] + RedactWith(isCredential, args[2..])
      case Plain => [args[0]] + RedactWith(isCredential, args[1..])
  }

  function Redact(args: seq<string>): (out: seq<string>) { RedactWith(IsCredentialFlag, args) }

  /** What the loop does with the argument at `i`: what it appends and how many arguments it passes. */
  lemma RedactStep(isCredential: string -> bool, args: seq<string>, i: nat, out: seq<string>)
    requires i < |args|
    ensures var rest := RedactWith(isCredential, args[i..]);
            match Classify(isCredential, args[i])
            case WithValue(head) =>
              out + rest == out + [head + "=" + REDACTED] + RedactWith(isCredential, args[i + 1..])
            case NamesNext =>
              if i + 1 == |args| then out + rest == out + [args[i]]
              else out + rest == out + [args[i], REDACTED] + RedactWith(isCredential, args[i + 2..])
            case Plain => out + rest == out + [args[i]] + RedactWith(isCredential, args[i + 1..])
  {
    assert args[i..][0] == args[i] && args[i..][1..] == args[i + 1..];
    if i + 1 < |args| {
      assert args[i..][2..] == args[i + 2..];
    }
  }

  method RedactLoop(isCredential: string -> bool, args: seq<string>) returns (out: seq<string>)
    ensures out == RedactWith(isCredential, args)
  {
    out := [];
    var i := 0;
    assert args[0..] == args;
    while i < |args|
      invariant 0 <= i <= |args|
      invariant out + RedactWith(isCredential, args[i..]) == RedactWith(isCredential, args)
    {
      RedactStep(isCredential, args, i, out);
      match Classify(isCredential, args[i])
      case WithValue(head) =>
        out := out + [head + "=" + REDACTED];
        i := i + 1;
      case NamesNext =>
        if i + 1 < |args| {
          out := out + [args[i], REDACTED];
          i := i + 2;
        } else {
          out := out + [args[i]];
          i := i + 1;
        }
      case Plain =>
        out := out + [args[i]];
        i := i + 1;
    }
    assert out + [] == out;
  }

  method RedactCredentialArgs(args: seq<string>) returns (out: seq<string>)
    ensures out == Redact(args)
  {
    out := RedactLoop(IsCredentialFlag, args);
  }

  // ----- What the output reveals -----

  lemma WithValueShape(isCredential: string -> bool, arg: string)
    requires Classify(isCredential, arg).WithValue? && !isCredential("")
    ensures var head := Classify(isCredential, arg).head;
            head + "=" <= arg && '=' !in head && |head| > 1 && head[0] == '-'
  {
    var stripped := NormaliseFlag(arg).value;
    var k := IndexOf(stripped, '=').value;
    var n := |arg| - |stripped|;
    var head := arg[..n] + stripped[..k];
    assert stripped[..k] != "";
    assert arg == arg[..n] + stripped;
    assert head == arg[..n + k] && arg[n + k] == '=';
    assert forall i :: 0 <= i < n ==> arg[i] == '-';
  }

  ghost predicate IsDashed(dashes: string, name: string) {
    name != "" && '=' !in name && (dashes == "--" || (dashes == "-" && name[0] != '-'))
  }

  lemma JoinedFlag(isCredential: string -> bool, dashes: string, name: string, value: string)
    requires IsDashed(dashes, name) && isCredential(name)
    ensures Classify(isCredential, dashes + (name + ("=" + value))) == WithValue(dashes + name)
  {
    var stripped := name + ("=" + value);
    var arg := dashes + stripped;
    assert stripped[0] == name[0] && arg[|dashes|] == name[0];
    assert NormaliseFlag(arg) == Some(stripped) && arg[..|dashes|] == dashes;
    assert stripped[..|name|] == name;
    IndexOfIs(stripped, '=', |name|);
  }

  /** `arg` is `head` with a value, `head` being a credential flag. */
  ghost predicate IsJoined(isCredential: string -> bool, arg: string, head: string) {
    head + "=" <= arg && IsFlag(isCredential, head)
  }

  /** `arg` is a credential flag without a value. */
  ghost predicate IsFlag(isCredential: string -> bool, arg: string) {
    exists dashes, name :: IsDashed(dashes, name) && isCredential(name) && arg == dashes + name
  }

  lemma FlagNamesNext(isCredential: string -> bool, dashes: string, name: string)
    requires IsDashed(dashes, name)
    ensures Classify(isCredential, dashes + name) == if isCredential(name) then NamesNext else Plain
  {
    var arg := dashes + name;
    assert arg[|dashes|] == name[0];
    assert NormaliseFlag(arg) == Some(name);
  }

  lemma NamesNextParts(isCredential: string -> bool, arg: string)
    requires Classify(isCredential, arg) == NamesNext && !isCredential("")
    ensures IsFlag(isCredential, arg)
  {
    var name := NormaliseFlag(arg).value;
    var dashes := arg[..|arg| - |name|];
    assert name != "" && arg == dashes + name && arg[|dashes|] == name[0];
    assert dashes == if |dashes| == 2 then "--" else "-";
    assert IsDashed(dashes, name);
  }

  lemma JoinedParts(isCredential: string -> bool, arg: string, head: string)
    requires IsJoined(isCredential, arg, head)
    ensures Classify(isCredential, arg) == WithValue(head)
  {
    var dashes, name :| IsDashed(dashes, name) && isCredential(name) && head == dashes + name;
    var value := arg[|head| + 1..];
    assert arg == head + "=" + value;
    Assoc(head, "=", value);
    Assoc(dashes, name, "=" + value);
    JoinedFlag(isCredential, dashes, name, value);
  }

  /** An argument names the next one, or carries a value, exactly when it has that shape with a credential's name. */
  lemma ClassifyExactly(isCredential: string -> bool, arg: string, head: string)
    requires !isCredential("")
    ensures Classify(isCredential, arg) == NamesNext <==> IsFlag(isCredential, arg)
    ensures Classify(isCredential, arg) == WithValue(head) <==> IsJoined(isCredential, arg, head)
  {
    if Classify(isCredential, arg) == NamesNext {
      NamesNextParts(isCredential, arg);
    }
    if IsFlag(isCredential, arg) {
      var dashes, name :| IsDashed(dashes, name) && isCredential(name) && arg == dashes + name;
      FlagNamesNext(isCredential, dashes, name);
    }
    if Classify(isCredential, arg) == WithValue(head) {
      var dashes, name := WithValueParts(isCredential, arg);
      WithValueShape(isCredential, arg);
      assert IsFlag(isCredential, head);
    }
    if IsJoined(isCredential, arg, head) {
      JoinedParts(isCredential, arg, head);
    }
  }

  lemma WithValueParts(isCredential: string -> bool, arg: string) returns (dashes: string, name: string)
    requires Classify(isCredential, arg).WithValue? && !isCredential("")
    ensures IsDashed(dashes, name) && isCredential(name) && Classify(isCredential, arg).head == dashes + name
  {
    var stripped := NormaliseFlag(arg).value;
    var n := |arg| - |stripped|;
    dashes, name := arg[..n], stripped[..IndexOf(stripped, '=').value];
    assert name != "";
    assert dashes == if n == 2 then "--" else "-";
    assert n == 1 ==> name[0] == arg[1];
  }

  /** Whatever the value, the same flag with the same name is recognized. */
  lemma WithValueAny(isCredential: string -> bool, arg: string, other: string)
    requires Classify(isCredential, arg).WithValue? && !isCredential("")
    requires Classify(isCredential, arg).head + "=" <= other
    ensures Classify(isCredential, other) == Classify(isCredential, arg)
  {
    var dashes, name := WithValueParts(isCredential, arg);
    var value := other[|dashes + name| + 1..];
    assert other == dashes + name + "=" + value;
    Assoc(dashes + name, "=", value);
    Assoc(dashes, name, "=" + value);
    JoinedFlag(isCredential, dashes, name, value);
  }

  /** `a` and `b` differ at most in credential values: after the equals sign of a credential flag, or in the whole
      argument after one. That argument may look like anything, a flag included. */
  ghost predicate SameButSecrets(isCredential: string -> bool, a: seq<string>, b: seq<string>)
    decreases |a|
  {
    if a == [] then b == []
    else
      && b != []
      && match Classify(isCredential, a[0])
         case WithValue(head) => head + "=" <= b[0] && SameButSecrets(isCredential, a[1..], b[1..])
         case NamesNext =>
           b[0] == a[0] && if |a| == 1 then |b| == 1 else |b| > 1 && SameButSecrets(isCredential, a[2..], b[2..])
         case Plain => b[0] == a[0] && SameButSecrets(isCredential, a[1..], b[1..])
  }

  lemma {:induction false} SecretsHidden(isCredential: string -> bool, a: seq<string>, b: seq<string>)
    requires SameButSecrets(isCredential, a, b) && !isCredential("")
    ensures RedactWith(isCredential, a) == RedactWith(isCredential, b)
    decreases |a|
  {
    if a != [] {
      match Classify(isCredential, a[0])
      case WithValue(head) =>
        WithValueAny(isCredential, a[0], b[0]);
        SecretsHidden(isCredential, a[1..], b[1..]);
      case NamesNext =>
        if |a| > 1 {
          SecretsHidden(isCredential, a[2..], b[2..]);
        }
      case Plain =>
        SecretsHidden(isCredential, a[1..], b[1..]);
    }
  }

  lemma SamePrintedKind(isCredential: string -> bool, x: string, y: string)
    requires !isCredential("")
    requires var p := Classify(isCredential, x);
             var q := Classify(isCredential, y);
             (if p.WithValue? then p.head + "=" + REDACTED else x) ==
             (if q.WithValue? then q.head + "=" + REDACTED else y)
    ensures Classify(isCredential, x) == Classify(isCredential, y)
    ensures !Classify(isCredential, x).WithValue? ==> x == y
    ensures Classify(isCredential, x).WithValue? ==> Classify(isCredential, x).head + "=" <= y
  {
    var p, q := Classify(isCredential, x), Classify(isCredential, y);
    if p.WithValue? {
      WithValueShape(isCredential, x);
      WithValueAny(isCredential, x, p.head + "=" + REDACTED);
    }
    if q.WithValue? {
      WithValueShape(isCredential, y);
      WithValueAny(isCredential, y, q.head + "=" + REDACTED);
    }
  }

  lemma {:induction false} RestShown(isCredential: string -> bool, a: seq<string>, b: seq<string>)
    requires RedactWith(isCredential, a) == RedactWith(isCredential, b) && !isCredential("")
    ensures SameButSecrets(isCredential, a, b)
    decreases |a|
  {
    var x, y := RedactWith(isCredential, a), RedactWith(isCredential, b);
    assert |a| == |x| == |y| == |b|;
    if a != [] {
      assert x[0] == y[0];
      SamePrintedKind(isCredential, a[0], b[0]);
      if Classify(isCredential, a[0]).NamesNext? {
        if |a| > 1 {
          assert x[2..] == RedactWith(isCredential, a[2..]) && y[2..] == RedactWith(isCredential, b[2..]);
          RestShown(isCredential, a[2..], b[2..]);
        }
      } else {
        assert x[1..] == RedactWith(isCredential, a[1..]) && y[1..] == RedactWith(isCredential, b[1..]);
        RestShown(isCredential, a[1..], b[1..]);
      }
    }
  }

  lemma EmptyNameIsNoCredential()
    ensures !IsCredentialFlag("")
  {
    assert Lower("") == "";
  }

  /** Two argument vectors are redacted alike exactly when they differ only in credential values: the output depends on
      everything else and on nothing of those. */
  lemma RedactionExact(a: seq<string>, b: seq<string>)
    ensures Redact(a) == Redact(b) <==> SameButSecrets(IsCredentialFlag, a, b)
  {
    EmptyNameIsNoCredential();
    if Redact(a) == Redact(b) {
      RestShown(IsCredentialFlag, a, b);
    }
    if SameButSecrets(IsCredentialFlag, a, b) {
      SecretsHidden(IsCredentialFlag, a, b);
    }
  }

  lemma {:induction false} RedactedIsSame(isCredential: string -> bool, a: seq<string>)
    requires !isCredential("")
    ensures SameButSecrets(isCredential, a, RedactWith(isCredential, a))
    decreases |a|
  {
    if a != [] {
      var out := RedactWith(isCredential, a);
      if Classify(isCredential, a[0]).NamesNext? {
        if |a| > 1 {
          assert out[2..] == RedactWith(isCredential, a[2..]);
          RedactedIsSame(isCredential, a[2..]);
        }
      } else {
        assert out[1..] == RedactWith(isCredential, a[1..]);
        RedactedIsSame(isCredential, a[1..]);
      }
    }
  }

  /** Redacting twice is redacting once. */
  lemma RedactIdempotent(args: seq<string>)
    ensures Redact(Redact(args)) == Redact(args)
  {
    EmptyNameIsNoCredential();
    RedactedIsSame(IsCredentialFlag, args);
    SecretsHidden(IsCredentialFlag, args, Redact(args));
  }

  /** The value after `-u` is redacted, though the flag itself is not. */
  lemma UserRedacted(value: string)
    ensures Redact(["-u", value]) == ["-u", REDACTED]
  {
    var args := ["-u", value];
    assert "-u"[1..] == "u" && IndexOf("u", '=') == None;
    assert Lower("u") == "u" && CREDENTIAL_FLAGS[16] == "u";
    assert IsCredentialFlag("u");
    assert Classify(IsCredentialFlag, args[0]) == NamesNext;
    assert args[2..] == [];
  }

  // ----- The names -----

  const CREDENTIAL_NAMES := {
    "p", "u", "pass", "passwd", "password", "pwd", "secret", "client-secret", "client_secret", "credentials", "token",
    "auth", "auth-token", "auth_token", "apikey", "api-key", "api_key"}

  predicate IsCredentialName(name: string) { Lower(name) in CREDENTIAL_NAMES }

  lemma NamesListed(name: string)
    requires '=' !in name
    ensures IsCredentialFlag(name) <==> IsCredentialName(name)
  {
  }

  lemma ValuesRedacted(
    isCredential: string -> bool, dashes: string, name: string, value: string, rest: seq<string>)
    requires IsDashed(dashes, name) && isCredential(name)
    ensures var out := RedactWith(isCredential, rest);
            && RedactWith(isCredential, [dashes + name, value] + rest) == [dashes + name, REDACTED] + out
            && RedactWith(isCredential, [dashes + (name + ("=" + value))] + rest) ==
               [dashes + name + "=" + REDACTED] + out
  {
    FlagNamesNext(isCredential, dashes, name);
    JoinedFlag(isCredential, dashes, name, value);
    assert ([dashes + name, value] + rest)[2..] == rest;
    assert ([dashes + (name + ("=" + value))] + rest)[1..] == rest;
  }

  /** The value of a flag with one of these names, in any case and with one dash or two, is replaced, whether it is the
      next argument or follows an equals sign. */
  lemma NamedValuesRedacted(dashes: string, name: string, value: string, rest: seq<string>)
    requires IsDashed(dashes, name) && IsCredentialName(name)
    ensures Redact([dashes + name, value] + rest) == [dashes + name, "***REDACTED***"] + Redact(rest)
    ensures Redact([dashes + (name + ("=" + value))] + rest) ==
            [dashes + name + "=" + "***REDACTED***"] + Redact(rest)
  {
    NamesListed(name);
    ValuesRedacted(IsCredentialFlag, dashes, name, value, rest);
  }
}
