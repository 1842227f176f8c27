/** Every way to write a key in a sequence: letters in either case, second names, function keys by number. */
module KeySpellings {
  import opened Wrappers
  import opened Strings
  import opened KeySequence
  import opened KeyLaws

  // ----- Case does not matter -----

  lemma UpperSlice(s: string, i: nat, j: nat)
    requires i <= j <= |s|
    ensures Upper(s)[i..j] == Upper(s[i..j])
  {
  }

  lemma WhiteUpper(c: char)
    ensures IsWhite(UpperChar(c)) == IsWhite(c)
  {
  }

  lemma {:induction false} TrimStartUpper(s: string)
    ensures TrimStart(Upper(s)) == Upper(TrimStart(s))
  {
    if s != "" {
      WhiteUpper(s[0]);
    }
    if s != "" && IsWhite(s[0]) {
      UpperSlice(s, 1, |s|);
      assert Upper(s)[1..] == Upper(s)[1..|s|] && s[1..] == s[1..|s|];
      TrimStartUpper(s[1..]);
    }
  }

  lemma {:induction false} TrimEndUpper(s: string)
    ensures TrimEnd(Upper(s)) == Upper(TrimEnd(s))
  {
    if s != "" {
      WhiteUpper(s[|s| - 1]);
    }
    if s != "" && IsWhite(s[|s| - 1]) {
      var n := |s| - 1;
      UpperSlice(s, 0, n);
      assert Upper(s)[..n] == Upper(s)[0..n] && s[..n] == s[0..n];
      TrimEndUpper(s[..n]);
    }
  }

  lemma TrimUpper(s: string)
    ensures Trim(Upper(s)) == Upper(Trim(s))
  {
    TrimStartUpper(s);
    TrimEndUpper(TrimStart(s));
  }

  lemma UpperTwice(s: string)
    ensures Upper(Upper(s)) == Upper(s)
  {
  }

  lemma NameUpper(token: string)
    ensures Upper(Trim(Upper(token))) == Upper(Trim(token))
  {
    TrimUpper(token);
    UpperTwice(Trim(token));
  }

  lemma SpecialUpper(token: string)
    ensures SpecialKey(Upper(token)) == SpecialKey(token)
  {
    NameUpper(token);
  }

  lemma SpecialCaseBlind()
    ensures CaseBlind(SpecialKey)
  {
    forall t, u | u == Upper(t)
      ensures SpecialKey(u) == SpecialKey(t)
    {
      SpecialUpper(t);
    }
  }

  lemma {:induction false} IndexOfUpper(s: string, c: char)
    requires !('A' <= c <= 'Z' || 'a' <= c <= 'z')
    ensures IndexOf(Upper(s), c) == IndexOf(s, c)
  {
    if s != "" {
      UpperSlice(s, 1, |s|);
      assert Upper(s)[1..] == Upper(s)[1..|s|] && s[1..] == s[1..|s|];
      IndexOfUpper(s[1..], c);
    }
  }

  lemma CharUpper(c: char, m: Modifiers)
    ensures CharKey(UpperChar(c)) == CharKey(c) && Latch(UpperChar(c), m) == Latch(c, m)
    ensures UpperChar(c) == '{' <==> c == '{'
  {
  }

  ghost predicate CaseBlind(names: KeyNames) { forall t, u :: u == Upper(t) ==> names(u) == names(t) }

  lemma TailUpper(s: string)
    requires s != ""
    ensures Upper(s)[0] == UpperChar(s[0]) && Upper(s)[1..] == Upper(s[1..])
  {
  }

  lemma {:induction false} ParseFromUpper(names: KeyNames, s: string, m: Modifiers)
    requires CaseBlind(names)
    ensures ParseFrom(names, Upper(s), m) == ParseFrom(names, s, m)
    decreases |s|, 1
  {
    if s != "" {
      CharUpper(s[0], m);
      TailUpper(s);
      if Latch(s[0], m).Some? {
        ParseFromUpper(names, s[1..], Latch(s[0], m).value);
      } else if s[0] == '{' {
        BracedUpper(names, s, m);
      } else {
        ParseFromUpper(names, s[1..], PLAIN);
      }
    }
  }

  lemma TokenUpper(rest: string, k: nat)
    requires k < |rest|
    ensures Upper(rest)[..k] == Upper(rest[..k]) && Upper(rest)[k + 1..] == Upper(rest[k + 1..])
  {
  }

  lemma {:induction false} BracedUpper(names: KeyNames, s: string, m: Modifiers)
    requires CaseBlind(names) && s != "" && s[0] == '{'
    ensures ParseFrom(names, Upper(s), m) == ParseFrom(names, s, m)
    decreases |s|, 0
  {
    var rest := s[1..];
    TailUpper(s);
    IndexOfUpper(rest, '}');
    if IndexOf(rest, '}').Some? {
      var k := IndexOf(rest, '}').value;
      TokenUpper(rest, k);
      ParseFromUpper(names, rest[k + 1..], PLAIN);
      assert names(Upper(rest[..k])) == names(rest[..k]);
    }
  }

  lemma ParseWithUpper(names: KeyNames, keys: string)
    requires CaseBlind(names)
    ensures ParseWith(names, Upper(keys)) == ParseWith(names, keys)
  {
    TrimUpper(keys);
    ParseFromUpper(names, Trim(keys), PLAIN);
  }

  /** A sequence means the same in capitals. */
  lemma CaseDoesNotMatter(keys: string)
    ensures Parse(Upper(keys)) == Parse(keys)
  {
    SpecialCaseBlind();
    ParseWithUpper(SpecialKey, keys);
  }

  /** A character outside braces stands for a key exactly when it is the key's text in either case, or is the space. */
  lemma CharsExactly(c: char, vk: nat)
    ensures CharKey(c) == Some(vk) <==> (Supported(vk) && KeyText(vk) == [UpperChar(c)]) || (c == ' ' && vk == 0x20)
  {
  }

  // ----- Second names -----

  /** The key for a name other than the one printed. */
  function SecondName(name: string): (r: Option<nat>) {
    match name
    case "ENTER" => Some(0x0D)
    case "ESCAPE" => Some(0x1B)
    case "BACKSPACE" => Some(0x08)
    case "DELETE" => Some(0x2E)
    case "INSERT" => Some(0x2D)
    case "PAGEUP" => Some(0x21)
    case "PRIOR" => Some(0x21)
    case "PAGEDOWN" => Some(0x22)
    case "NEXT" => Some(0x22)
    case "PRINTSCREEN" => Some(0x2C)
    case "SNAPSHOT" => Some(0x2C)
    case "BREAK" => Some(0x13)
    case "APPLICATION" => Some(0x5D)
    case "MENU" => Some(0x5D)
    case "LWIN" => Some(0x5B)
    case _ => None
  }

  lemma SecondNames1(name: string)
    requires name == "ENTER" || name == "ESCAPE" || name == "BACKSPACE"
    ensures IsUpperName(name) && name[0] != 'F' && NamedKey(name) == SecondName(name)
  {
  }

  lemma SecondNames2(name: string)
    requires name == "DELETE" || name == "INSERT"
    ensures IsUpperName(name) && name[0] != 'F' && NamedKey(name) == SecondName(name)
  {
  }

  lemma SecondNames3(name: string)
    requires name == "PAGEUP" || name == "PRIOR"
    ensures IsUpperName(name) && name[0] != 'F' && NamedKey(name) == SecondName(name)
  {
  }

  lemma SecondNames4(name: string)
    requires name == "PAGEDOWN" || name == "NEXT"
    ensures IsUpperName(name) && name[0] != 'F' && NamedKey(name) == SecondName(name)
  {
  }

  lemma SecondNames5(name: string)
    requires name == "PRINTSCREEN" || name == "SNAPSHOT"
    ensures IsUpperName(name) && name[0] != 'F' && NamedKey(name) == SecondName(name)
  {
  }

  lemma SecondNames6(name: string)
    requires name == "BREAK"
    ensures IsUpperName(name) && name[0] != 'F' && NamedKey(name) == SecondName(name)
  {
  }

  lemma SecondNames7(name: string)
    requires name == "APPLICATION"
    ensures IsUpperName(name) && name[0] != 'F' && NamedKey(name) == SecondName(name)
  {
  }

  lemma SecondNames8(name: string)
    requires name == "MENU"
    ensures IsUpperName(name) && name[0] != 'F' && NamedKey(name) == SecondName(name)
  {
  }

  lemma SecondNames9(name: string)
    requires name == "LWIN"
    ensures IsUpperName(name) && name[0] != 'F' && NamedKey(name) == SecondName(name)
  {
  }

  lemma SecondNames(name: string)
    requires SecondName(name).Some?
    ensures IsUpperName(name) && name[0] != 'F' && NamedKey(name) == SecondName(name)
  {
    match name
    case "ENTER" =>
      SecondNames1(name);
    case "ESCAPE" =>
      SecondNames1(name);
    case "BACKSPACE" =>
      SecondNames1(name);
    case "DELETE" =>
      SecondNames2(name);
    case "INSERT" =>
      SecondNames2(name);
    case "PAGEUP" =>
      SecondNames3(name);
    case "PRIOR" =>
      SecondNames3(name);
    case "PAGEDOWN" =>
      SecondNames4(name);
    case "NEXT" =>
      SecondNames4(name);
    case "PRINTSCREEN" =>
      SecondNames5(name);
    case "SNAPSHOT" =>
      SecondNames5(name);
    case "BREAK" =>
      SecondNames6(name);
    case "APPLICATION" =>
      SecondNames7(name);
    case "MENU" =>
      SecondNames8(name);
    case "LWIN" =>
      SecondNames9(name);
  }

  lemma NamesKnown1(name: string)
    requires NamedKey(name).Some? && |name| <= 3
    ensures var vk := NamedKey(name).value; SecondName(name).Some? || (IsNamedKey(vk) && name == KeyName(vk))
  {
  }

  lemma NamesKnown2(name: string)
    requires NamedKey(name).Some? && |name| == 4
    ensures var vk := NamedKey(name).value; SecondName(name).Some? || (IsNamedKey(vk) && name == KeyName(vk))
  {
  }

  lemma NamesKnown3(name: string)
    requires NamedKey(name).Some? && |name| > 4
    ensures var vk := NamedKey(name).value; SecondName(name).Some? || (IsNamedKey(vk) && name == KeyName(vk))
  {
  }

  // ----- Function keys by number -----

  function Zeros(n: nat): (s: string)
    ensures |s| == n && forall i :: 0 <= i < n ==> s[i] == '0'
  {
    seq(n, i => '0')
  }

  function Number(index: nat): (s: string)
    requires 1 <= index <= 24
    ensures s != "" && IsDigit(s[0])
  {
    if index < 10 then [Digit(index)] else [Digit(index / 10), Digit(index % 10)]
  }

  lemma {:induction false} LeadingZeros(n: nat, s: string)
    requires AllDigits(s)
    ensures AllDigits(Zeros(n) + s) && DigitsValue(Zeros(n) + s) == DigitsValue(s)
    decreases n + |s|
  {
    var t := Zeros(n) + s;
    if s != "" {
      LeadingZeros(n, s[..|s| - 1]);
      assert t[..|t| - 1] == Zeros(n) + s[..|s| - 1];
    } else if n > 0 {
      LeadingZeros(n - 1, "");
      assert t[..n - 1] == Zeros(n - 1) + "";
    }
  }

  lemma NumberValue(index: nat)
    requires 1 <= index <= 24
    ensures AllDigits(Number(index)) && DigitsValue(Number(index)) == index
  {
    var s := Number(index);
    assert s[..0] == "";
    if index >= 10 {
      var front := s[..1];
      assert front == [Digit(index / 10)] && front[..0] == "";
      assert DigitsValue(front) == DigitsValue("") * 10 + index / 10;
      assert DigitsValue(s) == DigitsValue(front) * 10 + index % 10;
    }
  }

  /** A number without leading zeros is at least as large as its length says. */
  lemma {:induction false} FirstDigitCounts(s: string)
    requires AllDigits(s) && s != "" && s[0] != '0'
    ensures DigitsValue(s) >= 1 && (|s| > 2 ==> DigitsValue(s) >= 100)
  {
    if |s| > 1 {
      FirstDigitCounts(s[..|s| - 1]);
      if |s| == 3 {
        assert s[..2][..1] == s[..1];
        FirstDigitCounts(s[..1]);
      }
    }
  }

  lemma {:induction false} WithoutZeros(s: string) returns (n: nat, rest: string)
    requires AllDigits(s)
    ensures s == Zeros(n) + rest && AllDigits(rest) && (rest != "" ==> rest[0] != '0')
  {
    if s != "" && s[0] == '0' {
      n, rest := WithoutZeros(s[1..]);
      n := n + 1;
      assert s == [s[0]] + s[1..];
    } else {
      n, rest := 0, s;
    }
  }

  lemma OneDigit(s: string)
    requires AllDigits(s) && |s| == 1
    ensures DigitsValue(s) < 10 && s == [Digit(DigitsValue(s))]
  {
    assert s[..0] == "";
  }

  lemma TwoDigits(s: string)
    requires AllDigits(s) && |s| == 2
    ensures DigitsValue(s) / 10 == DigitsValue(s[..1]) && s == s[..1] + [Digit(DigitsValue(s) % 10)]
  {
    OneDigit(s[..1]);
  }

  lemma SmallNumber(s: string)
    requires AllDigits(s) && (s != "" ==> s[0] != '0') && 1 <= DigitsValue(s) <= 24
    ensures s == Number(DigitsValue(s))
  {
    FirstDigitCounts(s);
    if |s| == 2 {
      TwoDigits(s);
      OneDigit(s[..1]);
      FirstDigitCounts(s[..1]);
    } else {
      OneDigit(s);
    }
  }

  /** The letter F, perhaps a plus sign, any zeros, and a number. */
  function FunctionName(index: nat, plus: bool, zeros: nat): string
    requires 1 <= index <= 24
  {
    "F" + Signed(plus, Zeros(zeros) + Number(index))
  }

  ghost predicate NamesFunction(name: string, index: nat) {
    1 <= index <= 24 && exists plus, zeros: nat :: name == FunctionName(index, plus, zeros)
  }

  function Signed(plus: bool, digits: string): string { (if plus then "+" else "") + digits }

  lemma ReadSigned(plus: bool, digits: string)
    requires AllDigits(digits) && digits != "" && DigitsValue(digits) <= 65535
    ensures ParseU16(Signed(plus, digits)) == Some(DigitsValue(digits))
  {
    var s := Signed(plus, digits);
    assert if plus then s[1..] == digits else s == digits;
  }

  lemma SplitSign(s: string) returns (plus: bool, digits: string)
    requires ParseU16(s).Some?
    ensures AllDigits(digits) && s == Signed(plus, digits) && ParseU16(s) == Some(DigitsValue(digits))
  {
    plus := s != "" && s[0] == '+';
    digits := if plus then s[1..] else s;
  }

  lemma IndexRead(index: nat, plus: bool, zeros: nat)
    requires 1 <= index <= 24
    ensures ParseU16(Signed(plus, Zeros(zeros) + Number(index))) == Some(index)
  {
    NumberValue(index);
    LeadingZeros(zeros, Number(index));
    ReadSigned(plus, Zeros(zeros) + Number(index));
  }

  lemma FunctionNameMeans(index: nat, plus: bool, zeros: nat)
    requires 1 <= index <= 24
    ensures FunctionKey(FunctionName(index, plus, zeros)) == Some(0x6F + index)
  {
    IndexRead(index, plus, zeros);
    var name, tail := FunctionName(index, plus, zeros), Signed(plus, Zeros(zeros) + Number(index));
    assert name[0] == 'F' && name[1..] == tail;
  }

  lemma DigitsOfIndex(digits: string) returns (zeros: nat)
    requires AllDigits(digits) && 1 <= DigitsValue(digits) <= 24
    ensures digits == Zeros(zeros) + Number(DigitsValue(digits))
  {
    var rest;
    zeros, rest := WithoutZeros(digits);
    LeadingZeros(zeros, rest);
    SmallNumber(rest);
  }

  lemma FunctionKeyParts(name: string)
    requires FunctionKey(name).Some?
    ensures name != "" && name[0] == 'F' && ParseU16(name[1..]).Some? && 1 <= ParseU16(name[1..]).value <= 24
    ensures FunctionKey(name) == Some(0x6F + ParseU16(name[1..]).value)
  {
  }

  lemma IndexDigits(s: string) returns (plus: bool, zeros: nat)
    requires ParseU16(s).Some? && 1 <= ParseU16(s).value <= 24
    ensures s == Signed(plus, Zeros(zeros) + Number(ParseU16(s).value))
  {
    var digits;
    plus, digits := SplitSign(s);
    zeros := DigitsOfIndex(digits);
  }

  lemma FunctionKeyNamed(name: string) returns (plus: bool, zeros: nat)
    requires FunctionKey(name).Some?
    ensures 0x70 <= FunctionKey(name).value <= 0x87
    ensures name == FunctionName(FunctionKey(name).value - 0x6F, plus, zeros)
  {
    FunctionKeyParts(name);
    plus, zeros := IndexDigits(name[1..]);
    assert name == "F" + name[1..];
  }

  /** A name stands for a function key exactly when it is an F with one of the numbers 1 to 24. */
  lemma FunctionKeysExactly(name: string, vk: nat)
    ensures FunctionKey(name) == Some(vk) <==> 0x6F < vk && NamesFunction(name, vk - 0x6F)
  {
    if FunctionKey(name) == Some(vk) {
      NamedByIndex(name);
    }
    if 0x6F < vk && NamesFunction(name, vk - 0x6F) {
      IndexedByName(name, vk - 0x6F);
    }
  }

  lemma NamedByIndex(name: string)
    requires FunctionKey(name).Some?
    ensures var vk := FunctionKey(name).value; 0x6F < vk && NamesFunction(name, vk - 0x6F)
  {
    var plus, zeros := FunctionKeyNamed(name);
  }

  lemma IndexedByName(name: string, index: nat)
    requires NamesFunction(name, index)
    ensures FunctionKey(name) == Some(0x6F + index)
  {
    var plus, zeros: nat :| name == FunctionName(index, plus, zeros);
    FunctionNameMeans(index, plus, zeros);
  }

  // ----- What a braced token means -----

  /** `name`, in capitals and trimmed, is a name of the key. */
  ghost predicate NameOf(name: string, vk: nat) {
    || (0x6F < vk && NamesFunction(name, vk - 0x6F)) || SecondName(name) == Some(vk)
    || (IsNamedKey(vk) && name == KeyName(vk))
  }

  lemma NamedByF(name: string)
    requires name != "" && name[0] == 'F'
    ensures NamedKey(name) == None
  {
  }

  lemma NamedExactly(name: string, vk: nat)
    ensures NamedKey(name) == Some(vk) <==> SecondName(name) == Some(vk) || (IsNamedKey(vk) && name == KeyName(vk))
  {
    if NamedKey(name).Some? {
      if |name| <= 3 {
        NamesKnown1(name);
      } else if |name| == 4 {
        NamesKnown2(name);
      } else {
        NamesKnown3(name);
      }
    }
    if SecondName(name).Some? {
      SecondNames(name);
    }
    if IsNamedKey(vk) && name == KeyName(vk) {
      NamedKeys(vk);
    }
  }

  lemma KeyNamedExactly(name: string, vk: nat)
    ensures (if FunctionKey(name).Some? then FunctionKey(name) else NamedKey(name)) == Some(vk) <==> NameOf(name, vk)
  {
    FunctionKeysExactly(name, vk);
    NamedExactly(name, vk);
    if FunctionKey(name).Some? {
      NamedByF(name);
    }
  }

  /** A token stands for a key exactly when, trimmed and in capitals, it is one of the key's names. */
  lemma TokensExactly(token: string, vk: nat)
    ensures SpecialKey(token) == Some(vk) <==> NameOf(Upper(Trim(token)), vk)
  {
    KeyNamedExactly(Upper(Trim(token)), vk);
  }

  /** Whatever name of a key stands between braces, and whatever modifiers are in front, the sequence means what it
      means with the key as printed. */
  lemma SpelledAlike(token: string, vk: nat, m: Modifiers, rest: string)
    requires NameOf(Upper(Trim(token)), vk) && '}' !in token
    ensures Supported(vk)
    ensures ParseFrom(SpecialKey, ModifierText(m) + ("{" + token + "}" + rest), PLAIN) ==
            ParseFrom(SpecialKey, ModifierText(m) + (KeyText(vk) + rest), PLAIN)
  {
    TokensExactly(token, vk);
    SpecialSupported(token);
    ParseModifiers(SpecialKey, m, "{" + token + "}" + rest);
    ParseToken(SpecialKey, token, vk, m, rest);
    ParseModifiers(SpecialKey, m, KeyText(vk) + rest);
    ParseKey(vk, m, rest);
  }
}
