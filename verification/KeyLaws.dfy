/** Printing key sequences so that they parse back. */
module KeyLaws {
  import opened Wrappers
  import opened Strings
  import opened KeySequence

  // ----- A printer for strokes -----

  predicate IsCharKey(vk: nat) { 0x30 <= vk <= 0x39 || 0x41 <= vk <= 0x5A }

  predicate IsFunctionKey(vk: nat) { 0x70 <= vk <= 0x87 }

  /** The keys a sequence can name. */
  predicate Supported(vk: nat) { vk == VK_RETURN || IsCharKey(vk) || IsFunctionKey(vk) || IsNamedKey(vk) }

  function Digit(n: nat): (c: char)
    requires n < 10
    ensures IsDigit(c) && c as int == 48 + n
  {
    (48 + n) as char
  }

  function KeyName(vk: nat): (name: string)
    requires IsNamedKey(vk) || IsFunctionKey(vk)
  {
    if vk >= 0x70 then
      var index := vk - 0x70 + 1;
      if index < 10 then ['F', Digit(index)] else ['F', Digit(index / 10), Digit(index % 10)]
    else if vk == 0x08 then "BS"
    else if vk == 0x09 then "TAB"
    else if vk == 0x13 then "PAUSE"
    else if vk == 0x1B then "ESC"
    else if vk == 0x20 then "SPACE"
    else if vk == 0x21 then "PGUP"
    else if vk == 0x22 then "PGDN"
    else if vk == 0x23 then "END"
    else if vk == 0x24 then "HOME"
    else if vk == 0x25 then "LEFT"
    else if vk == 0x26 then "UP"
    else if vk == 0x27 then "RIGHT"
    else if vk == 0x28 then "DOWN"
    else if vk == 0x2C then "PRTSC"
    else if vk == 0x2D then "INS"
    else if vk == 0x2E then "DEL"
    else if vk == 0x5B then "WIN"
    else if vk == 0x5C then "RWIN"
    else "APPS"
  }

  function KeyText(vk: nat): (t: string)
    requires Supported(vk)
    ensures t != "" && !IsWhite(t[0]) && !IsWhite(t[|t| - 1])
  {
    if IsCharKey(vk) then [vk as char]
    else if vk == VK_RETURN then "~"
    else "{" + KeyName(vk) + "}"
  }

  function When(b: bool, c: char): string { if b then [c] else "" }

  function ModifierText(m: Modifiers): string {
    When(m.ctrl, '^') + (When(m.shift, '+') + (When(m.alt, '%') + When(m.win, '#')))
  }

  function Print(strokes: seq<Stroke>): (t: string)
    requires forall st :: st in strokes ==> Supported(st.vk)
  {
    if strokes == [] then ""
    else ModifierText(strokes[0].modifiers) + (KeyText(strokes[0].vk) + Print(strokes[1..]))
  }

  // ----- Key names are recognized -----

  predicate IsUpperName(name: string) {
    name != "" && forall i :: 0 <= i < |name| ==> 'A' <= name[i] <= 'Z' || IsDigit(name[i])
  }

  lemma PlainName(name: string)
    requires IsUpperName(name)
    ensures Upper(Trim(name)) == name && '}' !in name
  {
    TrimFixed(name);
  }

  lemma NamedKeys1(vk: nat)
    requires IsNamedKey(vk) && vk < 0x1B
    ensures IsUpperName(KeyName(vk)) && KeyName(vk)[0] != 'F' && NamedKey(KeyName(vk)) == Some(vk)
  {
  }

  lemma NamedKeys2(vk: nat)
    requires IsNamedKey(vk) && 0x1B <= vk < 0x22
    ensures IsUpperName(KeyName(vk)) && KeyName(vk)[0] != 'F' && NamedKey(KeyName(vk)) == Some(vk)
  {
  }

  lemma NamedKeys3(vk: nat)
    requires IsNamedKey(vk) && 0x22 <= vk < 0x25
    ensures IsUpperName(KeyName(vk)) && KeyName(vk)[0] != 'F' && NamedKey(KeyName(vk)) == Some(vk)
  {
  }

  lemma NamedKeys4(vk: nat)
    requires IsNamedKey(vk) && 0x25 <= vk < 0x28
    ensures IsUpperName(KeyName(vk)) && KeyName(vk)[0] != 'F' && NamedKey(KeyName(vk)) == Some(vk)
  {
  }

  lemma NamedKeys5(vk: nat)
    requires IsNamedKey(vk) && 0x28 <= vk < 0x2D
    ensures IsUpperName(KeyName(vk)) && KeyName(vk)[0] != 'F' && NamedKey(KeyName(vk)) == Some(vk)
  {
  }

  lemma NamedKeys6(vk: nat)
    requires IsNamedKey(vk) && 0x2D <= vk < 0x5B
    ensures IsUpperName(KeyName(vk)) && KeyName(vk)[0] != 'F' && NamedKey(KeyName(vk)) == Some(vk)
  {
  }

  lemma NamedKeys7(vk: nat)
    requires IsNamedKey(vk) && 0x5B <= vk
    ensures IsUpperName(KeyName(vk)) && KeyName(vk)[0] != 'F' && NamedKey(KeyName(vk)) == Some(vk)
  {
  }

  lemma FunctionKeys(vk: nat)
    requires IsFunctionKey(vk)
    ensures IsUpperName(KeyName(vk)) && FunctionKey(KeyName(vk)) == Some(vk)
  {
    var index := vk - 0x70 + 1;
    var digits := KeyName(vk)[1..];
    if index < 10 {
      assert digits == [Digit(index)] && digits[..0] == "";
      assert DigitsValue(digits) == DigitsValue("") * 10 + index;
    } else {
      assert digits == [Digit(index / 10), Digit(index % 10)];
      assert digits[..1] == [Digit(index / 10)] && digits[..1][..0] == "";
      assert DigitsValue(digits[..1]) == DigitsValue("") * 10 + index / 10;
      assert DigitsValue(digits) == DigitsValue(digits[..1]) * 10 + index % 10;
    }
    assert digits[0] != '+';
    assert ParseU16(digits) == Some(index);
  }

  lemma NamedKeys(vk: nat)
    requires IsNamedKey(vk)
    ensures IsUpperName(KeyName(vk)) && KeyName(vk)[0] != 'F' && NamedKey(KeyName(vk)) == Some(vk)
  {
    if vk < 0x1B {
      NamedKeys1(vk);
    } else if vk < 0x22 {
      NamedKeys2(vk);
    } else if vk < 0x25 {
      NamedKeys3(vk);
    } else if vk < 0x28 {
      NamedKeys4(vk);
    } else if vk < 0x2D {
      NamedKeys5(vk);
    } else if vk < 0x5B {
      NamedKeys6(vk);
    } else {
      NamedKeys7(vk);
    }
  }

  lemma NameRecognized(vk: nat)
    requires IsNamedKey(vk) || IsFunctionKey(vk)
    ensures SpecialKey(KeyName(vk)) == Some(vk) && '}' !in KeyName(vk)
  {
    if IsFunctionKey(vk) {
      FunctionKeys(vk);
    } else {
      NamedKeys(vk);
    }
    PlainName(KeyName(vk));
  }

  // ----- Printing and parsing -----

  lemma ParseWhen(names: KeyNames, b: bool, c: char, m: Modifiers, rest: string)
    requires Latch(c, m).Some?
    ensures ParseFrom(names, When(b, c) + rest, m) == ParseFrom(names, rest, if b then Latch(c, m).value else m)
  {
    if b {
      assert ([c] + rest)[1..] == rest;
    } else {
      assert "" + rest == rest;
    }
  }

  /** Printed modifiers are latched for whatever follows them. */
  lemma ParseModifiers(names: KeyNames, m: Modifiers, rest: string)
    ensures ParseFrom(names, ModifierText(m) + rest, PLAIN) == ParseFrom(names, rest, m)
  {
    var win := When(m.win, '#');
    var alt := When(m.alt, '%');
    var shift := When(m.shift, '+');
    assert ModifierText(m) + rest == When(m.ctrl, '^') + (shift + (alt + (win + rest)));
    ParseWhen(names, m.ctrl, '^', PLAIN, shift + (alt + (win + rest)));
    var m1 := PLAIN.(ctrl := m.ctrl);
    ParseWhen(names, m.shift, '+', m1, alt + (win + rest));
    var m2 := m1.(shift := m.shift);
    ParseWhen(names, m.alt, '%', m2, win + rest);
    ParseWhen(names, m.win, '#', m2.(alt := m.alt), rest);
  }

  lemma ParseToken(names: KeyNames, token: string, vk: nat, m: Modifiers, rest: string)
    requires names(token) == Some(vk) && '}' !in token
    ensures ParseFrom(names, "{" + token + "}" + rest, m) == Then(Stroke(vk, m), ParseFrom(names, rest, PLAIN))
  {
    var s := "{" + token + "}" + rest;
    var k := |token|;
    assert s[1..] == token + ("}" + rest);
    assert s[1..][..k] == token && s[1..][k] == '}' && s[1..][k + 1..] == rest;
    IndexOfIs(s[1..], '}', k);
  }

  lemma ParseKey(vk: nat, m: Modifiers, rest: string)
    requires Supported(vk)
    ensures ParseFrom(SpecialKey, KeyText(vk) + rest, m) == Then(Stroke(vk, m), ParseFrom(SpecialKey, rest, PLAIN))
  {
    if IsCharKey(vk) || vk == VK_RETURN {
      assert (KeyText(vk) + rest)[0] == KeyText(vk)[0] && (KeyText(vk) + rest)[1..] == rest;
    } else {
      NameRecognized(vk);
      ParseToken(SpecialKey, KeyName(vk), vk, m, rest);
    }
  }

  lemma {:induction false} ParsePrinted(strokes: seq<Stroke>)
    requires forall st :: st in strokes ==> Supported(st.vk)
    ensures ParseFrom(SpecialKey, Print(strokes), PLAIN) == Some(strokes)
  {
    if strokes != [] {
      var st, rest := strokes[0], Print(strokes[1..]);
      ParsePrinted(strokes[1..]);
      ParseModifiers(SpecialKey, st.modifiers, KeyText(st.vk) + rest);
      ParseKey(st.vk, st.modifiers, rest);
      assert strokes == [st] + strokes[1..];
    }
  }

  ghost predicate NoWhiteEnds(t: string) { t != "" && !IsWhite(t[0]) && !IsWhite(t[|t| - 1]) }

  lemma JoinedEnds(m: string, k: string, rest: string)
    requires (m != "" ==> !IsWhite(m[0])) && NoWhiteEnds(k) && (rest != "" ==> NoWhiteEnds(rest))
    ensures NoWhiteEnds(m + (k + rest))
  {
    var t := m + (k + rest);
    assert t[0] == if m != "" then m[0] else k[0];
    assert t[|t| - 1] == if rest != "" then rest[|rest| - 1] else k[|k| - 1];
  }

  lemma ModifierStart(m: Modifiers)
    ensures var t := ModifierText(m); t != "" ==> !IsWhite(t[0])
  {
  }

  lemma {:induction false} PrintedEnds(strokes: seq<Stroke>)
    requires strokes != [] && forall st :: st in strokes ==> Supported(st.vk)
    ensures NoWhiteEnds(Print(strokes))
  {
    var st, rest := strokes[0], strokes[1..];
    assert st in strokes;
    ModifierStart(st.modifiers);
    if rest != [] {
      PrintedEnds(rest);
    }
    JoinedEnds(ModifierText(st.modifiers), KeyText(st.vk), Print(rest));
  }

  /** Printing any non-empty list of supported strokes and parsing it gives the list back: each stroke with exactly its
      own modifiers. */
  lemma PrintParse(strokes: seq<Stroke>)
    requires strokes != [] && forall st :: st in strokes ==> Supported(st.vk)
    ensures Parse(Print(strokes)) == Some(strokes)
  {
    ParsePrinted(strokes);
    PrintedEnds(strokes);
    TrimFixed(Print(strokes));
  }

  lemma SpecialSupported(token: string)
    requires SpecialKey(token).Some?
    ensures Supported(SpecialKey(token).value)
  {
  }

  lemma {:induction false} ParsedSupported(names: KeyNames, s: string, m: Modifiers)
    requires forall t :: names(t).Some? ==> Supported(names(t).value)
    requires ParseFrom(names, s, m).Some?
    ensures forall st :: st in ParseFrom(names, s, m).value ==> Supported(st.vk)
    ensures s != "" || m != PLAIN ==> ParseFrom(names, s, m).value != []
    decreases |s|
  {
    if s != "" {
      if Latch(s[0], m).Some? {
        ParsedSupported(names, s[1..], Latch(s[0], m).value);
      } else if s[0] == '{' {
        var k := IndexOf(s[1..], '}').value;
        ParsedSupported(names, s[1..][k + 1..], PLAIN);
      } else {
        ParsedSupported(names, s[1..], PLAIN);
      }
    }
  }

  /** What a sequence parses to is non-empty and supported, so printing it is a normal form of the sequence. */
  lemma ParsePrint(keys: string)
    requires Parse(keys).Some?
    ensures var strokes := Parse(keys).value;
            && strokes != [] && (forall st :: st in strokes ==> Supported(st.vk))
            && Parse(Print(strokes)) == Some(strokes)
  {
    forall t | SpecialKey(t).Some?
      ensures Supported(SpecialKey(t).value)
    {
      SpecialSupported(t);
    }
    ParsedSupported(SpecialKey, Trim(keys), PLAIN);
    PrintParse(Parse(keys).value);
  }
}
