/** Key sequences in SendKeys notation and their parser (guest/src/ui_sidecar.rs). */
module KeySequence {
  import opened Wrappers
  import opened Strings

  datatype Modifiers = Modifiers(ctrl: bool, shift: bool, alt: bool, win: bool)
  datatype Stroke = Stroke(vk: nat, modifiers: Modifiers)

  const PLAIN := Modifiers(false, false, false, false)
  const VK_RETURN := 0x0D
  const VK_SPACE := 0x20
  const VK_SHIFT := 0x10
  const VK_CONTROL := 0x11
  const VK_MENU := 0x12
  const VK_LWIN := 0x5B

  // ----- Key names -----

  /** `str::parse::<u16>`: an optional plus sign, then digits, not above 65535. */
  function ParseU16(s: string): (r: Option<nat>) {
    var digits := if s != "" && s[0] == '+' then s[1..] else s;
    if digits != "" && AllDigits(digits) && DigitsValue(digits) <= 65535 then Some(DigitsValue(digits)) else None
  }

  /** The keys a name can stand for, besides the return key and the function keys. */
  predicate IsNamedKey(vk: nat) {
    || vk == 0x08 || vk == 0x09 || vk == 0x13 || vk == 0x1B || 0x20 <= vk <= 0x28
    || 0x2C <= vk <= 0x2E || 0x5B <= vk <= 0x5D
  }

  function NamedKey(name: string): (r: Option<nat>)
    ensures r.Some? ==> r.value == VK_RETURN || IsNamedKey(r.value)
  {
    if name == "ESC" || name == "ESCAPE" then Some(0x1B)
    else if name == "ENTER" then Some(VK_RETURN)
    else if name == "TAB" then Some(0x09)
    else if name == "BACKSPACE" || name == "BS" then Some(0x08)
    else if name == "SPACE" then Some(VK_SPACE)
    else if name == "DELETE" || name == "DEL" then Some(0x2E)
    else if name == "INSERT" || name == "INS" then Some(0x2D)
    else if name == "HOME" then Some(0x24)
    else if name == "END" then Some(0x23)
    else if name == "PAGEUP" || name == "PGUP" || name == "PRIOR" then Some(0x21)
    else if name == "PAGEDOWN" || name == "PGDN" || name == "NEXT" then Some(0x22)
    else if name == "LEFT" then Some(0x25)
    else if name == "RIGHT" then Some(0x27)
    else if name == "UP" then Some(0x26)
    else if name == "DOWN" then Some(0x28)
    else if name == "PRINTSCREEN" || name == "PRTSC" || name == "SNAPSHOT" then Some(0x2C)
    else if name == "PAUSE" || name == "BREAK" then Some(0x13)
    else if name == "APPS" || name == "APPLICATION" || name == "MENU" then Some(0x5D)
    else if name == "WIN" || name == "LWIN" then Some(VK_LWIN)
    else if name == "RWIN" then Some(0x5C)
    else None
  }

  function FunctionKey(name: string): (r: Option<nat>) {
    if name == "" || name[0] != 'F' then None
    else
      match ParseU16(name[1..])
      case None => None
      case Some(index) => if 1 <= index <= 24 then Some(0x70 + index - 1) else None
  }

  function SpecialKey(token: string): (r: Option<nat>) {
    var name := Upper(Trim(token));
    if FunctionKey(name).Some? then FunctionKey(name) else NamedKey(name)
  }

  // ----- Parsing -----

  /** The modifier a prefix character latches. */
  function Latch(c: char, m: Modifiers): (r: Option<Modifiers>) {
    if c == '^' then Some(m.(ctrl := true))
    else if c == '+' then Some(m.(shift := true))
    else if c == '%' then Some(m.(alt := true))
    else if c == '#' then Some(m.(win := true))
    else None
  }

  /** The key a single character stands for. */
  function CharKey(c: char): (r: Option<nat>) {
    if c == '~' then Some(VK_RETURN)
    else if c == ' ' then Some(VK_SPACE)
    else if IsAlphanumeric(c) then Some(UpperChar(c) as int)
    else None
  }

  function Then(stroke: Stroke, rest: Option<seq<Stroke>>): Option<seq<Stroke>> {
    if rest.Some? then Some([stroke] + rest.value) else None
  }

  type KeyNames = string -> Option<nat>

  /** The strokes in `s` with `m` latched at its start; `names` gives the key for a braced token. */
  function ParseFrom(names: KeyNames, s: string, m: Modifiers): (r: Option<seq<Stroke>>)
    decreases |s|
  {
    if s == "" then if m == PLAIN then Some([]) else None
    else if Latch(s[0], m).Some? then ParseFrom(names, s[1..], Latch(s[0], m).value)
    else if s[0] == '{' then
      match IndexOf(s[1..], '}')
      case None => None
      case Some(k) =>
        match names(s[1..][..k])
        case None => None
        case Some(vk) => Then(Stroke(vk, m), ParseFrom(names, s[1..][k + 1..], PLAIN))
    else
      match CharKey(s[0])
      case None => None
      case Some(vk) => Then(Stroke(vk, m), ParseFrom(names, s[1..], PLAIN))
  }

  function ParseWith(names: KeyNames, keys: string): (r: Option<seq<Stroke>>) {
    if Trim(keys) == "" then None else ParseFrom(names, Trim(keys), PLAIN)
  }

  /** `parse_native_key_sequence`; `None` is the unsupported-sequence error. */
  function Parse(keys: string): (r: Option<seq<Stroke>>) { ParseWith(SpecialKey, keys) }

  function Prefix(done: seq<Stroke>, rest: Option<seq<Stroke>>): Option<seq<Stroke>> {
    if rest.Some? then Some(done + rest.value) else None
  }

  lemma PrefixNone(rest: Option<seq<Stroke>>)
    ensures Prefix([], rest) == rest
  {
    if rest.Some? {
      assert [] + rest.value == rest.value;
    }
  }

  lemma PrefixThen(done: seq<Stroke>, stroke: Stroke, rest: Option<seq<Stroke>>)
    ensures Prefix(done, Then(stroke, rest)) == Prefix(done + [stroke], rest)
  {
    if rest.Some? {
      assert done + ([stroke] + rest.value) == done + [stroke] + rest.value;
    }
  }

  /** The characters up to the closing brace, or `None` when there is none. */
  method ReadToken(s: string, start: nat) returns (token: string, next: Option<nat>)
    requires start <= |s|
    ensures IndexOf(s[start..], '}') == None <==> next == None
    ensures next.Some? ==> start < next.value <= |s| && token == s[start..next.value - 1]
    ensures next.Some? ==> IndexOf(s[start..], '}') == Some(next.value - 1 - start)
  {
    token := "";
    var i := start;
    while i < |s|
      invariant start <= i <= |s| && token == s[start..i] && '}' !in token
    {
      if s[i] == '}' {
        assert s[start..][..i - start] == s[start..i];
        IndexOfIs(s[start..], '}', i - start);
        return token, Some(i + 1);
      }
      token := token + [s[i]];
      i := i + 1;
    }
    assert s[start..i] == s[start..];
    next := None;
  }

  /** The stroke for the braced token at `i`, and the position after it. */
  method ReadBraced(names: KeyNames, s: string, i: nat, m: Modifiers) returns (r: Option<(Stroke, nat)>)
    requires i < |s| && s[i] == '{'
    ensures r == None ==> ParseFrom(names, s[i..], m) == None
    ensures r.Some? ==>
              && i < r.value.1 <= |s|
              && ParseFrom(names, s[i..], m) == Then(r.value.0, ParseFrom(names, s[r.value.1..], PLAIN))
  {
    var token, next := ReadToken(s, i + 1);
    if next == None {
      ParseUnclosed(names, s, i, m);
      return None;
    }
    var vk := names(token);
    ParseBraced(names, s, i, m, next.value, vk);
    r := if vk == None then None else Some((Stroke(vk.value, m), next.value));
  }

  lemma ParseUnclosed(names: KeyNames, s: string, i: nat, m: Modifiers)
    requires i < |s| && s[i] == '{' && IndexOf(s[i + 1..], '}') == None
    ensures ParseFrom(names, s[i..], m) == None
  {
    assert s[i..][1..] == s[i + 1..];
  }

  lemma ParseBraced(names: KeyNames, s: string, i: nat, m: Modifiers, next: nat, vk: Option<nat>)
    requires i + 1 < next <= |s| && s[i] == '{' && IndexOf(s[i + 1..], '}') == Some(next - i - 2)
    requires vk == names(s[i + 1..next - 1])
    ensures ParseFrom(names, s[i..], m) ==
            if vk == None then None else Then(Stroke(vk.value, m), ParseFrom(names, s[next..], PLAIN))
  {
    var t := s[i..][1..];
    assert t == s[i + 1..];
    assert t[..next - i - 2] == s[i + 1..next - 1] && t[next - i - 1..] == s[next..];
  }

  lemma ParsePlain(names: KeyNames, s: string, i: nat, m: Modifiers)
    requires i < |s| && Latch(s[i], m) == None && s[i] != '{'
    ensures CharKey(s[i]) == None ==> ParseFrom(names, s[i..], m) == None
    ensures CharKey(s[i]).Some? ==>
              ParseFrom(names, s[i..], m) == Then(Stroke(CharKey(s[i]).value, m), ParseFrom(names, s[i + 1..], PLAIN))
  {
    assert s[i..][1..] == s[i + 1..];
  }

  lemma ParseLatch(names: KeyNames, s: string, i: nat, m: Modifiers)
    requires i < |s| && Latch(s[i], m).Some?
    ensures ParseFrom(names, s[i..], m) == ParseFrom(names, s[i + 1..], Latch(s[i], m).value)
  {
    assert s[i..][1..] == s[i + 1..];
  }

  method ParseNativeKeySequence(keys: string) returns (r: Option<seq<Stroke>>)
    ensures r == Parse(keys)
  {
    var s := Trim(keys);
    if s == "" {
      return None;
    }
    var strokes: seq<Stroke> := [];
    var m := PLAIN;
    var i := 0;
    assert s[0..] == s;
    PrefixNone(ParseFrom(SpecialKey, s, m));
    while i < |s|
      invariant 0 <= i <= |s|
      invariant Parse(keys) == Prefix(strokes, ParseFrom(SpecialKey, s[i..], m))
    {
      var latched := Latch(s[i], m);
      if latched.Some? {
        ParseLatch(SpecialKey, s, i, m);
        m := latched.value;
        i := i + 1;
      } else if s[i] == '{' {
        var braced := ReadBraced(SpecialKey, s, i, m);
        if braced == None {
          return None;
        }
        var (stroke, next) := braced.value;
        PrefixThen(strokes, stroke, ParseFrom(SpecialKey, s[next..], PLAIN));
        strokes, m, i := strokes + [stroke], PLAIN, next;
      } else {
        ParsePlain(SpecialKey, s, i, m);
        var vk := CharKey(s[i]);
        if vk == None {
          return None;
        }
        PrefixThen(strokes, Stroke(vk.value, m), ParseFrom(SpecialKey, s[i + 1..], PLAIN));
        strokes, m, i := strokes + [Stroke(vk.value, m)], PLAIN, i + 1;
      }
    }
    assert s[i..] == "" && strokes + [] == strokes;
    r := if m == PLAIN then Some(strokes) else None;
  }
}
