/** Escaping typed text for SendKeys inside a PowerShell string (`powershell_ui_type`, guest/src/ui_sidecar.rs). */
module SendKeys {
  import opened Wrappers
  import opened Strings

  function FlatMap(s: string, f: char -> string): (r: string) {
    if s == "" then "" else f(s[0]) + FlatMap(s[1..], f)
  }

  /** `str::replace` of a single character */
  function Replace(s: string, c: char, with: string): (r: string) {
    FlatMap(s, x => if x == c then with else [x])
  }

  function PsQuote(value: string): string { Replace(value, '\'', "''") }

  function Braced(c: char): string { ['{', c, '}'] }

  /** The chain of replacements, in the order the source makes them. */
  function EscapeQuoted(text: string): string {
    var s1 := Replace(text, '{', "{{}");
    var s2 := Replace(s1, '}', "{}}");
    var s3 := Replace(s2, '+', "{+}");
    var s4 := Replace(s3, '^', "{^}");
    var s5 := Replace(s4, '%', "{%}");
    var s6 := Replace(s5, '~', "{~}");
    var s7 := Replace(s6, '(', "{(}");
    Replace(s7, ')', "{)}")
  }

  function Escaped(text: string): string { EscapeQuoted(PsQuote(text)) }

  predicate IsSpecial(c: char) { c == '+' || c == '^' || c == '%' || c == '~' || c == '(' || c == ')' }

  /** What the chain does to one character. */
  function Substitute(c: char): string {
    if c == '\'' then "''"
    else if c == '{' then "{{{}}"
    else if c == '}' then "{}}"
    else if IsSpecial(c) then Braced(c)
    else [c]
  }

  // ----- The chain is one substitution per character -----

  lemma {:induction false} FlatMapConcat(s: string, t: string, f: char -> string)
    ensures FlatMap(s + t, f) == FlatMap(s, f) + FlatMap(t, f)
  {
    if s == "" {
      assert s + t == t;
    } else {
      assert (s + t)[1..] == s[1..] + t;
      FlatMapConcat(s[1..], t, f);
    }
  }

  lemma ReplaceConcat(s: string, t: string, c: char, with: string)
    ensures Replace(s + t, c, with) == Replace(s, c, with) + Replace(t, c, with)
  {
    FlatMapConcat(s, t, x => if x == c then with else [x]);
  }

  lemma {:induction false} ReplaceAbsent(s: string, c: char, with: string)
    requires c !in s
    ensures Replace(s, c, with) == s
  {
    if s != "" {
      ReplaceAbsent(s[1..], c, with);
      assert s == [s[0]] + s[1..];
    }
  }

  lemma ReplaceOne(c: char, with: string)
    ensures Replace([c], c, with) == with
  {
    var f := x => if x == c then with else [x];
    assert [c][1..] == "";
    assert FlatMap([c], f) == f(c) + FlatMap("", f) == with + "";
    assert with + "" == with;
  }

  lemma EscapeConcat(s: string, t: string)
    ensures EscapeQuoted(s + t) == EscapeQuoted(s) + EscapeQuoted(t)
  {
    ReplaceConcat(s, t, '{', "{{}");
    var a1, b1 := Replace(s, '{', "{{}"), Replace(t, '{', "{{}");
    ReplaceConcat(a1, b1, '}', "{}}");
    var a2, b2 := Replace(a1, '}', "{}}"), Replace(b1, '}', "{}}");
    ReplaceConcat(a2, b2, '+', "{+}");
    var a3, b3 := Replace(a2, '+', "{+}"), Replace(b2, '+', "{+}");
    ReplaceConcat(a3, b3, '^', "{^}");
    var a4, b4 := Replace(a3, '^', "{^}"), Replace(b3, '^', "{^}");
    ReplaceConcat(a4, b4, '%', "{%}");
    var a5, b5 := Replace(a4, '%', "{%}"), Replace(b4, '%', "{%}");
    ReplaceConcat(a5, b5, '~', "{~}");
    var a6, b6 := Replace(a5, '~', "{~}"), Replace(b5, '~', "{~}");
    ReplaceConcat(a6, b6, '(', "{(}");
    var a7, b7 := Replace(a6, '(', "{(}"), Replace(b6, '(', "{(}");
    ReplaceConcat(a7, b7, ')', "{)}");
  }

  /** From the third replacement on: the characters the earlier ones introduce are left alone. */
  function EscapeSpecials(s2: string): string {
    var s3 := Replace(s2, '+', "{+}");
    var s4 := Replace(s3, '^', "{^}");
    var s5 := Replace(s4, '%', "{%}");
    var s6 := Replace(s5, '~', "{~}");
    var s7 := Replace(s6, '(', "{(}");
    Replace(s7, ')', "{)}")
  }

  lemma NoSpecials(s: string)
    requires forall c :: c in s ==> !IsSpecial(c)
    ensures EscapeSpecials(s) == s
  {
    ReplaceAbsent(s, '+', "{+}");
    ReplaceAbsent(s, '^', "{^}");
    ReplaceAbsent(s, '%', "{%}");
    ReplaceAbsent(s, '~', "{~}");
    ReplaceAbsent(s, '(', "{(}");
    ReplaceAbsent(s, ')', "{)}");
  }

  /** One replacement of the chain on a string that is either `[c]` or already `{c}` for a special `c`. */
  lemma SpecialStep(s: string, c: char, d: char)
    requires s == [c] || (c != d && s == Braced(c))
    requires IsSpecial(c) && IsSpecial(d)
    ensures Replace(s, d, Braced(d)) == if c == d then Braced(c) else s
  {
    if c == d {
      ReplaceOne(c, Braced(c));
    } else {
      ReplaceAbsent(s, d, Braced(d));
    }
  }

  lemma OneSpecial(c: char)
    requires IsSpecial(c)
    ensures EscapeSpecials([c]) == Braced(c)
  {
    var s3 := if c == '+' then Braced(c) else [c];
    SpecialStep([c], c, '+');
    var s4 := if c == '^' then Braced(c) else s3;
    SpecialStep(s3, c, '^');
    var s5 := if c == '%' then Braced(c) else s4;
    SpecialStep(s4, c, '%');
    var s6 := if c == '~' then Braced(c) else s5;
    SpecialStep(s5, c, '~');
    var s7 := if c == '(' then Braced(c) else s6;
    SpecialStep(s6, c, '(');
    SpecialStep(s7, c, ')');
  }

  /** The second replacement rewrites the brace the first one introduced. */
  lemma EscapeOpen()
    ensures Replace(Replace("{", '{', "{{}"), '}', "{}}") == "{{{}}"
  {
    ReplaceOne('{', "{{}");
    assert "{{}" == "{{" + "}";
    ReplaceConcat("{{", "}", '}', "{}}");
    ReplaceAbsent("{{", '}', "{}}");
    ReplaceOne('}', "{}}");
  }

  lemma EscapeClose()
    ensures Replace(Replace("}", '{', "{{}"), '}', "{}}") == "{}}"
  {
    ReplaceAbsent("}", '{', "{{}");
    ReplaceOne('}', "{}}");
  }

  lemma EscapeBrace(c: char)
    ensures Replace(Replace([c], '{', "{{}"), '}', "{}}") ==
            if c == '{' then "{{{}}" else if c == '}' then "{}}" else [c]
  {
    if c == '{' {
      EscapeOpen();
    } else if c == '}' {
      EscapeClose();
    } else {
      ReplaceAbsent([c], '{', "{{}");
      ReplaceAbsent([c], '}', "{}}");
    }
  }

  lemma EscapeChar(c: char)
    ensures EscapeQuoted([c]) == if c == '\'' then "'" else Substitute(c)
  {
    var s2 := if c == '{' then "{{{}}" else if c == '}' then "{}}" else [c];
    EscapeBrace(c);
    assert EscapeQuoted([c]) == EscapeSpecials(s2);
    if IsSpecial(c) {
      OneSpecial(c);
    } else {
      NoSpecials(s2);
    }
  }

  lemma EscapeQuotedChar(c: char)
    ensures EscapeQuoted(PsQuote([c])) == Substitute(c)
  {
    if c == '\'' {
      ReplaceOne(c, "''");
      assert "''" == "'" + "'";
      EscapeConcat("'", "'");
      EscapeChar('\'');
    } else {
      ReplaceAbsent([c], '\'', "''");
      EscapeChar(c);
    }
  }

  /** The quoting and the eight chained replacements amount to one substitution per character. */
  lemma {:induction false} OnePass(text: string)
    ensures Escaped(text) == FlatMap(text, Substitute)
  {
    if text == "" {
      assert PsQuote("") == "";
    } else {
      OnePass(text[1..]);
      assert text == [text[0]] + text[1..];
      ReplaceConcat([text[0]], text[1..], '\'', "''");
      EscapeConcat(PsQuote([text[0]]), PsQuote(text[1..]));
      EscapeQuotedChar(text[0]);
    }
  }

  // ----- Reading the result -----

  /** PowerShell takes these four for a single quote as well. */
  predicate IsTypographic(c: char) { 0x2018 <= c as int <= 0x201B }

  predicate IsQuote(c: char) { c == '\'' || IsTypographic(c) }

  /** The content of a PowerShell single-quoted string: of two quotes in a row, of any kinds, the second stands for
      itself, and a lone one ends the string early. */
  function PsUnquote(s: string): (r: Option<string>) {
    if s == "" then Some("")
    else if !IsQuote(s[0]) then Before([s[0]], PsUnquote(s[1..]))
    else if |s| > 1 && IsQuote(s[1]) then Before([s[1]], PsUnquote(s[2..]))
    else None
  }

  function Before(t: string, r: Option<string>): Option<string> {
    if r.Some? then Some(t + r.value) else None
  }

  /** The text SendKeys types for `s`; `None` when `s` asks for anything but typing characters or is malformed. A braced
      single character is that character, and a closing brace may itself be braced. */
  function Typed(s: string): (r: Option<string>)
    decreases |s|
  {
    if s == "" then Some("")
    else if IsSpecial(s[0]) || s[0] == '}' then None
    else if s[0] != '{' then Before([s[0]], Typed(s[1..]))
    else if |s| > 2 && s[1] == '}' && s[2] == '}' then Before("}", Typed(s[3..]))
    else
      match IndexOf(s[1..], '}')
      case None => None
      case Some(k) => if k == 1 then Before([s[1]], Typed(s[3..])) else None
  }

  /** Why these characters are escaped: as they are, they ask for something else. */
  lemma UnescapedRefused(c: char, rest: string)
    requires c in "+^%~()}"
    ensures Typed([c] + rest) == None
  {
  }

  function Received(text: string): (r: Option<string>) {
    match PsUnquote(Escaped(text))
    case None => None
    case Some(s) => Typed(s)
  }

  /** `Substitute` after PowerShell has read the string */
  function Unquoted(c: char): string { if c == '\'' then "'" else Substitute(c) }

  /** The characters of `text` that PowerShell keeps; `open` says that the quote before it still lacks its second. An
      ASCII quote has been doubled, the others have not. */
  function Surviving(text: string, open: bool): (r: Option<string>)
    decreases |text|
  {
    if text == "" then if open then None else Some("")
    else if text[0] == '\'' then Before("'", Surviving(text[1..], open))
    else if IsTypographic(text[0]) then
      if open then Before([text[0]], Surviving(text[1..], false)) else Surviving(text[1..], true)
    else if open then None
    else Before([text[0]], Surviving(text[1..], false))
  }

  lemma {:induction false} UnquotePlain(s: string, t: string)
    requires forall c :: c in s ==> !IsQuote(c)
    ensures PsUnquote(s + t) == Before(s, PsUnquote(t))
  {
    if s == "" {
      assert s + t == t;
      if PsUnquote(t).Some? {
        assert "" + PsUnquote(t).value == PsUnquote(t).value;
      }
    } else {
      assert (s + t)[1..] == s[1..] + t;
      UnquotePlain(s[1..], t);
      if PsUnquote(t).Some? {
        assert s + PsUnquote(t).value == [s[0]] + (s[1..] + PsUnquote(t).value);
      }
    }
  }

  lemma UnquotePair(p: char, q: char, t: string)
    requires IsQuote(p) && IsQuote(q)
    ensures PsUnquote([p] + ([q] + t)) == Before([q], PsUnquote(t))
  {
    var s := [p] + ([q] + t);
    assert s[0] == p && s[1] == q && s[2..] == t;
  }

  lemma UnquoteLone(p: char, t: string)
    requires IsQuote(p) && (t == "" || !IsQuote(t[0]))
    ensures PsUnquote([p] + t) == None
  {
  }

  function Retyped(r: Option<string>): Option<string> {
    if r.Some? then Some(FlatMap(r.value, Unquoted)) else None
  }

  lemma RetypedBefore(c: char, r: Option<string>)
    ensures Retyped(Before([c], r)) == Before(Unquoted(c), Retyped(r))
  {
    if r.Some? {
      assert ([c] + r.value)[1..] == r.value;
    }
  }

  lemma SubstitutePlain(c: char)
    requires !IsQuote(c)
    ensures Substitute(c) != "" && (forall d :: d in Substitute(c) ==> !IsQuote(d)) && Unquoted(c) == Substitute(c)
  {
  }

  lemma {:induction false} UnquoteOpen(text: string, p: char)
    requires IsQuote(p)
    ensures PsUnquote([p] + FlatMap(text, Substitute)) == Retyped(Surviving(text, true))
    decreases |text|
  {
    var all := FlatMap(text, Substitute);
    if text == "" {
      UnquoteLone(p, all);
    } else {
      var c, rest := text[0], FlatMap(text[1..], Substitute);
      if c == '\'' {
        assert all == [c] + ([c] + rest);
        UnquotePair(p, c, [c] + rest);
        UnquoteOpen(text[1..], c);
        RetypedBefore(c, Surviving(text[1..], true));
      } else if IsTypographic(c) {
        UnquotePair(p, c, rest);
        UnquoteEscaped(text[1..]);
        RetypedBefore(c, Surviving(text[1..], false));
      } else {
        SubstitutePlain(c);
        assert all[0] == Substitute(c)[0];
        UnquoteLone(p, all);
      }
    }
  }

  /** What PowerShell makes of the escaped text. */
  lemma {:induction false} UnquoteEscaped(text: string)
    ensures PsUnquote(FlatMap(text, Substitute)) == Retyped(Surviving(text, false))
    decreases |text|
  {
    if text != "" {
      var c, rest := text[0], FlatMap(text[1..], Substitute);
      if c == '\'' {
        assert FlatMap(text, Substitute) == [c] + ([c] + rest);
        UnquotePair(c, c, rest);
        UnquoteEscaped(text[1..]);
        RetypedBefore(c, Surviving(text[1..], false));
      } else if IsTypographic(c) {
        UnquoteOpen(text[1..], c);
      } else {
        SubstitutePlain(c);
        UnquotePlain(Substitute(c), rest);
        UnquoteEscaped(text[1..]);
        RetypedBefore(c, Surviving(text[1..], false));
      }
    }
  }

  function Typographics(text: string): (n: nat)
    ensures n == 0 <==> forall c :: c in text ==> !IsTypographic(c)
  {
    if text == "" then 0 else (if IsTypographic(text[0]) then 1 else 0) + Typographics(text[1..])
  }

  /** Of the typographic quotes, every other one is lost. */
  lemma {:induction false} SurvivingLength(text: string, open: bool)
    requires Surviving(text, open).Some?
    ensures 2 * |Surviving(text, open).value| + Typographics(text) == 2 * |text| + if open then 1 else 0
    decreases |text|
  {
    if text != "" {
      SurvivingLength(text[1..], if IsTypographic(text[0]) then !open else open);
    }
  }

  lemma {:induction false} PlainSurvives(text: string)
    requires Typographics(text) == 0
    ensures Surviving(text, false) == Some(text)
  {
    if text != "" {
      PlainSurvives(text[1..]);
      assert text == [text[0]] + text[1..];
    }
  }

  lemma {:induction false} BraceSurvives(text: string, open: bool)
    requires Surviving(text, open).Some?
    ensures '{' in Surviving(text, open).value <==> '{' in text
    decreases |text|
  {
    if text != "" {
      assert text == [text[0]] + text[1..];
      BraceSurvives(text[1..], if IsTypographic(text[0]) then !open else open);
    }
  }

  lemma TypedOne(c: char, rest: string)
    requires c != '{'
    ensures Typed(Unquoted(c) + rest) == Before([c], Typed(rest))
  {
    var s := Unquoted(c) + rest;
    if c == '}' {
      assert s[0] == '{' && s[1] == '}' && s[2] == '}' && s[3..] == rest;
    } else if IsSpecial(c) {
      assert s[0] == '{' && s[1] == c && s[2] == '}' && s[3..] == rest;
      assert s[1..][..1] == [c];
      IndexOfIs(s[1..], '}', 1);
    } else {
      assert s[0] == c && s[1..] == rest;
    }
  }

  lemma TypedOpen(rest: string)
    ensures Typed(Unquoted('{') + rest) == None
  {
    var s := "{{{}}" + rest;
    assert s[0] == '{' && s[1] == '{' && s[2] == '{' && s[3] == '}';
    assert s[1..][..2] == "{{";
    IndexOfIs(s[1..], '}', 2);
  }

  lemma {:induction false} TypedAll(text: string)
    ensures Typed(FlatMap(text, Unquoted)) == if '{' in text then None else Some(text)
  {
    if text != "" {
      var rest := FlatMap(text[1..], Unquoted);
      TypedAll(text[1..]);
      assert text == [text[0]] + text[1..];
      if text[0] == '{' {
        TypedOpen(rest);
      } else {
        TypedOne(text[0], rest);
      }
    }
  }

  /** What arrives, for every text. */
  lemma ReceivedIs(text: string)
    ensures Received(text) == if '{' in text then None else Surviving(text, false)
  {
    OnePass(text);
    UnquoteEscaped(text);
    if Surviving(text, false).Some? {
      TypedAll(Surviving(text, false).value);
      BraceSurvives(text, false);
    }
  }

  /** The text that arrives is the text that was to be typed exactly when it has no opening brace and none of the four
      typographic quotes; with a brace, nothing can be typed at all. */
  lemma ReceivedExactly(text: string)
    ensures Received(text) == Some(text) <==> forall c :: c in text ==> c !in "{\U{2018}\U{2019}\U{201A}\U{201B}"
    ensures '{' in text ==> Received(text) == None
  {
    ReceivedIs(text);
    if Typographics(text) == 0 {
      PlainSurvives(text);
    } else if Surviving(text, false).Some? {
      SurvivingLength(text, false);
    }
    assert forall c :: c in "{\U{2018}\U{2019}\U{201A}\U{201B}" <==> c == '{' || IsTypographic(c);
  }

  /** A typographic apostrophe is enough to lose the text. */
  lemma ApostropheLost(a: string, b: string)
    requires b == "" || !IsQuote(b[0])
    requires forall c :: c in a ==> !IsTypographic(c)
    ensures Received(a + ['\U{2019}'] + b) == None
  {
    var text := a + ['\U{2019}'] + b;
    ReceivedIs(text);
    assert text == a + (['\U{2019}'] + b);
    SurvivingAfter(a, ['\U{2019}'] + b);
    assert (['\U{2019}'] + b)[1..] == b;
  }

  lemma {:induction false} SurvivingAfter(a: string, b: string)
    requires forall c :: c in a ==> !IsTypographic(c)
    ensures Surviving(a + b, false) == Before(a, Surviving(b, false))
  {
    if a == "" {
      assert a + b == b;
      assert Surviving(b, false).Some? ==> "" + Surviving(b, false).value == Surviving(b, false).value;
    } else {
      SurvivingAfter(a[1..], b);
      assert (a + b)[1..] == a[1..] + b;
      if Surviving(b, false).Some? {
        assert a + Surviving(b, false).value == [a[0]] + (a[1..] + Surviving(b, false).value);
      }
    }
  }
}
