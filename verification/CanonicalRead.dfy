/** A reader for canonical text: JSON without white space (sections 2 to 7 of RFC 8259), with hex digits in lower case
    and with array elements that may be missing. */
module CanonicalRead {
  import opened Wrappers
  import opened Sequences
  import opened Utf
  import opened CanonicalJson

  // ----- Reading strings -----

  function HexValue(u: Unit): (r: Option<int>)
    ensures r.Some? ==> 0 <= r.value < 16
  {
    if '0' as int <= u <= '9' as int then Some(u - '0' as int)
    else if 'a' as int <= u <= 'f' as int then Some(u - 'a' as int + 10)
    else None
  }

  function HexUnit(s: Text): (r: Option<Unit>)
    requires |s| >= 4
  {
    match (HexValue(s[0]), HexValue(s[1]), HexValue(s[2]), HexValue(s[3]))
    case (Some(a), Some(b), Some(c), Some(d)) => Some(a * 4096 + b * 256 + c * 16 + d)
    case _ => None
  }

  function ShortEscape(u: Unit): Option<Unit> {
    if u == '\"' as int || u == '\\' as int || u == '/' as int then Some(u)
    else if u == 'b' as int then Some(0x08)
    else if u == 'f' as int then Some(0x0C)
    else if u == 'n' as int then Some(0x0A)
    else if u == 'r' as int then Some(0x0D)
    else if u == 't' as int then Some(0x09)
    else None
  }

  /** One string character at the front of `s`, with the number of units it takes. */
  function ReadUnit(s: Text): (r: Option<(Unit, nat)>)
    requires s != []
    ensures r.Some? ==> 1 <= r.value.1 <= |s|
  {
    if s[0] == '\"' as int || s[0] < 0x20 then None
    else if s[0] != '\\' as int then Some((s[0], 1))
    else if |s| > 1 && ShortEscape(s[1]).Some? then Some((ShortEscape(s[1]).value, 2))
    else if |s| > 5 && s[1] == 'u' as int && HexUnit(s[2..]).Some? then Some((HexUnit(s[2..]).value, 6))
    else None
  }

  /** The characters up to the closing quote, and what follows it. */
  function ReadChars(s: Text): (r: Option<(Text, Text)>)
    ensures r.Some? ==> |r.value.1| < |s|
  {
    if s == [] then None
    else if s[0] == '\"' as int then Some(([], s[1..]))
    else
      match ReadUnit(s)
      case None => None
      case Some((u, n)) =>
        match ReadChars(s[n..])
        case None => None
        case Some((us, rest)) => Some(([u] + us, rest))
  }

  // ----- Reading values -----

  lemma NumUnitsListed(u: Unit)
    ensures IsNumUnit(u) <==> exists i :: 0 <= i < 15 && u == "+-.0123456789Ee"[i] as int
  {
    var i := if u == 0x2B then 0 else if u == 0x2D then 1 else if u == 0x2E then 2
    else if u == 0x45 then 13 else if u == 0x65 then 14 else u - 0x30 + 3;
    assert IsNumUnit(u) ==> u == "+-.0123456789Ee"[i] as int;
  }

  function NumLength(s: Text): (n: nat)
    ensures n <= |s| && forall i :: 0 <= i < n ==> IsNumUnit(s[i])
  {
    if s == [] || !IsNumUnit(s[0]) then 0 else 1 + NumLength(s[1..])
  }

  function ReadNumber(s: Text): (r: Option<(Json, Text)>)
    ensures r.Some? ==> |r.value.1| < |s|
  {
    var n := NumLength(s);
    if n == 0 then None else Some((Num(s[..n]), s[n..]))
  }

  function ReadValue(s: Text): (r: Option<(Json, Text)>)
    ensures r.Some? ==> |r.value.1| < |s|
    decreases |s|, 0
  {
    if s == [] then None
    else if s[0] == '\"' as int then
      match ReadChars(s[1..])
      case None => None
      case Some((us, rest)) => Some((Str(us), rest))
    else if s[0] == '[' as int then
      if |s| > 1 && s[1] == ']' as int then Some((Arr([]), s[2..]))
      else
        match ReadItems(s[1..])
        case None => None
        case Some((items, rest)) => Some((Arr(items), rest))
    else if s[0] == '{' as int then
      if |s| > 1 && s[1] == '}' as int then Some((Obj([]), s[2..]))
      else
        match ReadMembers(s[1..])
        case None => None
        case Some((ms, rest)) => Some((Obj(ms), rest))
    else if Ascii("null") <= s then Some((Null, s[4..]))
    else if Ascii("true") <= s then Some((Bool(true), s[4..]))
    else if Ascii("false") <= s then Some((Bool(false), s[5..]))
    else ReadNumber(s)
  }

  /** Array elements up to the closing bracket; nothing before a comma or the bracket is an undefined element. */
  function ReadItems(s: Text): (r: Option<(seq<Json>, Text)>)
    ensures r.Some? ==> |r.value.1| < |s|
    decreases |s|, 1
  {
    if s == [] then None
    else
      var first: Option<(Json, Text)> :=
        if s[0] == ',' as int || s[0] == ']' as int then Some((Undefined, s)) else ReadValue(s);
      match first
      case None => None
      case Some((v, t)) =>
        if t == [] then None
        else if t[0] == ']' as int then Some(([v], t[1..]))
        else if t[0] != ',' as int then None
        else
          match ReadItems(t[1..])
          case None => None
          case Some((vs, rest)) => Some(([v] + vs, rest))
  }

  function ReadMembers(s: Text): (r: Option<(seq<Keyed<Json>>, Text)>)
    ensures r.Some? ==> |r.value.1| < |s|
    decreases |s|, 1
  {
    if s == [] || s[0] != '\"' as int then None
    else
      match ReadChars(s[1..])
      case None => None
      case Some((key, t)) =>
        if t == [] || t[0] != ':' as int then None
        else
          match ReadValue(t[1..])
          case None => None
          case Some((v, u)) =>
            if u == [] then None
            else if u[0] == '}' as int then Some(([Keyed(key, v)], u[1..]))
            else if u[0] != ',' as int then None
            else
              match ReadMembers(u[1..])
              case None => None
              case Some((ms, rest)) => Some(([Keyed(key, v)] + ms, rest))
  }

  // ----- Strings survive quoting -----

  lemma HexDigitValue(n: int)
    requires 0 <= n < 16
    ensures HexValue(HexDigit(n)) == Some(n)
  {
  }

  lemma HexSum(c: int)
    requires 0 <= c < 0x1_0000
    ensures c == (c / 4096) * 4096 + (c / 256 % 16) * 256 + (c / 16 % 16) * 16 + c % 16
  {
    assert c / 16 / 16 == c / 256 && c / 256 / 16 == c / 4096;
  }

  lemma HexRoundTrip(u: Unit, rest: Text)
    ensures ReadUnit(HexEscape(u) + rest) == Some((u, 6))
  {
    var s := HexEscape(u) + rest;
    var c: int := u;
    var t := s[2..];
    assert s[0] == BACKSLASH && s[1] == 0x75;
    assert t[0] == HexDigit(c / 4096) && t[1] == HexDigit(c / 256 % 16);
    assert t[2] == HexDigit(c / 16 % 16) && t[3] == HexDigit(c % 16);
    HexDigitValue(c / 4096);
    HexDigitValue(c / 256 % 16);
    HexDigitValue(c / 16 % 16);
    HexDigitValue(c % 16);
    HexSum(c);
    assert HexUnit(t) == Some(u);
  }

  lemma UnitRoundTrip(u: Unit, rest: Text)
    ensures ReadUnit(EscapeUnit(u) + rest) == Some((u, |EscapeUnit(u)|))
    ensures EscapeUnit(u)[0] != QUOTE
  {
    if EscapeUnit(u) == HexEscape(u) {
      HexRoundTrip(u, rest);
    } else {
      var s := EscapeUnit(u) + rest;
      assert s[0] == EscapeUnit(u)[0];
      if |EscapeUnit(u)| == 2 {
        assert s[1] == EscapeUnit(u)[1];
      }
    }
  }

  lemma ReadCharsCons(u: Unit, e: Text, t: Text)
    requires e != [] && e[0] != QUOTE && ReadUnit(e + t) == Some((u, |e|)) && ReadChars(t).Some?
    ensures ReadChars(e + t) == Some(([u] + ReadChars(t).value.0, ReadChars(t).value.1))
  {
    assert (e + t)[|e|..] == t;
  }

  lemma ReadPlain(u: Unit, t: Text)
    requires u >= 0x20 && u != QUOTE && u != BACKSLASH && ReadChars(t).Some?
    ensures ReadChars([u] + t) == Some(([u] + ReadChars(t).value.0, ReadChars(t).value.1))
  {
    assert ([u] + t)[0] == u;
    assert ReadUnit([u] + t) == Some((u, 1));
    ReadCharsCons(u, [u], t);
  }

  lemma PairRoundTrip(h: Unit, l: Unit, t: Text)
    requires IsHigh(h) && IsLow(l) && ReadChars(t).Some?
    ensures ReadChars([h, l] + t) == Some(([h, l] + ReadChars(t).value.0, ReadChars(t).value.1))
  {
    ReadPlain(l, t);
    ReadPlain(h, [l] + t);
    Cons2(h, l, t);
    Cons2(h, l, ReadChars(t).value.0);
  }

  /** How many units `Escape` takes at once. */
  function Step(s: Text): nat
    requires s != []
    ensures 1 <= Step(s) <= |s|
  {
    if StartsWithPair(s) then 2 else 1
  }

  lemma StepRoundTrip(s: Text, t: Text)
    requires s != [] && ReadChars(t).Some?
    ensures var e := if StartsWithPair(s) then [s[0], s[1]] else EscapeUnit(s[0]);
            ReadChars(e + t) == Some((s[..Step(s)] + ReadChars(t).value.0, ReadChars(t).value.1))
  {
    if StartsWithPair(s) {
      PairRoundTrip(s[0], s[1], t);
      assert s[..2] == [s[0], s[1]];
    } else {
      UnitRoundTrip(s[0], t);
      ReadCharsCons(s[0], EscapeUnit(s[0]), t);
      assert s[..1] == [s[0]];
    }
  }

  lemma EscapeStep(s: Text, rest: Text)
    requires s != []
    ensures var e := if StartsWithPair(s) then [s[0], s[1]] else EscapeUnit(s[0]);
            Escape(s) + rest == e + (Escape(s[Step(s)..]) + rest)
  {
    var e := if StartsWithPair(s) then [s[0], s[1]] else EscapeUnit(s[0]);
    Assoc(e, Escape(s[Step(s)..]), rest);
  }

  lemma {:induction false} CharsRoundTrip(s: Text, rest: Text)
    ensures ReadChars(Escape(s) + ([QUOTE] + rest)) == Some((s, rest))
  {
    if s == [] {
      assert Escape(s) + ([QUOTE] + rest) == [QUOTE] + rest;
      assert ([QUOTE] + rest)[1..] == rest;
    } else {
      var k := Step(s);
      CharsRoundTrip(s[k..], rest);
      EscapeStep(s, [QUOTE] + rest);
      StepRoundTrip(s, Escape(s[k..]) + ([QUOTE] + rest));
      assert s == s[..k] + s[k..];
    }
  }

  // ----- No shorter text denotes the string -----

  lemma EscapeCons(u: Unit, s: Text)
    ensures |Escape([u] + s)| <= |EscapeUnit(u)| + |Escape(s)|
  {
    var t := [u] + s;
    assert t[1..] == s;
    if StartsWithPair(t) {
      assert t[2..] == s[1..] && IsLow(s[0]) && !StartsWithPair(s);
      assert EscapeUnit(s[0]) == HexEscape(s[0]);
    }
  }

  lemma UnitShape(t: Text)
    requires t != [] && ReadUnit(t).Some?
    ensures var (u, n) := ReadUnit(t).value;
            && |EscapeUnit(u)| <= (if n == 1 && (IsHigh(u) || IsLow(u)) then 6 else n)
            && (n == 1 ==> u == t[0]) && (n > 1 ==> t[0] == BACKSLASH)
            && forall i :: 1 <= i < n ==> t[i] < 0x80
  {
    if |t| > 5 && t[1] == 0x75 && HexUnit(t[2..]).Some? {
      assert t[2..][0] == t[2] && t[2..][1] == t[3] && t[2..][2] == t[4] && t[2..][3] == t[5];
    }
  }

  /** Unless a well-formed text starts with a raw pair, its first character is no shorter than the escape printed for
      it, and what follows is well formed. */
  lemma FirstOfWellFormed(e: Text, u: Unit, n: nat)
    requires e != [] && WellFormed(e) && !StartsWithPair(e)
    requires ReadUnit(e + [QUOTE]) == Some((u, n)) && n <= |e|
    ensures |EscapeUnit(u)| <= n && WellFormed(e[n..])
  {
    var t := e + [QUOTE];
    UnitShape(t);
    assert forall i :: 0 <= i < n ==> t[i] == e[i];
    WellFormedAfter(e, n);
  }

  lemma {:induction false} WellFormedAfter(e: Text, n: nat)
    requires n <= |e| && WellFormed(e) && forall i :: 0 <= i < n ==> !IsHigh(e[i])
    ensures WellFormed(e[n..])
  {
    if n > 0 {
      WellFormedAfter(e[1..], n - 1);
      assert e[1..][n - 1..] == e[n..];
    }
  }

  lemma RawFirst(t: Text)
    requires t != [] && t[0] >= 0x80 && ReadChars(t).Some?
    ensures var (s, rest) := ReadChars(t).value;
            s != [] && s[0] == t[0] && ReadChars(t[1..]) == Some((s[1..], rest))
  {
  }

  lemma RawPair(e: Text, s: Text)
    requires StartsWithPair(e) && ReadChars(e + [QUOTE]) == Some((s, []))
    ensures |s| >= 2 && s[..2] == e[..2] && ReadChars(e[2..] + [QUOTE]) == Some((s[2..], []))
  {
    var t := e + [QUOTE];
    assert t[1..] == e[1..] + [QUOTE] && t[1..][1..] == e[2..] + [QUOTE];
    RawFirst(t);
    RawFirst(t[1..]);
    assert s[1..][1..] == s[2..];
  }

  /** Of all well-formed texts that denote `s` inside quotes, the one printed is a shortest. */
  lemma {:induction false} EscapeShortest(e: Text, s: Text)
    requires WellFormed(e) && ReadChars(e + [QUOTE]) == Some((s, []))
    ensures |Escape(s)| <= |e|
    decreases |e|
  {
    var t := e + [QUOTE];
    if e == [] {
      assert t == [QUOTE];
    } else if StartsWithPair(e) {
      RawPair(e, s);
      assert s[0] == s[..2][0] == e[0] && s[1] == s[..2][1] == e[1];
      EscapeShortest(e[2..], s[2..]);
    } else {
      var (u, n) := ReadUnit(t).value;
      assert t[n..] != [];
      assert t[n..] == e[n..] + [QUOTE];
      FirstOfWellFormed(e, u, n);
      assert s == [u] + s[1..];
      EscapeShortest(e[n..], s[1..]);
      EscapeCons(u, s[1..]);
    }
  }

  lemma QuoteRoundTrip(s: Text, rest: Text)
    ensures Quote(s) + rest != [] && (Quote(s) + rest)[0] == QUOTE
    ensures ReadChars((Quote(s) + rest)[1..]) == Some((s, rest))
  {
    CharsRoundTrip(s, rest);
    Enclosed(QUOTE, Escape(s), rest);
  }
}
