/** Rust string operations on sequences of Unicode scalar values. */
module Strings {
  import opened Sequences
  import opened Wrappers

  /** Unicode White_Space, as `char::is_whitespace` tests it. */
  predicate IsWhite(c: char) {
    var u := c as int;
    || 0x09 <= u <= 0x0D || u == 0x20 || u == 0x85 || u == 0xA0 || u == 0x1680
    || 0x2000 <= u <= 0x200A || u == 0x2028 || u == 0x2029 || u == 0x202F || u == 0x205F || u == 0x3000
  }

  const WHITE :=
    "\t\n\U{0B}\U{0C}\r \U{85}\U{A0}\U{1680}\U{2000}\U{2001}\U{2002}\U{2003}\U{2004}\U{2005}\U{2006}\U{2007}"
    + "\U{2008}\U{2009}\U{200A}\U{2028}\U{2029}\U{202F}\U{205F}\U{3000}"

  lemma WhiteListed(c: char)
    ensures IsWhite(c) <==> c in WHITE
  {
  }

  function TrimStart(s: string): (r: string)
    ensures |r| <= |s| && r == s[|s| - |r|..] && (r != "" ==> !IsWhite(r[0]))
  {
    if s != "" && IsWhite(s[0]) then TrimStart(s[1..]) else s
  }

  function TrimEnd(s: string): (r: string)
    ensures r <= s && (r != "" ==> !IsWhite(r[|r| - 1]))
  {
    if s != "" && IsWhite(s[|s| - 1]) then TrimEnd(s[..|s| - 1]) else s
  }

  function Trim(s: string): (r: string)
    ensures |r| <= |s|
  {
    TrimEnd(TrimStart(s))
  }

  predicate AllWhite(s: string) { forall i :: 0 <= i < |s| ==> IsWhite(s[i]) }

  predicate AllListed(s: string) { forall i :: 0 <= i < |s| ==> s[i] in WHITE }

  lemma AllWhiteListed(s: string)
    requires AllWhite(s)
    ensures AllListed(s)
  {
    forall i | 0 <= i < |s|
      ensures s[i] in WHITE
    {
      WhiteListed(s[i]);
    }
  }

  lemma WhiteCons(c: char, s: string)
    requires IsWhite(c) && AllWhite(s)
    ensures AllWhite([c] + s)
  {
  }

  lemma {:induction false} TrimmedFront(s: string) returns (front: string)
    ensures s == front + TrimStart(s) && AllWhite(front)
  {
    if s != "" && IsWhite(s[0]) {
      var tail := TrimmedFront(s[1..]);
      front := [s[0]] + tail;
      WhiteCons(s[0], tail);
      assert s == [s[0]] + s[1..];
      Assoc([s[0]], tail, TrimStart(s[1..]));
    } else {
      front := "";
    }
  }

  lemma {:induction false} TrimmedBack(s: string) returns (back: string)
    ensures s == TrimEnd(s) + back && AllWhite(back)
  {
    if s != "" && IsWhite(s[|s| - 1]) {
      back := TrimmedBack(s[..|s| - 1]);
      back := back + [s[|s| - 1]];
    } else {
      back := "";
    }
  }

  lemma TrimEnds(s: string)
    ensures Trim(s) != "" ==> !IsWhite(Trim(s)[0]) && !IsWhite(Trim(s)[|Trim(s)| - 1])
  {
    var t := TrimStart(s);
    assert TrimEnd(t) != "" ==> TrimEnd(t)[0] == t[0];
  }

  /** Trimming takes all white space from both ends, and nothing else. */
  lemma Trimmed(s: string) returns (front: string, back: string)
    ensures s == front + Trim(s) + back && AllListed(front) && AllListed(back)
    ensures Trim(s) != "" ==> Trim(s)[0] !in WHITE && Trim(s)[|Trim(s)| - 1] !in WHITE
  {
    front := TrimmedFront(s);
    back := TrimmedBack(TrimStart(s));
    AllWhiteListed(front);
    AllWhiteListed(back);
    Assoc(front, Trim(s), back);
    TrimEnds(s);
    if Trim(s) != "" {
      WhiteListed(Trim(s)[0]);
      WhiteListed(Trim(s)[|Trim(s)| - 1]);
    }
  }

  lemma TrimFixed(s: string)
    requires s != "" ==> !IsWhite(s[0]) && !IsWhite(s[|s| - 1])
    ensures Trim(s) == s
  {
  }

  function UpperChar(c: char): (r: char) {
    if 'a' <= c <= 'z' then (c as int - 32) as char else c
  }

  function LowerChar(c: char): (r: char) {
    if 'A' <= c <= 'Z' then (c as int + 32) as char else c
  }

  const CAPITALS := "ABCDEFGHIJKLMNOPQRSTUVWXYZ"
  const SMALL := "abcdefghijklmnopqrstuvwxyz"

  lemma CapitalAt(i: nat)
    requires i < 26
    ensures CAPITALS[i] as int == 'A' as int + i
  {
  }

  lemma SmallAt(i: nat)
    requires i < 26
    ensures SMALL[i] as int == 'a' as int + i
  {
  }

  /** The two cases of each letter belong together. */
  lemma CasePairs(i: nat)
    requires i < 26
    ensures UpperChar(SMALL[i]) == CAPITALS[i] && LowerChar(CAPITALS[i]) == SMALL[i]
  {
    CapitalAt(i);
    SmallAt(i);
  }

  /** Nothing else has a case. */
  lemma NoCase(c: char)
    ensures c !in SMALL ==> UpperChar(c) == c
    ensures c !in CAPITALS ==> LowerChar(c) == c
  {
    if 'a' <= c <= 'z' {
      SmallAt(c as int - 'a' as int);
    } else if 'A' <= c <= 'Z' {
      CapitalAt(c as int - 'A' as int);
    }
  }

  /** `to_ascii_uppercase` */
  function Upper(s: string): (r: string)
    ensures |r| == |s| && forall i :: 0 <= i < |s| ==> r[i] == UpperChar(s[i])
  {
    seq(|s|, i requires 0 <= i < |s| => UpperChar(s[i]))
  }

  /** `to_ascii_lowercase` */
  function Lower(s: string): (r: string)
    ensures |r| == |s| && forall i :: 0 <= i < |s| ==> r[i] == LowerChar(s[i])
  {
    seq(|s|, i requires 0 <= i < |s| => LowerChar(s[i]))
  }

  predicate IsDigit(c: char) { '0' <= c <= '9' }

  function DigitsValue(s: string): nat {
    if s == "" then 0 else DigitsValue(s[..|s| - 1]) * 10 + (if IsDigit(s[|s| - 1]) then s[|s| - 1] as int - 48 else 0)
  }

  predicate AllDigits(s: string) { forall i :: 0 <= i < |s| ==> IsDigit(s[i]) }

  predicate IsAlphanumeric(c: char) { IsDigit(c) || 'A' <= c <= 'Z' || 'a' <= c <= 'z' }

  /** The position of the first `c` in `s`. */
  function IndexOf(s: string, c: char): (r: Option<nat>)
    ensures r.Some? ==> r.value < |s| && s[r.value] == c && c !in s[..r.value]
    ensures r.None? ==> c !in s
  {
    if s == "" then None
    else if s[0] == c then Some(0)
    else
      match IndexOf(s[1..], c)
      case None => None
      case Some(k) =>
        assert s[..k + 1] == [s[0]] + s[1..][..k];
        Some(k + 1)
  }

  lemma {:induction false} IndexOfIs(s: string, c: char, k: nat)
    requires k < |s| && s[k] == c && c !in s[..k]
    ensures IndexOf(s, c) == Some(k)
  {
    if k > 0 {
      assert s[..k][0] == s[0] && s[1..][..k - 1] == s[..k][1..];
      IndexOfIs(s[1..], c, k - 1);
    }
  }
}
