/** Text as JavaScript holds it (UTF-16 code units) and as it is signed and sent (UTF-8 bytes). */
module Utf {
  import opened Wrappers

  type Unit = x: int | 0 <= x < 0x1_0000
  type Byte = x: int | 0 <= x < 0x100
  type Text = seq<Unit>
  type Bytes = seq<Byte>

  /** A text of ASCII characters. */
  function Ascii(s: string): (t: Text)
    requires forall i :: 0 <= i < |s| ==> s[i] as int < 0x80
    ensures |t| == |s| && forall i :: 0 <= i < |s| ==> t[i] == s[i] as int
  {
    seq(|s|, i requires 0 <= i < |s| => s[i] as int)
  }

  predicate IsHigh(u: Unit) { 0xD800 <= u < 0xDC00 }

  predicate IsLow(u: Unit) { 0xDC00 <= u < 0xE000 }

  predicate StartsWithPair(s: Text) { |s| > 1 && IsHigh(s[0]) && IsLow(s[1]) }

  /** No lone surrogate: every high surrogate is followed by a low one and every low one follows a high one. */
  predicate WellFormed(s: Text) {
    if s == [] then true
    else if StartsWithPair(s) then WellFormed(s[2..])
    else !IsHigh(s[0]) && !IsLow(s[0]) && WellFormed(s[1..])
  }

  lemma {:induction false} WellFormedConcat(s: Text, t: Text)
    requires WellFormed(s) && WellFormed(t)
    ensures WellFormed(s + t)
  {
    if s == [] {
      assert s + t == t;
    } else if StartsWithPair(s) {
      WellFormedConcat(s[2..], t);
      assert (s + t)[2..] == s[2..] + t;
    } else {
      WellFormedConcat(s[1..], t);
      assert (s + t)[1..] == s[1..] + t;
    }
  }

  lemma {:induction false} WellFormedPlain(s: Text)
    requires forall u :: u in s ==> !IsHigh(u) && !IsLow(u)
    ensures WellFormed(s)
  {
    if s != [] {
      WellFormedPlain(s[1..]);
    }
  }

  /** The scalar value at the front of `s`; a lone surrogate reads as U+FFFD, as Node's encoder does. */
  function Scalar(s: Text): (cp: int)
    requires s != []
    ensures 0 <= cp <= 0x10_FFFF && !(0xD800 <= cp < 0xE000)
    ensures cp >= 0x1_0000 <==> StartsWithPair(s)
  {
    if StartsWithPair(s) then
      var high: int, low: int := s[0] - 0xD800, s[1] - 0xDC00;
      0x1_0000 + high * 0x400 + low
    else if IsHigh(s[0]) || IsLow(s[0]) then 0xFFFD
    else s[0]
  }

  function EncodeScalar(cp: int): (b: Bytes)
    requires 0 <= cp <= 0x10_FFFF
    ensures b != []
  {
    if cp < 0x80 then [cp]
    else if cp < 0x800 then [0xC0 + cp / 64, 0x80 + cp % 64]
    else if cp < 0x1_0000 then [0xE0 + cp / 4096, 0x80 + cp / 64 % 64, 0x80 + cp % 64]
    else [0xF0 + cp / 262144, 0x80 + cp / 4096 % 64, 0x80 + cp / 64 % 64, 0x80 + cp % 64]
  }

  /** `Buffer.from(s, "utf-8")`. */
  function Utf8(s: Text): (b: Bytes) {
    if s == [] then []
    else EncodeScalar(Scalar(s)) + Utf8(s[(if StartsWithPair(s) then 2 else 1)..])
  }

  predicate IsCont(b: Byte) { 0x80 <= b < 0xC0 }

  function Join2(b0: int, b1: int): int { (b0 - 0xC0) * 64 + (b1 - 0x80) }

  function Join3(b0: int, b1: int, b2: int): int { (b0 - 0xE0) * 4096 + (b1 - 0x80) * 64 + (b2 - 0x80) }

  function Join4(b0: int, b1: int, b2: int, b3: int): int {
    (b0 - 0xF0) * 262144 + (b1 - 0x80) * 4096 + (b2 - 0x80) * 64 + (b3 - 0x80)
  }

  /** The scalar value at the front of `b` with its width, when `b` starts with a well-formed UTF-8 sequence. */
  function DecodeFirst(b: Bytes): (r: Option<(int, nat)>)
    ensures r.Some? ==> 1 <= r.value.1 <= 4 && r.value.1 <= |b|
    ensures r.Some? ==> 0 <= r.value.0 <= 0x10_FFFF && !(0xD800 <= r.value.0 < 0xE000)
  {
    if b == [] then None
    else if b[0] < 0x80 then Some((b[0], 1))
    else if 0xC0 <= b[0] < 0xE0 && |b| > 1 && IsCont(b[1]) then
      var cp := Join2(b[0], b[1]);
      if cp >= 0x80 then Some((cp, 2)) else None
    else if 0xE0 <= b[0] < 0xF0 && |b| > 2 && IsCont(b[1]) && IsCont(b[2]) then
      var cp := Join3(b[0], b[1], b[2]);
      if cp >= 0x800 && !(0xD800 <= cp < 0xE000) then Some((cp, 3)) else None
    else if 0xF0 <= b[0] < 0xF8 && |b| > 3 && IsCont(b[1]) && IsCont(b[2]) && IsCont(b[3]) then
      var cp := Join4(b[0], b[1], b[2], b[3]);
      if 0x1_0000 <= cp <= 0x10_FFFF then Some((cp, 4)) else None
    else None
  }

  function Units(cp: int): (s: Text)
    requires 0 <= cp <= 0x10_FFFF
    ensures |s| == if cp >= 0x1_0000 then 2 else 1
  {
    if cp < 0x1_0000 then [cp]
    else [0xD800 + (cp - 0x1_0000) / 0x400, 0xDC00 + (cp - 0x1_0000) % 0x400]
  }

  /** Strict decoding, as `String::from_utf8` does it: `None` on any malformed, overlong or surrogate sequence. */
  function DecodeUtf8(b: Bytes): (r: Option<Text>) {
    if b == [] then Some([])
    else
      match DecodeFirst(b)
      case None => None
      case Some((cp, n)) =>
        match DecodeUtf8(b[n..])
        case None => None
        case Some(rest) => Some(Units(cp) + rest)
  }

  predicate ValidUtf8(b: Bytes) { DecodeUtf8(b).Some? }

  lemma JoinSplit(cp: int)
    requires 0 <= cp
    ensures Join2(0xC0 + cp / 64, 0x80 + cp % 64) == cp
    ensures Join3(0xE0 + cp / 4096, 0x80 + cp / 64 % 64, 0x80 + cp % 64) == cp
    ensures Join4(0xF0 + cp / 262144, 0x80 + cp / 4096 % 64, 0x80 + cp / 64 % 64, 0x80 + cp % 64) == cp
  {
    assert cp / 64 / 64 == cp / 4096 && cp / 4096 / 64 == cp / 262144;
  }

  lemma SplitJoin2(b0: int, b1: int)
    requires 0xC0 <= b0 && 0x80 <= b1 < 0xC0
    ensures Join2(b0, b1) / 64 == b0 - 0xC0 && Join2(b0, b1) % 64 == b1 - 0x80
  {
  }

  lemma SplitJoin3(b0: int, b1: int, b2: int)
    requires 0xE0 <= b0 && 0x80 <= b1 < 0xC0 && 0x80 <= b2 < 0xC0
    ensures var cp := Join3(b0, b1, b2);
            cp / 4096 == b0 - 0xE0 && cp / 64 % 64 == b1 - 0x80 && cp % 64 == b2 - 0x80
  {
    var cp := Join3(b0, b1, b2);
    assert cp / 64 == (b0 - 0xE0) * 64 + (b1 - 0x80);
  }

  lemma SplitJoin4(b0: int, b1: int, b2: int, b3: int)
    requires 0xF0 <= b0 && 0x80 <= b1 < 0xC0 && 0x80 <= b2 < 0xC0 && 0x80 <= b3 < 0xC0
    ensures var cp := Join4(b0, b1, b2, b3);
            && cp / 262144 == b0 - 0xF0 && cp / 4096 % 64 == b1 - 0x80
            && cp / 64 % 64 == b2 - 0x80 && cp % 64 == b3 - 0x80
  {
    var cp := Join4(b0, b1, b2, b3);
    assert cp / 64 == (b0 - 0xF0) * 4096 + (b1 - 0x80) * 64 + (b2 - 0x80);
    assert cp / 4096 == (b0 - 0xF0) * 64 + (b1 - 0x80);
  }

  lemma DecodeFirstEncode(cp: int, rest: Bytes)
    requires 0 <= cp <= 0x10_FFFF && !(0xD800 <= cp < 0xE000)
    ensures DecodeFirst(EncodeScalar(cp) + rest) == Some((cp, |EncodeScalar(cp)|))
  {
    JoinSplit(cp);
    var b := EncodeScalar(cp) + rest;
    if cp < 0x80 {
    } else if cp < 0x800 {
      assert b[0] == 0xC0 + cp / 64 && b[1] == 0x80 + cp % 64;
    } else if cp < 0x1_0000 {
      assert b[0] == 0xE0 + cp / 4096 && b[1] == 0x80 + cp / 64 % 64 && b[2] == 0x80 + cp % 64;
    } else {
      assert b[0] == 0xF0 + cp / 262144 && b[1] == 0x80 + cp / 4096 % 64;
      assert b[2] == 0x80 + cp / 64 % 64 && b[3] == 0x80 + cp % 64;
    }
  }

  lemma EncodeDecodeFirst(b: Bytes)
    requires DecodeFirst(b).Some?
    ensures var (cp, n) := DecodeFirst(b).value; EncodeScalar(cp) == b[..n]
  {
    var (cp, n) := DecodeFirst(b).value;
    if n == 2 {
      SplitJoin2(b[0], b[1]);
    } else if n == 3 {
      SplitJoin3(b[0], b[1], b[2]);
    } else if n == 4 {
      SplitJoin4(b[0], b[1], b[2], b[3]);
    }
  }

  lemma UnitsScalar(s: Text)
    requires s != [] && (StartsWithPair(s) || (!IsHigh(s[0]) && !IsLow(s[0])))
    ensures Units(Scalar(s)) == s[..(if StartsWithPair(s) then 2 else 1)]
  {
  }

  lemma ScalarCons(cp: int, rest: Text)
    requires 0 <= cp <= 0x10_FFFF && !(0xD800 <= cp < 0xE000)
    ensures Utf8(Units(cp) + rest) == EncodeScalar(cp) + Utf8(rest)
    ensures WellFormed(Units(cp) + rest) == WellFormed(rest)
  {
    var s := Units(cp) + rest;
    assert s[|Units(cp)|..] == rest;
    assert s[0] == Units(cp)[0];
    if cp >= 0x1_0000 {
      assert s[1] == Units(cp)[1];
      assert StartsWithPair(s) && Scalar(s) == cp;
    } else {
      assert !StartsWithPair(s) && Scalar(s) == cp;
    }
  }

  /** Text without lone surrogates survives the trip through UTF-8. */
  lemma {:induction false} Utf8RoundTrip(s: Text)
    requires WellFormed(s)
    ensures DecodeUtf8(Utf8(s)) == Some(s)
  {
    if s != [] {
      var k := if StartsWithPair(s) then 2 else 1;
      var e := EncodeScalar(Scalar(s));
      Utf8RoundTrip(s[k..]);
      DecodeFirstEncode(Scalar(s), Utf8(s[k..]));
      assert Utf8(s)[|e|..] == Utf8(s[k..]);
      UnitsScalar(s);
      assert s == s[..k] + s[k..];
    }
  }

  /** The bytes `DecodeUtf8` accepts are exactly the encodings of well-formed text. */
  lemma {:induction false} Utf8Onto(b: Bytes)
    requires ValidUtf8(b)
    ensures WellFormed(DecodeUtf8(b).value) && Utf8(DecodeUtf8(b).value) == b
  {
    if b != [] {
      var (cp, n) := DecodeFirst(b).value;
      Utf8Onto(b[n..]);
      EncodeDecodeFirst(b);
      ScalarCons(cp, DecodeUtf8(b[n..]).value);
      assert b == b[..n] + b[n..];
    }
  }

  /** Distinct well-formed texts have distinct bytes. */
  lemma Utf8Injective(s: Text, t: Text)
    requires WellFormed(s) && WellFormed(t) && Utf8(s) == Utf8(t)
    ensures s == t
  {
    Utf8RoundTrip(s);
    Utf8RoundTrip(t);
  }

  /** A lone surrogate is written as the replacement character, in three bytes. */
  lemma LoneReplaced(u: Unit, rest: Text)
    requires (IsHigh(u) && !(rest != [] && IsLow(rest[0]))) || IsLow(u)
    ensures Utf8([u] + rest) == [0xEF, 0xBF, 0xBD] + Utf8(rest)
  {
    var s := [u] + rest;
    assert s[1..] == rest && !StartsWithPair(s);
    assert EncodeScalar(0xFFFD) == [0xEF, 0xBF, 0xBD];
  }
}
