/** The bit-accumulator decoder of guest/src/main.rs and its agreement with the group decoder. */
module Base64Accumulator {
  import opened Bits
  import opened Utf
  import opened Base64
  import opened Base64Laws

  const U32: int := 0x1_0000_0000

  /** Bits held back between symbols: an even number below eight, and no more value than they can hold. */
  predicate Held(buf: nat, bits: nat) {
    && (bits == 0 || bits == 2 || bits == 4 || bits == 6)
    && buf < Pow2(bits)
  }

  predicate Skipped(c: Byte) { c == PAD || IsSpace(c) }

  /** `(buf << 6) | idx` on `u32` */
  function Shifted(buf: nat, idx: nat): nat { Or(buf * 64 % U32, idx) }

  /** From six held-back bits at most the shift neither overflows nor overlaps. */
  lemma ShiftedSum(buf: nat, bits: nat, idx: nat)
    requires Held(buf, bits) && idx < 64
    ensures Shifted(buf, idx) == buf * 64 + idx && Shifted(buf, idx) < Pow2(bits + 6) <= 4096
  {
    assert Pow2(0) == 1 && Pow2(2) == 4 && Pow2(4) == 16 && Pow2(6) == 64;
    assert Pow2(8) == 256 && Pow2(10) == 1024 && Pow2(12) == 4096;
    ClearShifted(buf);
    assert buf * 64 % U32 == buf * 64;
    OrDisjoint(buf * 64, 6, idx);
  }

  function Prepend(x: Bytes, r: Decoded): Decoded {
    if r.Ok? then Ok(x + r.bytes) else r
  }

  /** What the loop returns for `t` with `bits` bits held back in `buf`. */
  function Accumulate(t: Bytes, buf: nat, bits: nat): (r: Decoded)
    requires Held(buf, bits)
    decreases |t|
  {
    if t == [] then Ok([])
    else if Skipped(t[0]) then Accumulate(t[1..], buf, bits)
    else if !IsLetter(t[0]) then InvalidByte(t[0])
    else
      var idx := ValueOf(t[0]);
      ShiftedSum(buf, bits, idx);
      var full := Shifted(buf, idx);
      if bits + 6 >= 8 then
        assert Pow2(0) == 1 && Pow2(2) == 4 && Pow2(4) == 16 && Pow2(6) == 64;
        Prepend([full / Pow2(bits - 2) % 256], Accumulate(t[1..], full % Pow2(bits - 2), bits - 2))
      else
        Accumulate(t[1..], full, bits + 6)
  }

  lemma PrependTwice(x: Bytes, y: Bytes, r: Decoded)
    ensures Prepend(x, Prepend(y, r)) == Prepend(x + y, r)
  {
    if r.Ok? {
      assert x + (y + r.bytes) == (x + y) + r.bytes;
    }
  }

  lemma AccumulateLetter(t: Bytes, buf: nat, bits: nat)
    requires Held(buf, bits) && t != [] && !Skipped(t[0]) && IsLetter(t[0])
    ensures var full := Shifted(buf, ValueOf(t[0]));
            if bits == 0 then
              Held(full, 6) && Accumulate(t, buf, bits) == Accumulate(t[1..], full, 6)
            else
              var p := Pow2(bits - 2);
              && Held(full % p, bits - 2)
              && Accumulate(t, buf, bits) == Prepend([full / p % 256], Accumulate(t[1..], full % p, bits - 2))
  {
    ShiftedSum(buf, bits, ValueOf(t[0]));
    assert Pow2(0) == 1 && Pow2(2) == 4 && Pow2(4) == 16 && Pow2(6) == 64;
  }

  method DecodeB64(input: Bytes) returns (r: Decoded)
    ensures r == Accumulate(input, 0, 0)
  {
    var buf: nat, bits: nat := 0, 0;
    var out: Bytes := [];
    assert Pow2(0) == 1;
    for i := 0 to |input|
      invariant Held(buf, bits)
      invariant Accumulate(input, 0, 0) == Prepend(out, Accumulate(input[i..], buf, bits))
    {
      var ch := input[i];
      assert input[i..][0] == ch && input[i..][1..] == input[i + 1..];
      if Skipped(ch) {
        continue;
      }
      if !IsLetter(ch) {
        return InvalidByte(ch);
      }
      AccumulateLetter(input[i..], buf, bits);
      buf := Shifted(buf, ValueOf(ch));
      bits := bits + 6;
      if bits >= 8 {
        bits := bits - 8;
        var byte: Byte := buf / Pow2(bits) % 256;
        buf := buf % Pow2(bits);
        PrependTwice(out, [byte], Accumulate(input[i + 1..], buf, bits));
        out := out + [byte];
      }
    }
    r := Ok(out);
  }

  // ----- Agreement with the group decoder -----

  lemma {:induction false} AccumulateSignificant(t: Bytes, buf: nat, bits: nat)
    requires Held(buf, bits)
    ensures Accumulate(t, buf, bits) == Accumulate(Significant(t), buf, bits)
    decreases |t|
  {
    if t != [] {
      var s := Significant(t);
      if IsSpace(t[0]) {
        AccumulateSignificant(t[1..], buf, bits);
        assert s == Significant(t[1..]);
      } else {
        assert s[0] == t[0] && s[1..] == Significant(t[1..]);
        if Skipped(t[0]) {
          AccumulateSignificant(t[1..], buf, bits);
        } else if IsLetter(t[0]) {
          AccumulateLetter(t, buf, bits);
          AccumulateLetter(s, buf, bits);
          var full := Shifted(buf, ValueOf(t[0]));
          if bits == 0 {
            AccumulateSignificant(t[1..], full, 6);
          } else {
            AccumulateSignificant(t[1..], full % Pow2(bits - 2), bits - 2);
          }
        }
      }
    }
  }

  /** One letter in front of `rest`, with the arithmetic spelled out. */
  lemma OneLetter(c: Byte, rest: Bytes, buf: nat, bits: nat)
    requires Held(buf, bits) && IsLetter(c)
    ensures bits == 0 ==>
              Held(ValueOf(c), 6) && Accumulate([c] + rest, buf, 0) == Accumulate(rest, ValueOf(c), 6)
    ensures bits != 0 ==>
              var full, p := buf * 64 + ValueOf(c), Pow2(bits - 2);
              && Held(full % p, bits - 2)
              && Accumulate([c] + rest, buf, bits) == Prepend([full / p % 256], Accumulate(rest, full % p, bits - 2))
  {
    LetterOf(c);
    AccumulateLetter([c] + rest, buf, bits);
    assert ([c] + rest)[1..] == rest;
    ShiftedSum(buf, bits, ValueOf(c));
    assert Pow2(0) == 1;
  }

  lemma FirstSplit(v0: nat, v1: nat)
    requires v0 < 64 && v1 < 64
    ensures (v0 * 64 + v1) / 16 % 256 == v0 * 4 + v1 / 16 && (v0 * 64 + v1) % 16 == v1 % 16
  {
    assert v0 * 64 + v1 == 16 * (v0 * 4 + v1 / 16) + v1 % 16;
  }

  lemma SecondSplit(v1: nat, v2: nat)
    requires v1 < 64 && v2 < 64
    ensures (v1 % 16 * 64 + v2) / 4 % 256 == v1 % 16 * 16 + v2 / 4 && (v1 % 16 * 64 + v2) % 4 == v2 % 4
  {
    assert v1 % 16 * 64 + v2 == 4 * (v1 % 16 * 16 + v2 / 4) + v2 % 4;
  }

  /** The first two symbols of a group give its first byte and leave four bits. */
  lemma TwoLetters(c0: Byte, c1: Byte, rest: Bytes)
    requires IsLetter(c0) && IsLetter(c1)
    ensures Held(0, 0) && Held(ValueOf(c1) % 16, 4)
    ensures Accumulate([c0, c1] + rest, 0, 0) ==
            Prepend([ValueOf(c0) * 4 + ValueOf(c1) / 16], Accumulate(rest, ValueOf(c1) % 16, 4))
  {
    var v0, v1 := ValueOf(c0), ValueOf(c1);
    assert Pow2(0) == 1 && Pow2(4) == 16;
    FirstSplit(v0, v1);
    OneLetter(c0, [c1] + rest, 0, 0);
    OneLetter(c1, rest, v0, 6);
    assert [c0, c1] + rest == [c0] + ([c1] + rest);
  }

  lemma ThirdLetter(v1: nat, c2: Byte, rest: Bytes)
    requires v1 < 64 && IsLetter(c2)
    ensures Held(v1 % 16, 4) && Held(ValueOf(c2) % 4, 2)
    ensures Accumulate([c2] + rest, v1 % 16, 4) ==
            Prepend([v1 % 16 * 16 + ValueOf(c2) / 4], Accumulate(rest, ValueOf(c2) % 4, 2))
  {
    var v2 := ValueOf(c2);
    assert Pow2(4) == 16 && Pow2(2) == 4;
    SecondSplit(v1, v2);
    OneLetter(c2, rest, v1 % 16, 4);
  }

  lemma FourthLetter(v2: nat, c3: Byte, rest: Bytes)
    requires v2 < 64 && IsLetter(c3)
    ensures Held(v2 % 4, 2) && Held(0, 0)
    ensures Accumulate([c3] + rest, v2 % 4, 2) == Prepend([v2 % 4 * 64 + ValueOf(c3)], Accumulate(rest, 0, 0))
  {
    assert Pow2(2) == 4 && Pow2(0) == 1;
    assert (v2 % 4 * 64 + ValueOf(c3)) % 256 == v2 % 4 * 64 + ValueOf(c3);
    OneLetter(c3, rest, v2 % 4, 2);
  }

  lemma TwoMoreLetters(v1: nat, c2: Byte, c3: Byte, rest: Bytes)
    requires v1 < 64 && IsLetter(c2) && IsLetter(c3)
    ensures Held(v1 % 16, 4) && Held(0, 0)
    ensures Accumulate([c2] + ([c3] + rest), v1 % 16, 4) ==
            Prepend([v1 % 16 * 16 + ValueOf(c2) / 4] + [ValueOf(c2) % 4 * 64 + ValueOf(c3)], Accumulate(rest, 0, 0))
  {
    ThirdLetter(v1, c2, [c3] + rest);
    FourthLetter(ValueOf(c2), c3, rest);
    PrependTwice([v1 % 16 * 16 + ValueOf(c2) / 4], [ValueOf(c2) % 4 * 64 + ValueOf(c3)], Accumulate(rest, 0, 0));
  }

  lemma SymbolsSum(g: Bytes)
    requires |g| == 4 && IsLetter(g[0]) && IsLetter(g[1]) && IsLetter(g[2]) && IsLetter(g[3])
    ensures var v0, v1, v2, v3 := ValueOf(g[0]), ValueOf(g[1]), ValueOf(g[2]), ValueOf(g[3]);
            DecodeSymbols(g) == [v0 * 4 + v1 / 16] + ([v1 % 16 * 16 + v2 / 4] + [v2 % 4 * 64 + v3])
  {
    GroupSums(ValueOf(g[0]), ValueOf(g[1]), ValueOf(g[2]), ValueOf(g[3]));
  }

  lemma SplitFour<T>(g: seq<T>, rest: seq<T>)
    requires |g| == 4
    ensures g + rest == [g[0], g[1]] + ([g[2]] + ([g[3]] + rest))
  {
  }

  lemma FourLetters(c0: Byte, c1: Byte, c2: Byte, c3: Byte, rest: Bytes)
    requires IsLetter(c0) && IsLetter(c1) && IsLetter(c2) && IsLetter(c3)
    ensures Held(0, 0)
    ensures var v0, v1, v2, v3 := ValueOf(c0), ValueOf(c1), ValueOf(c2), ValueOf(c3);
            Accumulate([c0, c1] + ([c2] + ([c3] + rest)), 0, 0) ==
            Prepend(
              [v0 * 4 + v1 / 16] + ([v1 % 16 * 16 + v2 / 4] + [v2 % 4 * 64 + v3]),
              Accumulate(rest, 0, 0))
  {
    var v1, v2, v3 := ValueOf(c1), ValueOf(c2), ValueOf(c3);
    TwoLetters(c0, c1, [c2] + ([c3] + rest));
    TwoMoreLetters(v1, c2, c3, rest);
    PrependTwice(
      [ValueOf(c0) * 4 + v1 / 16], [v1 % 16 * 16 + v2 / 4] + [v2 % 4 * 64 + v3], Accumulate(rest, 0, 0));
  }

  lemma FullGroup(g: Bytes, rest: Bytes)
    requires |g| == 4 && IsLetter(g[0]) && IsLetter(g[1]) && IsLetter(g[2]) && IsLetter(g[3])
    ensures Held(0, 0) && Accumulate(g + rest, 0, 0) == Prepend(DecodeSymbols(g), Accumulate(rest, 0, 0))
  {
    FourLetters(g[0], g[1], g[2], g[3], rest);
    SymbolsSum(g);
    SplitFour(g, rest);
  }

  lemma PadAtEnd(buf: nat, bits: nat)
    requires Held(buf, bits)
    ensures Accumulate([PAD], buf, bits) == Ok([]) && Accumulate([PAD] + [PAD], buf, bits) == Ok([])
  {
    assert [PAD][1..] == [] && ([PAD] + [PAD])[1..] == [PAD];
    assert Accumulate([PAD], buf, bits) == Accumulate([], buf, bits);
  }

  lemma PaddedSymbols(g: Bytes)
    requires |g| == 4 && IsLetter(g[0]) && IsLetter(g[1]) && g[3] == PAD && (IsLetter(g[2]) || g[2] == PAD)
    ensures var v0, v1, v2 := ValueOf(g[0]), ValueOf(g[1]), ValueOf(g[2]);
            DecodeSymbols(g) == [v0 * 4 + v1 / 16] + (if IsLetter(g[2]) then [v1 % 16 * 16 + v2 / 4] else [])
  {
    GroupSums(ValueOf(g[0]), ValueOf(g[1]), ValueOf(g[2]), 64);
  }

  lemma PaddedGroup(g: Bytes)
    requires |g| == 4 && IsLetter(g[0]) && IsLetter(g[1]) && g[3] == PAD && (IsLetter(g[2]) || g[2] == PAD)
    ensures Held(0, 0) && Accumulate(g, 0, 0) == Ok(DecodeSymbols(g))
  {
    var v1 := ValueOf(g[1]);
    TwoLetters(g[0], g[1], [g[2]] + [PAD]);
    assert g == [g[0], g[1]] + ([g[2]] + [PAD]);
    PaddedSymbols(g);
    if IsLetter(g[2]) {
      ThirdLetter(v1, g[2], [PAD]);
      PadAtEnd(ValueOf(g[2]) % 4, 2);
    } else {
      PadAtEnd(v1 % 16, 4);
    }
  }

  /** Padding only where the encoder puts it; the bits it leaves unused need not be zero. */
  predicate PaddedInPlace(g: Bytes, last: bool)
    requires |g| == 4
  {
    && IsLetter(g[0]) && IsLetter(g[1])
    && if IsLetter(g[3]) then IsLetter(g[2]) else last && g[3] == PAD && (IsLetter(g[2]) || g[2] == PAD)
  }

  predicate WellPadded(s: Bytes) {
    s == [] || (|s| >= 4 && PaddedInPlace(s[..4], |s| == 4) && WellPadded(s[4..]))
  }

  lemma {:induction false} CanonicalWellPadded(s: Bytes)
    requires Canonical(s)
    ensures WellPadded(s)
  {
    if s != [] {
      CanonicalWellPadded(s[4..]);
    }
  }

  lemma {:induction false} WellPaddedLength(s: Bytes)
    requires WellPadded(s)
    ensures |s| % 4 == 0
  {
    if s != [] {
      WellPaddedLength(s[4..]);
    }
  }

  lemma {:induction false} WellPaddedAgrees(s: Bytes)
    requires WellPadded(s)
    ensures Held(0, 0) && Accumulate(s, 0, 0) == Ok(DecodeGroups(s))
  {
    assert Pow2(0) == 1;
    if s != [] {
      var g := s[..4];
      WellPaddedAgrees(s[4..]);
      assert s == g + s[4..];
      if IsLetter(g[3]) {
        FullGroup(g, s[4..]);
      } else {
        assert s == g && DecodeGroups(s[4..]) == [];
        PaddedGroup(g);
      }
    }
  }

  /** The accumulator fails exactly at the first byte that is no symbol, as the group decoder does. */
  lemma {:induction false} FailsAtFirstInvalid(t: Bytes, buf: nat, bits: nat)
    requires Held(buf, bits)
    ensures match FirstInvalid(Significant(t))
            case Some(b) => Accumulate(t, buf, bits) == InvalidByte(b)
            case None => Accumulate(t, buf, bits).Ok?
    decreases |t|
  {
    if t != [] {
      var s := Significant(t);
      assert !IsSpace(t[0]) ==> s[0] == t[0] && s[1..] == Significant(t[1..]);
      if Skipped(t[0]) {
        FailsAtFirstInvalid(t[1..], buf, bits);
      } else if IsLetter(t[0]) {
        var full := Shifted(buf, ValueOf(t[0]));
        AccumulateLetter(t, buf, bits);
        if bits == 0 {
          FailsAtFirstInvalid(t[1..], full, 6);
        } else {
          FailsAtFirstInvalid(t[1..], full % Pow2(bits - 2), bits - 2);
        }
      }
    }
  }

  /** With white space anywhere, the two decoders agree on every text with a byte that is no symbol and on every text
      padded in place, and disagree on every other text whose symbols do not come in fours. */
  lemma DecodersAgree(t: Bytes)
    ensures Held(0, 0)
    ensures FirstInvalid(Significant(t)).Some? ==> Accumulate(t, 0, 0) == Decode(t)
    ensures WellPadded(Significant(t)) ==> Accumulate(t, 0, 0) == Decode(t) && Decode(t).Ok?
    ensures FirstInvalid(Significant(t)).None? && |Significant(t)| % 4 != 0 ==> Accumulate(t, 0, 0) != Decode(t)
  {
    assert Pow2(0) == 1;
    FailsAtFirstInvalid(t, 0, 0);
    if WellPadded(Significant(t)) {
      WellPaddedAgrees(Significant(t));
      WellPaddedLength(Significant(t));
      AccumulateSignificant(t, 0, 0);
    }
  }

  lemma AccumulatorDecodesEncoded(x: Bytes, t: Bytes)
    requires Significant(t) == Encode(x)
    ensures Held(0, 0) && Accumulate(t, 0, 0) == Ok(x)
  {
    EncodeCanonical(x);
    CanonicalWellPadded(Encode(x));
    DecodersAgree(t);
    DecodeEncode(x, t);
  }
}
