/** What the base64 routines promise of each other. */
module Base64Laws {
  import opened Wrappers
  import opened Bits
  import opened Utf
  import opened Base64

  // ----- One group -----

  lemma OrSum(x: int, n: nat, lo: int)
    requires (n == 2 && 0 <= x < 64 && 0 <= lo < 4 && x * 4 < 256)
             || (n == 4 && 0 <= x < 16 && 0 <= lo < 16)
             || (n == 6 && 0 <= x < 4 && 0 <= lo < 64)
    ensures n == 2 ==> OrByte(x * 4, lo) == x * 4 + lo
    ensures n == 4 ==> OrByte(x * 16, lo) == x * 16 + lo
    ensures n == 6 ==> OrByte(x * 64, lo) == x * 64 + lo
  {
    ClearShifted(x);
    assert Pow2(2) == 4 && Pow2(4) == 16 && Pow2(6) == 64;
    OrDisjoint(if n == 2 then x * 4 else if n == 4 then x * 16 else x * 64, n, lo);
  }

  lemma ModShift(x: int)
    requires 0 <= x < 64
    ensures x * 4 % 256 == x * 4 && x * 16 % 256 == x % 16 * 16 && x * 64 % 256 == x % 4 * 64
  {
  }

  /** On six-bit values the decoder's shifts and ors are plain arithmetic. */
  lemma FirstByte(v0: int, v1: int)
    requires 0 <= v0 < 64 && 0 <= v1 < 64
    ensures OrByte(v0 * 4 % 256, v1 / 16) == v0 * 4 + v1 / 16
  {
    ModShift(v0);
    OrSum(v0, 2, v1 / 16);
  }

  lemma SecondByte(v1: int, v2: int)
    requires 0 <= v1 < 64 && 0 <= v2 < 64
    ensures OrByte(v1 * 16 % 256, v2 / 4) == v1 % 16 * 16 + v2 / 4
  {
    ModShift(v1);
    OrSum(v1 % 16, 4, v2 / 4);
  }

  lemma ThirdByte(v2: int, v3: int)
    requires 0 <= v2 < 64 && 0 <= v3 < 64
    ensures OrByte(v2 * 64 % 256, v3) == v2 % 4 * 64 + v3
  {
    ModShift(v2);
    OrSum(v2 % 4, 6, v3);
  }

  lemma GroupSums(v0: int, v1: int, v2: int, v3: int)
    requires 0 <= v0 < 64 && 0 <= v1 < 64 && 0 <= v2 <= 64 && 0 <= v3 <= 64 && (v2 == 64 ==> v3 == 64)
    ensures DecodeGroup(v0, v1, v2, v3) ==
            [v0 * 4 + v1 / 16] + (if v2 < 64 then [v1 % 16 * 16 + v2 / 4] else [])
            + (if v3 < 64 then [v2 % 4 * 64 + v3] else [])
  {
    FirstByte(v0, v1);
    if v2 < 64 {
      SecondByte(v1, v2);
      if v3 < 64 {
        ThirdByte(v2, v3);
      }
    }
  }

  lemma SplitBytes(v0: int, v1: int, v2: int, v3: int)
    requires 0 <= v0 < 64 && 0 <= v1 < 64 && 0 <= v2 < 64 && 0 <= v3 < 64
    ensures var b0, b1, b2 := v0 * 4 + v1 / 16, v1 % 16 * 16 + v2 / 4, v2 % 4 * 64 + v3;
            && b0 / 4 == v0 && b0 % 4 * 16 + b1 / 16 == v1
            && b1 % 16 * 4 + b2 / 64 == v2 && b2 % 64 == v3
  {
  }

  predicate IsLetter(c: Byte) { Value(c).Some? && Value(c).value < 64 }

  lemma LetterOf(c: Byte)
    requires IsLetter(c)
    ensures Letter(Value(c).value) == c && !IsSpace(c) && c != PAD
  {
  }

  /** A group as the encoder prints it; only the last one may be padded, with its unused bits zero. */
  predicate CanonicalGroup(g: Bytes, last: bool)
    requires |g| == 4
  {
    && IsLetter(g[0]) && IsLetter(g[1])
    && if IsLetter(g[3]) then IsLetter(g[2])
       else
         && last && g[3] == PAD
         && if IsLetter(g[2]) then ValueOf(g[2]) % 4 == 0 else g[2] == PAD && ValueOf(g[1]) % 16 == 0
  }

  lemma JoinSextets(b0: int, b1: int, b2: int)
    requires 0 <= b0 < 256 && 0 <= b1 < 256 && 0 <= b2 < 256
    ensures var v1, v2 := b0 % 4 * 16 + b1 / 16, b1 % 16 * 4 + b2 / 64;
            && b0 / 4 * 4 + v1 / 16 == b0 && v1 % 16 * 16 + v2 / 4 == b1 && v2 % 4 * 64 + b2 % 64 == b2
            && (b1 == 0 ==> v1 % 16 == 0) && (b2 == 0 ==> v2 % 4 == 0)
  {
  }

  lemma ChunkSymbols(chunk: Bytes)
    requires 1 <= |chunk| <= 3
    ensures var b1, b2 := if |chunk| > 1 then chunk[1] else 0, if |chunk| > 2 then chunk[2] else 0;
            var g := EncodeChunk(chunk);
            && ValueOf(g[0]) == chunk[0] / 4 && ValueOf(g[1]) == Second(chunk[0], b1)
            && ValueOf(g[2]) == (if |chunk| > 1 then Third(b1, b2) else 64)
            && ValueOf(g[3]) == (if |chunk| > 2 then b2 % 64 else 64)
            && IsLetter(g[0]) && IsLetter(g[1])
            && (if |chunk| > 1 then IsLetter(g[2]) else g[2] == PAD)
            && (if |chunk| > 2 then IsLetter(g[3]) else g[3] == PAD)
  {
    var b1, b2 := if |chunk| > 1 then chunk[1] else 0, if |chunk| > 2 then chunk[2] else 0;
    LetterValue(chunk[0] / 4);
    LetterValue(Second(chunk[0], b1));
    LetterValue(Third(b1, b2));
    LetterValue(b2 % 64);
  }

  lemma ChunkCanonical(chunk: Bytes)
    requires 1 <= |chunk| <= 3
    ensures CanonicalGroup(EncodeChunk(chunk), |chunk| < 3)
  {
    ChunkSymbols(chunk);
    JoinSextets(chunk[0], if |chunk| > 1 then chunk[1] else 0, if |chunk| > 2 then chunk[2] else 0);
  }

  lemma OneDecoded(b0: Byte)
    ensures DecodeGroup(b0 / 4, Second(b0, 0), 64, 64) == [b0]
  {
    JoinSextets(b0, 0, 0);
    GroupSums(b0 / 4, Second(b0, 0), 64, 64);
  }

  lemma TwoDecoded(b0: Byte, b1: Byte)
    ensures DecodeGroup(b0 / 4, Second(b0, b1), Third(b1, 0), 64) == [b0, b1]
  {
    JoinSextets(b0, b1, 0);
    GroupSums(b0 / 4, Second(b0, b1), Third(b1, 0), 64);
  }

  lemma ThreeDecoded(b0: Byte, b1: Byte, b2: Byte)
    ensures DecodeGroup(b0 / 4, Second(b0, b1), Third(b1, b2), b2 % 64) == [b0, b1, b2]
  {
    JoinSextets(b0, b1, b2);
    GroupSums(b0 / 4, Second(b0, b1), Third(b1, b2), b2 % 64);
  }

  lemma ChunkGroup(chunk: Bytes)
    requires 1 <= |chunk| <= 3
    ensures CanonicalGroup(EncodeChunk(chunk), |chunk| < 3)
    ensures DecodeSymbols(EncodeChunk(chunk)) == chunk
  {
    ChunkCanonical(chunk);
    ChunkSymbols(chunk);
    if |chunk| == 1 {
      OneDecoded(chunk[0]);
      assert chunk == [chunk[0]];
    } else if |chunk| == 2 {
      TwoDecoded(chunk[0], chunk[1]);
      assert chunk == [chunk[0], chunk[1]];
    } else {
      ThreeDecoded(chunk[0], chunk[1], chunk[2]);
      assert chunk == [chunk[0], chunk[1], chunk[2]];
    }
  }

  lemma LettersChunk(v0: int, v1: int, v2: int, v3: int, n: nat)
    requires 0 <= v0 < 64 && 0 <= v1 < 64 && 0 <= v2 < 64 && 0 <= v3 < 64 && 1 <= n <= 3
    requires (n < 3 ==> v3 == 0 && v2 % 4 == 0) && (n < 2 ==> v2 == 0 && v1 % 16 == 0)
    ensures var b: Bytes := [v0 * 4 + v1 / 16, v1 % 16 * 16 + v2 / 4, v2 % 4 * 64 + v3];
            EncodeChunk(b[..n]) ==
            [Letter(v0), Letter(v1), if n > 1 then Letter(v2) else PAD, if n > 2 then Letter(v3) else PAD]
  {
    SplitBytes(v0, v1, v2, v3);
  }

  lemma GroupValues(g: Bytes, last: bool) returns (n: nat, v2: int, v3: int)
    requires |g| == 4 && CanonicalGroup(g, last)
    ensures 1 <= n <= 3 && 0 <= v2 < 64 && 0 <= v3 < 64 && ValueOf(g[0]) < 64 && ValueOf(g[1]) < 64
    ensures (n < 3 ==> last && v3 == 0 && v2 % 4 == 0) && (n < 2 ==> v2 == 0 && ValueOf(g[1]) % 16 == 0)
    ensures g == [Letter(ValueOf(g[0])), Letter(ValueOf(g[1])),
                  if n > 1 then Letter(v2) else PAD, if n > 2 then Letter(v3) else PAD]
    ensures ValueOf(g[2]) == (if n > 1 then v2 else 64) && ValueOf(g[3]) == (if n > 2 then v3 else 64)
  {
    LetterOf(g[0]);
    LetterOf(g[1]);
    n, v2, v3 := 1, 0, 0;
    if IsLetter(g[2]) {
      LetterOf(g[2]);
      n, v2 := 2, ValueOf(g[2]);
    }
    if IsLetter(g[3]) {
      LetterOf(g[3]);
      n, v3 := 3, ValueOf(g[3]);
    }
  }

  lemma GroupChunk(g: Bytes, last: bool)
    requires |g| == 4 && CanonicalGroup(g, last)
    ensures 1 <= |DecodeSymbols(g)| <= 3 && (!last ==> |DecodeSymbols(g)| == 3)
    ensures EncodeChunk(DecodeSymbols(g)) == g
  {
    var n, v2, v3 := GroupValues(g, last);
    var v0, v1 := ValueOf(g[0]), ValueOf(g[1]);
    GroupSums(v0, v1, ValueOf(g[2]), ValueOf(g[3]));
    var b: Bytes := [v0 * 4 + v1 / 16, v1 % 16 * 16 + v2 / 4, v2 % 4 * 64 + v3];
    assert DecodeSymbols(g) == DecodeGroup(v0, v1, ValueOf(g[2]), ValueOf(g[3]));
    assert b[..1] == [b[0]] && b[..2] == [b[0], b[1]] && b[..3] == b;
    assert DecodeSymbols(g) == b[..n];
    LettersChunk(v0, v1, v2, v3, n);
  }

  // ----- Whole texts -----

  predicate Canonical(s: Bytes) {
    s == [] || (|s| >= 4 && CanonicalGroup(s[..4], |s| == 4) && Canonical(s[4..]))
  }

  lemma ChunkCons(chunk: Bytes, rest: Bytes)
    requires 1 <= |chunk| <= 3 && (|chunk| < 3 ==> rest == []) && Canonical(rest)
    ensures Canonical(EncodeChunk(chunk) + rest)
    ensures DecodeGroups(EncodeChunk(chunk) + rest) == chunk + DecodeGroups(rest)
  {
    var g := EncodeChunk(chunk);
    ChunkGroup(chunk);
    assert (g + rest)[..4] == g && (g + rest)[4..] == rest;
  }

  lemma {:induction false} EncodeCanonical(x: Bytes)
    ensures Canonical(Encode(x)) && DecodeGroups(Encode(x)) == x
  {
    if |x| > 3 {
      EncodeCanonical(x[3..]);
      ChunkCons(x[..3], Encode(x[3..]));
      assert x == x[..3] + x[3..];
    } else if x != [] {
      ChunkCons(x, []);
      assert x[..|x|] == x && x[|x|..] == [];
      assert Encode(x) == EncodeChunk(x) + [];
      assert DecodeGroups([]) == [] && x + [] == x;
    }
  }

  lemma {:induction false} CanonicalScans(s: Bytes)
    requires Canonical(s)
    ensures Significant(s) == s && FirstInvalid(s) == None && |s| % 4 == 0
  {
    if s != [] {
      var g := s[..4];
      CanonicalScans(s[4..]);
      GroupScans(g, |s| == 4);
      assert s == g + s[4..];
      SignificantConcat(g, s[4..]);
      FirstInvalidConcat(g, s[4..]);
    }
  }

  lemma GroupScans(g: Bytes, last: bool)
    requires |g| == 4 && CanonicalGroup(g, last)
    ensures Significant(g) == g && FirstInvalid(g) == None
  {
    ScansEach(g);
  }

  lemma {:induction false} ScansEach(s: Bytes)
    requires forall k :: 0 <= k < |s| ==> !IsSpace(s[k]) && Value(s[k]).Some?
    ensures Significant(s) == s && FirstInvalid(s) == None
  {
    if s != [] {
      ScansEach(s[1..]);
      assert s == [s[0]] + s[1..];
    }
  }

  lemma {:induction false} CanonicalReencodes(s: Bytes)
    requires Canonical(s)
    ensures Encode(DecodeGroups(s)) == s
  {
    if s != [] {
      var x, rest := DecodeSymbols(s[..4]), DecodeGroups(s[4..]);
      GroupChunk(s[..4], |s| == 4);
      CanonicalReencodes(s[4..]);
      assert |s| == 4 ==> rest == [];
      assert (x + rest)[..|x|] == x && (x + rest)[|x|..] == rest;
      assert s == s[..4] + s[4..];
    }
  }

  /** Decoding undoes encoding, wherever ASCII whitespace has been put into the encoded text. */
  lemma DecodeEncode(x: Bytes, t: Bytes)
    requires Significant(t) == Encode(x)
    ensures Decode(t) == Ok(x)
  {
    EncodeCanonical(x);
    CanonicalScans(Encode(x));
  }

  /** Re-encoding what was decoded gives the text back exactly for the canonical texts. */
  lemma CanonicalTexts(t: Bytes)
    ensures Decode(t).Ok? && Encode(Decode(t).bytes) == t <==> Canonical(t)
  {
    if Canonical(t) {
      CanonicalScans(t);
      CanonicalReencodes(t);
    }
    if Decode(t).Ok? {
      EncodeCanonical(Decode(t).bytes);
    }
  }

  lemma {:induction false} ValidThroughout(t: Bytes)
    ensures FirstInvalid(Significant(t)) == None <==> forall c :: c in t ==> IsSpace(c) || Value(c).Some?
  {
    if t != [] {
      ValidThroughout(t[1..]);
      SignificantOne(t[0]);
      assert t == [t[0]] + t[1..];
      SignificantConcat([t[0]], t[1..]);
      FirstInvalidConcat(Significant([t[0]]), Significant(t[1..]));
      assert IsSpace(t[0]) || Value(t[0]).Some? <==> FirstInvalid(Significant([t[0]])) == None;
      assert forall c :: c in t <==> c == t[0] || c in t[1..];
    }
  }

  /** Decoding succeeds exactly on texts over the 65 symbols and whitespace whose symbols come in fours. */
  lemma DecodeSucceeds(t: Bytes)
    ensures Decode(t).Ok? <==>
            (forall c :: c in t ==> IsSpace(c) || Value(c).Some?) && |Significant(t)| % 4 == 0
  {
    ValidThroughout(t);
  }
}
