/** The guest's base64 encoder (guest/src/ui_sidecar.rs) and group decoder (guest/src/service.rs). */
module Base64 {
  import opened Wrappers
  import opened Bits
  import opened Utf

  datatype Decoded = Ok(bytes: Bytes) | InvalidByte(b: Byte) | InvalidLength

  const PAD: Byte := 61

  /** The alphabet table, indexed by a six-bit value. */
  function Letter(v: int): (c: Byte)
    requires 0 <= v < 64
  {
    if v < 26 then v + 65
    else if v < 52 then v + 71
    else if v < 62 then v - 4
    else if v == 62 then 43
    else 47
  }

  /** The value of a symbol; `=` counts as 64. */
  function Value(c: int): (v: Option<int>)
    ensures v.Some? ==> 0 <= v.value <= 64
  {
    if 65 <= c <= 90 then Some(c - 65)
    else if 97 <= c <= 122 then Some(c - 71)
    else if 48 <= c <= 57 then Some(c + 4)
    else if c == 43 then Some(62)
    else if c == 47 then Some(63)
    else if c == PAD then Some(64)
    else None
  }

  lemma LetterValue(v: int)
    requires 0 <= v < 64
    ensures Value(Letter(v)) == Some(v) && Letter(v) != PAD && !IsSpace(Letter(v))
  {
  }

  predicate IsSpace(c: Byte) { c == 32 || c == 9 || c == 10 || c == 12 || c == 13 }

  /** `a | b` on bytes. */
  function OrByte(a: int, b: int): (r: Byte)
    requires 0 <= a < 256 && 0 <= b < 256
  {
    assert Pow2(8) == 256;
    OrBound(a, b, 8);
    Or(a, b)
  }

  // ----- Specifications -----

  function EncodeChunk(chunk: Bytes): (t: Bytes)
    requires 1 <= |chunk| <= 3
    ensures |t| == 4
  {
    var b0: int := chunk[0];
    var b1: int := if |chunk| > 1 then chunk[1] else 0;
    var b2: int := if |chunk| > 2 then chunk[2] else 0;
    [ Letter(b0 / 4),
      Letter(Second(b0, b1)),
      if |chunk| > 1 then Letter(Third(b1, b2)) else PAD,
      if |chunk| > 2 then Letter(b2 % 64) else PAD ]
  }

  /** `((b0 & 3) << 4) | (b1 >> 4)` */
  function Second(b0: int, b1: int): (v: int)
    requires 0 <= b0 < 256 && 0 <= b1 < 256
    ensures v == b0 % 4 * 16 + b1 / 16 && 0 <= v < 64
  {
    assert Pow2(4) == 16;
    ClearShifted(b0 % 4);
    OrDisjoint(b0 % 4 * 16, 4, b1 / 16);
    OrByte(b0 % 4 * 16, b1 / 16)
  }

  /** `((b1 & 15) << 2) | (b2 >> 6)` */
  function Third(b1: int, b2: int): (v: int)
    requires 0 <= b1 < 256 && 0 <= b2 < 256
    ensures v == b1 % 16 * 4 + b2 / 64 && 0 <= v < 64
  {
    assert Pow2(2) == 4;
    ClearShifted(b1 % 16);
    OrDisjoint(b1 % 16 * 4, 2, b2 / 64);
    OrByte(b1 % 16 * 4, b2 / 64)
  }

  function ChunkLength(x: Bytes): nat { if |x| < 3 then |x| else 3 }

  function Encode(x: Bytes): (t: Bytes)
    ensures |t| % 4 == 0
  {
    if x == [] then [] else EncodeChunk(x[..ChunkLength(x)]) + Encode(x[ChunkLength(x)..])
  }

  /** The bytes the decoders look at. */
  function Significant(t: Bytes): (s: Bytes) {
    if t == [] then []
    else if IsSpace(t[0]) then Significant(t[1..])
    else [t[0]] + Significant(t[1..])
  }

  function FirstInvalid(s: Bytes): (r: Option<Byte>) {
    if s == [] then None else if Value(s[0]) == None then Some(s[0]) else FirstInvalid(s[1..])
  }

  /** Four values to three, two or one byte; a 64 in the third or fourth place suppresses a byte. */
  function DecodeGroup(v0: int, v1: int, v2: int, v3: int): (x: Bytes)
    requires 0 <= v0 <= 64 && 0 <= v1 <= 64 && 0 <= v2 <= 64 && 0 <= v3 <= 64
  {
    [OrByte(v0 * 4 % 256, v1 / 16)]
    + (if v2 != 64 then [OrByte(v1 * 16 % 256, v2 / 4)] else [])
    + (if v3 != 64 then [OrByte(v2 * 64 % 256, v3)] else [])
  }

  function ValueOf(c: int): (v: int)
    ensures 0 <= v <= 64
  {
    if Value(c).Some? then Value(c).value else 0
  }

  function DecodeSymbols(g: Bytes): (x: Bytes) {
    if |g| != 4 then [] else DecodeGroup(ValueOf(g[0]), ValueOf(g[1]), ValueOf(g[2]), ValueOf(g[3]))
  }

  /** `f` on each group of four, concatenated. */
  function ByFours(s: Bytes, f: Bytes -> Bytes): (x: Bytes) {
    if |s| < 4 then [] else f(s[..4]) + ByFours(s[4..], f)
  }

  function DecodeGroups(s: Bytes): (x: Bytes) { ByFours(s, DecodeSymbols) }

  function Decode(t: Bytes): (r: Decoded) {
    var s := Significant(t);
    if FirstInvalid(s).Some? then InvalidByte(FirstInvalid(s).value)
    else if |s| % 4 != 0 then InvalidLength
    else Ok(DecodeGroups(s))
  }

  // ----- The encoder's loop -----

  method EncodeBase64(bytes: Bytes) returns (out: Bytes)
    ensures out == Encode(bytes)
  {
    out := [];
    var i := 0;
    assert bytes[0..] == bytes && [] + Encode(bytes) == Encode(bytes);
    while i < |bytes|
      invariant 0 <= i <= |bytes|
      invariant out + Encode(bytes[i..]) == Encode(bytes)
    {
      var n := if |bytes| - i < 3 then |bytes| - i else 3;
      EncodeStep(out, bytes, i, n);
      out := PushChunk(out, bytes[i..i + n]);
      i := i + n;
    }
    assert bytes[i..] == [] && out + [] == out;
  }

  lemma EncodeStep(out: Bytes, bytes: Bytes, i: nat, n: nat)
    requires i < |bytes| && n == if |bytes| - i < 3 then |bytes| - i else 3
    ensures out + Encode(bytes[i..]) == out + EncodeChunk(bytes[i..i + n]) + Encode(bytes[i + n..])
  {
    var chunk, rest := EncodeChunk(bytes[i..i + n]), Encode(bytes[i + n..]);
    assert bytes[i..][..n] == bytes[i..i + n] && bytes[i..][n..] == bytes[i + n..];
    assert out + (chunk + rest) == out + chunk + rest;
  }

  method PushChunk(out: Bytes, chunk: Bytes) returns (r: Bytes)
    requires 1 <= |chunk| <= 3
    ensures r == out + EncodeChunk(chunk)
  {
    var b0 := chunk[0];
    var b1 := if |chunk| > 1 then chunk[1] else 0;
    var b2 := if |chunk| > 2 then chunk[2] else 0;
    r := out + [Letter(b0 / 4)];
    r := r + [Letter(Second(b0, b1))];
    if |chunk| > 1 {
      r := r + [Letter(Third(b1, b2))];
    } else {
      r := r + [PAD];
    }
    if |chunk| > 2 {
      r := r + [Letter(b2 % 64)];
    } else {
      r := r + [PAD];
    }
  }

  // ----- The group decoder's loop -----

  lemma {:induction false} SignificantConcat(t: Bytes, u: Bytes)
    ensures Significant(t + u) == Significant(t) + Significant(u)
  {
    if t == [] {
      assert t + u == u;
    } else {
      SignificantConcat(t[1..], u);
      assert (t + u)[0] == t[0] && (t + u)[1..] == t[1..] + u;
      assert [t[0]] + (Significant(t[1..]) + Significant(u)) == [t[0]] + Significant(t[1..]) + Significant(u);
    }
  }

  lemma SignificantOne(c: Byte)
    ensures Significant([c]) == if IsSpace(c) then [] else [c]
  {
  }

  lemma {:induction false} FirstInvalidConcat(s: Bytes, u: Bytes)
    ensures FirstInvalid(s + u) == if FirstInvalid(s).Some? then FirstInvalid(s) else FirstInvalid(u)
  {
    if s == [] {
      assert s + u == u;
    } else {
      FirstInvalidConcat(s[1..], u);
      assert (s + u)[1..] == s[1..] + u;
    }
  }

  lemma {:induction false} ByFoursConcat(s: Bytes, groups: nat, u: Bytes, f: Bytes -> Bytes)
    requires |s| == 4 * groups
    ensures ByFours(s + u, f) == ByFours(s, f) + ByFours(u, f)
  {
    if groups == 0 {
      assert s + u == u;
    } else {
      var first, rest := f(s[..4]), ByFours(s[4..], f);
      ByFoursConcat(s[4..], groups - 1, u, f);
      assert (s + u)[..4] == s[..4] && (s + u)[4..] == s[4..] + u;
      assert first + (rest + ByFours(u, f)) == first + rest + ByFours(u, f);
    }
  }

  lemma ByFoursSnoc(s: Bytes, groups: nat, g: Bytes, f: Bytes -> Bytes)
    requires |s| == 4 * groups && |g| == 4
    ensures ByFours(s + g, f) == ByFours(s, f) + f(g)
  {
    ByFoursConcat(s, groups, g, f);
    assert g[..4] == g;
  }

  /** `s` is what counts among the first `i` bytes, and all of it is valid. */
  ghost predicate Scanned(input: Bytes, i: nat, s: Bytes) {
    i <= |input| && s == Significant(input[..i]) && FirstInvalid(s) == None
  }

  lemma AcceptAt(input: Bytes, i: nat, complete: Bytes, pending: Bytes)
    requires i < |input| && Scanned(input, i, complete + pending)
    ensures IsSpace(input[i]) ==> Scanned(input, i + 1, complete + pending)
    ensures !IsSpace(input[i]) && Value(input[i]).Some? ==>
              Scanned(input, i + 1, complete + (pending + [input[i]])) &&
              Scanned(input, i + 1, complete + (pending + [input[i]]) + [])
  {
    var s := complete + pending;
    assert input[..i + 1] == input[..i] + [input[i]];
    SignificantConcat(input[..i], [input[i]]);
    SignificantOne(input[i]);
    FirstInvalidConcat(s, [input[i]]);
    assert s + [input[i]] == complete + (pending + [input[i]]) == complete + (pending + [input[i]]) + [];
  }

  lemma RejectAt(input: Bytes, i: nat, s: Bytes)
    requires i < |input| && Scanned(input, i, s)
    requires !IsSpace(input[i]) && Value(input[i]) == None
    ensures Decode(input) == InvalidByte(input[i])
  {
    var rest := [input[i]] + input[i + 1..];
    assert input == input[..i] + rest;
    SignificantConcat(input[..i], rest);
    SignificantConcat([input[i]], input[i + 1..]);
    SignificantOne(input[i]);
    FirstInvalidConcat(s, Significant(rest));
  }

  lemma AcceptAll(input: Bytes, s: Bytes, groups: nat, len: nat)
    requires Scanned(input, |input|, s) && |s| == 4 * groups + len && len < 4
    ensures Decode(input) == if len != 0 then InvalidLength else Ok(DecodeGroups(s))
  {
    assert input[..|input|] == input;
  }

  /** `g` are the symbols whose values are in `buf`. */
  method PushGroup(out: Bytes, buf: array<int>, ghost g: Bytes) returns (r: Bytes)
    requires buf.Length == |g| == 4 && forall k :: 0 <= k < 4 ==> buf[k] == ValueOf(g[k])
    ensures r == out + DecodeSymbols(g)
  {
    r := out + [OrByte(buf[0] * 4 % 256, buf[1] / 16)];
    if buf[2] != 64 {
      r := r + [OrByte(buf[1] * 16 % 256, buf[2] / 4)];
    }
    if buf[3] != 64 {
      r := r + [OrByte(buf[2] * 64 % 256, buf[3])];
    }
  }

  /** Completes a group: `complete` are the groups already in `out`. */
  method FlushGroup(out: Bytes, buf: array<int>, ghost complete: Bytes, ghost groups: nat, ghost g: Bytes)
    returns (r: Bytes)
    requires buf.Length == |g| == 4 && forall k :: 0 <= k < 4 ==> buf[k] == ValueOf(g[k])
    requires |complete| == 4 * groups && out == DecodeGroups(complete)
    ensures r == DecodeGroups(complete + g)
  {
    ByFoursSnoc(complete, groups, g, DecodeSymbols);
    r := PushGroup(out, buf, g);
  }

  method DecodeBase64(input: Bytes) returns (r: Decoded)
    ensures r == Decode(input)
  {
    var out: Bytes := [];
    var buf := new int[4](_ => 0);
    var len := 0;
    // The significant bytes so far: complete groups, already in `out`, then those whose values are in `buf`.
    ghost var complete: Bytes, groups, pending: Bytes := [], 0, [];
    for i := 0 to |input|
      invariant Scanned(input, i, complete + pending)
      invariant len == |pending| < 4 && |complete| == 4 * groups
      invariant out == DecodeGroups(complete)
      invariant forall k :: 0 <= k < len ==> buf[k] == ValueOf(pending[k])
    {
      AcceptAt(input, i, complete, pending);
      if !IsSpace(input[i]) {
        var v := Value(input[i]);
        if v == None {
          RejectAt(input, i, complete + pending);
          return InvalidByte(input[i]);
        }
        pending := pending + [input[i]];
        buf[len] := v.value;
        len := len + 1;
        if len == 4 {
          out := FlushGroup(out, buf, complete, groups, pending);
          complete, groups, pending := complete + pending, groups + 1, [];
          len := 0;
        }
      }
    }
    AcceptAll(input, complete + pending, groups, len);
    if len != 0 {
      return InvalidLength;
    }
    assert complete + pending == complete;
    r := Ok(out);
  }
}
