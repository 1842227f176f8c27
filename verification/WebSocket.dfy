/** WebSocket frames as the browser client writes and reads them (guest/src/ui_sidecar.rs; sections 5.2 and 5.3 of
    RFC 6455). Bit masks on bytes are written as arithmetic: `& 0x0f` is `% 16`, `| 0x80` on a smaller number is
    `+ 128`. */
module WebSocket {
  import opened Wrappers
  import opened Sequences
  import opened Bits
  import opened Utf

  type Mask = m: Bytes | |m| == 4 witness [0, 0, 0, 0]

  function XorByte(a: Byte, b: Byte): (r: Byte) {
    assert Pow2(8) == 256;
    XorBound(a, b, 8);
    Xor(a, b)
  }

  function Masked(p: Bytes, m: Mask): (r: Bytes)
    ensures |r| == |p| && forall i :: 0 <= i < |p| ==> r[i] == XorByte(p[i], m[i % 4])
  {
    seq(|p|, i requires 0 <= i < |p| => XorByte(p[i], m[i % 4]))
  }

  lemma MaskedTwice(p: Bytes, m: Mask)
    ensures Masked(Masked(p, m), m) == p
  {
    forall i | 0 <= i < |p|
      ensures Masked(Masked(p, m), m)[i] == p[i]
    {
      XorTwice(p[i], m[i % 4]);
    }
  }

  /** `r` is the exclusive or of `a` and `b`, bit by bit. */
  ghost predicate IsXor(r: Byte, a: Byte, b: Byte) { forall k: nat :: Bit(r, k) == (Bit(a, k) + Bit(b, k)) % 2 }

  lemma XorByteBits(a: Byte, b: Byte)
    ensures IsXor(XorByte(a, b), a, b)
  {
    forall k: nat
      ensures Bit(XorByte(a, b), k) == (Bit(a, k) + Bit(b, k)) % 2
    {
      XorBits(a, b, k);
    }
  }

  lemma MaskedBits(p: Bytes, m: Mask, i: nat)
    requires i < |p|
    ensures IsXor(Masked(p, m)[i], p[i], m[i % 4])
  {
    XorByteBits(p[i], m[i % 4]);
  }

  // ----- Big-endian numbers -----

  function BigEndian(n: nat, width: nat): (b: Bytes)
    ensures |b| == width
  {
    if width == 0 then [] else BigEndian(n / 256, width - 1) + [n % 256]
  }

  function FromBigEndian(b: Bytes): (n: nat) {
    if b == [] then 0 else FromBigEndian(b[..|b| - 1]) * 256 + b[|b| - 1]
  }

  function Pow256(k: nat): (p: nat)
    ensures p > 0
  {
    if k == 0 then 1 else 256 * Pow256(k - 1)
  }

  lemma {:induction false} BigEndianRead(n: nat, width: nat)
    requires n < Pow256(width)
    ensures FromBigEndian(BigEndian(n, width)) == n
  {
    if width > 0 {
      BigEndianRead(n / 256, width - 1);
      var b := BigEndian(n, width);
      assert b[..|b| - 1] == BigEndian(n / 256, width - 1);
    }
  }

  lemma {:induction false} BigEndianWrite(b: Bytes)
    ensures FromBigEndian(b) < Pow256(|b|) && BigEndian(FromBigEndian(b), |b|) == b
  {
    if b != [] {
      var front, last := b[..|b| - 1], b[|b| - 1];
      BigEndianWrite(front);
      assert FromBigEndian(b) / 256 == FromBigEndian(front) && FromBigEndian(b) % 256 == last;
      assert b == front + [last];
    }
  }

  /** The digits to the base 256, the highest first. */
  lemma {:induction false} BigEndianDigits(n: nat, width: nat, i: nat)
    requires i < width
    ensures BigEndian(n, width)[i] == n / Pow256(width - 1 - i) % 256
  {
    if i < width - 1 {
      BigEndianDigits(n / 256, width - 1, i);
      QuotientTwice(n, 256, Pow256(width - 2 - i));
    }
  }

  // ----- Frames -----

  /** A frame: its first byte (FIN, reserved bits and opcode), its mask if any, and its unmasked payload. */
  datatype Frame = Frame(first: Byte, mask: Option<Mask>, payload: Bytes)

  datatype LengthForm = Short | Medium | Long

  const U16_MAX: nat := 65535

  predicate Fits(form: LengthForm, n: nat) {
    match form
    case Short => n < 126
    case Medium => n < Pow256(2)
    case Long => n < Pow256(8)
  }

  function MinimalForm(n: nat): LengthForm {
    if n < 126 then Short else if n <= U16_MAX then Medium else Long
  }

  function LengthCode(form: LengthForm, n: nat): (c: Byte)
    requires Fits(form, n)
    ensures c < 128
  {
    match form
    case Short => n
    case Medium => 126
    case Long => 127
  }

  function ExtendedLength(form: LengthForm, n: nat): Bytes {
    match form
    case Short => []
    case Medium => BigEndian(n, 2)
    case Long => BigEndian(n, 8)
  }

  function MaskBytes(mask: Option<Mask>): Bytes { if mask.Some? then mask.value else [] }

  function MaskWith(mask: Option<Mask>, p: Bytes): (r: Bytes)
    ensures |r| == |p|
  {
    if mask.Some? then Masked(p, mask.value) else p
  }

  function Head(f: Frame, form: LengthForm): (b: Bytes)
    requires Fits(form, |f.payload|)
    ensures |b| == 2
  {
    [f.first, (if f.mask.Some? then 128 else 0) + LengthCode(form, |f.payload|)]
  }

  /** The wire form of a frame. Any length form the payload fits is well formed. */
  function EncodeFrame(f: Frame, form: LengthForm): (b: Bytes)
    requires Fits(form, |f.payload|)
  {
    Head(f, form) + ExtendedLength(form, |f.payload|) + MaskBytes(f.mask) + MaskWith(f.mask, f.payload)
  }

  function ClientFrame(payload: Bytes, mask: Mask): (f: Frame)
    ensures f.first % 16 == 1
  {
    Frame(0x81, Some(mask), payload)
  }

  /** `websocket_client_text_frame`. A Rust slice is shorter than 2^64. */
  method ClientTextFrame(payload: Bytes, mask: Mask) returns (frame: Bytes)
    requires |payload| < Pow256(8)
    ensures Fits(MinimalForm(|payload|), |payload|)
    ensures frame == EncodeFrame(ClientFrame(payload, mask), MinimalForm(|payload|))
    ensures SentMasked(frame, payload, mask)
  {
    ChosenFormFits(|payload|);
    frame := [0x81];
    if |payload| < 126 {
      frame := frame + [128 + |payload|];
      assert frame + [] == frame;
    } else if |payload| <= U16_MAX {
      frame := frame + [128 + 126];
      frame := frame + BigEndian(|payload|, 2);
    } else {
      frame := frame + [128 + 127];
      frame := frame + BigEndian(|payload|, 8);
    }
    ghost var f, form := ClientFrame(payload, mask), MinimalForm(|payload|);
    assert frame == Head(f, form) + ExtendedLength(form, |payload|);
    frame := frame + mask;
    EndsMasked(frame, payload, mask);
    frame := PushMasked(frame, payload, mask);
  }

  /** The frame ends in the payload, each byte combined by exclusive or with the next of the four mask bytes in turn. */
  ghost predicate SentMasked(frame: Bytes, payload: Bytes, mask: Mask) {
    && |frame| >= |payload|
    && forall i :: 0 <= i < |payload| ==> IsXor(frame[|frame| - |payload| + i], payload[i], mask[i % 4])
  }

  lemma EndsMasked(front: Bytes, payload: Bytes, mask: Mask)
    ensures SentMasked(front + Masked(payload, mask), payload, mask)
  {
    var sent := Masked(payload, mask);
    var frame := front + sent;
    forall i | 0 <= i < |payload|
      ensures IsXor(frame[|frame| - |payload| + i], payload[i], mask[i % 4])
    {
      MaskedBits(payload, mask, i);
      assert frame[|frame| - |payload| + i] == sent[i];
    }
  }

  method PushMasked(frame: Bytes, payload: Bytes, mask: Mask) returns (r: Bytes)
    ensures r == frame + Masked(payload, mask)
  {
    r := frame;
    for idx := 0 to |payload|
      invariant r == frame + Masked(payload, mask)[..idx]
    {
      r := r + [XorByte(payload[idx], mask[idx % |mask|])];
    }
    assert Masked(payload, mask)[..|payload|] == Masked(payload, mask);
  }

  lemma ChosenFormFits(n: nat)
    requires n < Pow256(8)
    ensures Fits(MinimalForm(n), n)
  {
    assert Pow256(2) == 65536;
  }

  /** No admissible length form is shorter than the one chosen. */
  lemma ChosenFormIsMinimal(f: Frame, form: LengthForm)
    requires Fits(form, |f.payload|)
    ensures Fits(MinimalForm(|f.payload|), |f.payload|)
    ensures |EncodeFrame(f, MinimalForm(|f.payload|))| <= |EncodeFrame(f, form)|
    ensures form != MinimalForm(|f.payload|) ==>
              |EncodeFrame(f, MinimalForm(|f.payload|))| < |EncodeFrame(f, form)|
  {
    assert Pow256(2) == 65536 && Pow256(8) > 65536;
  }

  // ----- Reading -----

  /** `read_exact`: the first `n` bytes and the rest, when that many are left. */
  function Take(s: Bytes, n: nat): (r: Option<(Bytes, Bytes)>) {
    if |s| < n then None else Some((s[..n], s[n..]))
  }

  function Width(code: Byte): nat { if code == 126 then 2 else if code == 127 then 8 else 0 }

  function ReadLength(code: Byte, s: Bytes): (r: Option<(nat, Bytes)>) {
    if Width(code) == 0 then Some((code, s))
    else
      match Take(s, Width(code))
      case None => None
      case Some((ext, rest)) => Some((FromBigEndian(ext), rest))
  }

  function ReadMask(masked: bool, s: Bytes): (r: Option<(Option<Mask>, Bytes)>) {
    if !masked then Some((None, s))
    else
      match Take(s, 4)
      case None => None
      case Some((m, rest)) => Some((Some(m), rest))
  }

  function ReadFrame(s: Bytes): (r: Option<(Frame, Bytes)>)
    ensures r.Some? ==> |r.value.1| < |s|
  {
    if |s| < 2 then None
    else
      match ReadLength(s[1] % 128, s[2..])
      case None => None
      case Some((len, s1)) =>
        match ReadMask(s[1] >= 128, s1)
        case None => None
        case Some((mask, s2)) =>
          match Take(s2, len)
          case None => None
          case Some((body, rest)) => Some((Frame(s[0], mask, MaskWith(mask, body)), rest))
  }

  datatype TextRead =
    | Message(payload: Bytes, rest: Bytes)
    | BadUtf8(rest: Bytes)
    | Closed(rest: Bytes)
    | EndOfStream

  /** `websocket_read_text`: frames that are neither text nor close are skipped, whatever their FIN bit. */
  function ReadText(s: Bytes): (r: TextRead)
    decreases |s|
  {
    match ReadFrame(s)
    case None => EndOfStream
    case Some((f, rest)) =>
      if f.first % 16 == 1 then if ValidUtf8(f.payload) then Message(f.payload, rest) else BadUtf8(rest)
      else if f.first % 16 == 8 then Closed(rest)
      else ReadText(rest)
  }

  lemma {:induction false} ReadTextShrinks(s: Bytes)
    ensures !ReadText(s).EndOfStream? ==> |ReadText(s).rest| < |s|
    decreases |s|
  {
    if ReadFrame(s).Some? {
      ReadTextShrinks(ReadFrame(s).value.1);
    }
  }

  lemma TakeFront(a: Bytes, b: Bytes)
    ensures Take(a + b, |a|) == Some((a, b))
  {
    assert (a + b)[..|a|] == a && (a + b)[|a|..] == b;
  }

  lemma LengthEncoded(form: LengthForm, n: nat, rest: Bytes)
    requires Fits(form, n)
    ensures ReadLength(LengthCode(form, n), ExtendedLength(form, n) + rest) == Some((n, rest))
  {
    TakeFront(ExtendedLength(form, n), rest);
    if form == Short {
      assert ExtendedLength(form, n) + rest == rest;
    } else if form == Medium {
      BigEndianRead(n, 2);
    } else {
      BigEndianRead(n, 8);
    }
  }

  lemma LengthDecoded(code: Byte, s: Bytes) returns (form: LengthForm)
    requires code < 128 && ReadLength(code, s).Some?
    ensures var (n, rest) := ReadLength(code, s).value;
            Fits(form, n) && code == LengthCode(form, n) && s == ExtendedLength(form, n) + rest
  {
    form := if Width(code) == 0 then Short else if Width(code) == 2 then Medium else Long;
    if form == Short {
      assert s == [] + s;
    } else {
      BigEndianWrite(s[..Width(code)]);
      assert s == s[..Width(code)] + s[Width(code)..];
    }
  }

  lemma MaskEncoded(mask: Option<Mask>, rest: Bytes)
    ensures ReadMask(mask.Some?, MaskBytes(mask) + rest) == Some((mask, rest))
  {
    TakeFront(MaskBytes(mask), rest);
    if mask == None {
      assert MaskBytes(mask) + rest == rest;
    }
  }

  lemma MaskDecoded(masked: bool, s: Bytes)
    requires ReadMask(masked, s).Some?
    ensures var (mask, rest) := ReadMask(masked, s).value; mask.Some? == masked && s == MaskBytes(mask) + rest
  {
    if masked {
      assert s == s[..4] + s[4..];
    } else {
      assert s == [] + s;
    }
  }

  lemma MaskWithTwice(mask: Option<Mask>, p: Bytes)
    ensures MaskWith(mask, MaskWith(mask, p)) == p
  {
    if mask.Some? {
      MaskedTwice(p, mask.value);
    }
  }

  lemma Concat5(a: Bytes, b: Bytes, c: Bytes, d: Bytes, e: Bytes)
    ensures a + b + c + d + e == a + (b + (c + (d + e)))
  {
    Assoc(a + b + c, d, e);
    Assoc(a + b, c, d + e);
    Assoc(a, b, c + (d + e));
  }

  lemma ReadParts(head: Bytes, ext: Bytes, m: Bytes, body: Bytes, rest: Bytes, mask: Option<Mask>)
    requires |head| == 2
    requires ReadLength(head[1] % 128, ext + (m + (body + rest))) == Some((|body|, m + (body + rest)))
    requires ReadMask(head[1] >= 128, m + (body + rest)) == Some((mask, body + rest))
    ensures ReadFrame(head + ext + m + body + rest) == Some((Frame(head[0], mask, MaskWith(mask, body)), rest))
  {
    Concat5(head, ext, m, body, rest);
    TakeFront(head, ext + (m + (body + rest)));
    TakeFront(body, rest);
  }

  lemma HeadParts(f: Frame, form: LengthForm)
    requires Fits(form, |f.payload|)
    ensures var h := Head(f, form);
            && |h| == 2 && h[0] == f.first
            && h[1] % 128 == LengthCode(form, |f.payload|) && (h[1] >= 128 <==> f.mask.Some?)
  {
  }

  /** Reading any well-formed frame returns it and consumes exactly its bytes. */
  lemma ReadEncoded(f: Frame, form: LengthForm, rest: Bytes)
    requires Fits(form, |f.payload|)
    ensures ReadFrame(EncodeFrame(f, form) + rest) == Some((f, rest))
  {
    var n, body := |f.payload|, MaskWith(f.mask, f.payload);
    HeadParts(f, form);
    LengthEncoded(form, n, MaskBytes(f.mask) + (body + rest));
    MaskEncoded(f.mask, body + rest);
    ReadParts(Head(f, form), ExtendedLength(form, n), MaskBytes(f.mask), body, rest, f.mask);
    MaskWithTwice(f.mask, f.payload);
  }

  lemma FrameParts(s: Bytes) returns (n: nat, s1: Bytes, mask: Option<Mask>, s2: Bytes)
    requires ReadFrame(s).Some?
    ensures |s| >= 2 && ReadLength(s[1] % 128, s[2..]) == Some((n, s1))
    ensures ReadMask(s[1] >= 128, s1) == Some((mask, s2)) && n <= |s2|
    ensures ReadFrame(s) == Some((Frame(s[0], mask, MaskWith(mask, s2[..n])), s2[n..]))
  {
    n, s1 := ReadLength(s[1] % 128, s[2..]).value.0, ReadLength(s[1] % 128, s[2..]).value.1;
    mask, s2 := ReadMask(s[1] >= 128, s1).value.0, ReadMask(s[1] >= 128, s1).value.1;
  }

  /** Whatever is read is one well-formed frame, and it is what was there. */
  lemma ReadFrameSound(s: Bytes) returns (form: LengthForm)
    requires ReadFrame(s).Some?
    ensures var (f, rest) := ReadFrame(s).value;
            Fits(form, |f.payload|) && s == EncodeFrame(f, form) + rest
  {
    var n, s1, mask, s2 := FrameParts(s);
    form := LengthDecoded(s[1] % 128, s[2..]);
    MaskDecoded(s[1] >= 128, s1);
    var body, rest := s2[..n], s2[n..];
    assert s2 == body + rest;
    MaskWithTwice(mask, body);
    HeadDecoded(s[0], s[1], mask, MaskWith(mask, body), form);
    assert s[..2] == [s[0], s[1]];
    Reassemble(s, s[..2], ExtendedLength(form, n), MaskBytes(mask), body, rest);
  }

  lemma HeadDecoded(first: Byte, second: Byte, mask: Option<Mask>, payload: Bytes, form: LengthForm)
    requires mask.Some? == (second >= 128) && Fits(form, |payload|) && second % 128 == LengthCode(form, |payload|)
    ensures Head(Frame(first, mask, payload), form) == [first, second]
  {
  }

  lemma Reassemble(s: Bytes, head: Bytes, ext: Bytes, m: Bytes, body: Bytes, rest: Bytes)
    requires |s| >= 2 && head == s[..2] && s[2..] == ext + (m + (body + rest))
    ensures s == head + ext + m + body + rest
  {
    assert s == s[..2] + s[2..];
    Concat5(head, ext, m, body, rest);
  }

  // ----- Streams of frames -----

  datatype FrameInForm = FrameInForm(frame: Frame, form: LengthForm)
  type Sent = x: FrameInForm | Fits(x.form, |x.frame.payload|) witness FrameInForm(Frame(0, None, []), Short)

  function Wire(xs: seq<Sent>): Bytes {
    if xs == [] then [] else EncodeFrame(xs[0].frame, xs[0].form) + Wire(xs[1..])
  }

  predicate PassedOver(f: Frame) { f.first % 16 != 1 && f.first % 16 != 8 }

  lemma {:induction false} SkipPassed(xs: seq<Sent>, rest: Bytes)
    requires forall x :: x in xs ==> PassedOver(x.frame)
    ensures ReadText(Wire(xs) + rest) == ReadText(rest)
  {
    if xs == [] {
      assert Wire(xs) + rest == rest;
    } else {
      var tail := Wire(xs[1..]) + rest;
      assert Wire(xs) + rest == EncodeFrame(xs[0].frame, xs[0].form) + tail;
      ReadEncoded(xs[0].frame, xs[0].form, tail);
      SkipPassed(xs[1..], rest);
    }
  }

  lemma ReadTextFrame(s: Bytes, f: Frame, rest: Bytes)
    requires ReadFrame(s) == Some((f, rest)) && f.first % 16 == 1
    ensures ReadText(s) == if ValidUtf8(f.payload) then Message(f.payload, rest) else BadUtf8(rest)
  {
  }

  /** The reader returns what the client's frame builder was given and consumes exactly that frame, behind any number
      of other frames; a payload that is not UTF-8 is refused, its frame consumed all the same. */
  lemma FrameRoundTrip(xs: seq<Sent>, payload: Bytes, mask: Mask, rest: Bytes)
    requires forall x :: x in xs ==> PassedOver(x.frame)
    requires |payload| < Pow256(8)
    ensures Fits(MinimalForm(|payload|), |payload|)
    ensures ReadText(Wire(xs) + (EncodeFrame(ClientFrame(payload, mask), MinimalForm(|payload|)) + rest)) ==
            if ValidUtf8(payload) then Message(payload, rest) else BadUtf8(rest)
  {
    ChosenFormFits(|payload|);
    var f, form := ClientFrame(payload, mask), MinimalForm(|payload|);
    var s := EncodeFrame(f, form) + rest;
    SkipPassed(xs, s);
    ReadEncoded(f, form, rest);
    ReadTextFrame(s, f, rest);
  }
}
