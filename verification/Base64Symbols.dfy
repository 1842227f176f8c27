/** Encoded text by its definition (section 4 of RFC 4648): the bits of the input, six at a time. */
module Base64Symbols {
  import opened Bits
  import opened Strings
  import opened Utf
  import opened Base64

  const ALPHABET := CAPITALS + SMALL + "0123456789+/"

  lemma LetterListed(v: int)
    requires 0 <= v < 64
    ensures Letter(v) == ALPHABET[v] as int
  {
    if v < 26 {
      CapitalAt(v);
    } else if v < 52 {
      SmallAt(v - 26);
    } else {
      assert ALPHABET[v] == "0123456789+/"[v - 52];
    }
  }

  /** The bit at position `j` of the input, each byte from its highest bit on; zero after its end. */
  function BitAt(x: Bytes, j: nat): nat {
    if j / 8 < |x| then Bit(x[j / 8], 7 - j % 8) else 0
  }

  /** The six bits from position `j` on, as a number. */
  function SixBits(x: Bytes, j: nat): (v: nat)
    ensures v < 64
  {
    32 * BitAt(x, j) + 16 * BitAt(x, j + 1) + 8 * BitAt(x, j + 2) + 4 * BitAt(x, j + 3) + 2 * BitAt(x, j + 4)
    + BitAt(x, j + 5)
  }

  function Sextet(x: Bytes, i: nat): (v: nat)
    ensures v < 64
  {
    SixBits(x, 6 * i)
  }

  /** The decoders pass over the white space that `u8::is_ascii_whitespace` knows. */
  lemma SpacesListed(c: Byte)
    ensures IsSpace(c) <==> c as char in " \t\n\U{0C}\r"
  {
  }

  // ----- The bits of a byte -----

  lemma Halved(b: Byte, k: nat, p: nat)
    requires p == Pow2(k)
    ensures b / p == 2 * (b / (2 * p)) + Bit(b, k)
  {
    BitValue(b, k);
    QuotientTwice(b, p, 2);
  }

  lemma Powers()
    ensures Pow2(0) == 1 && Pow2(1) == 2 && Pow2(2) == 4 && Pow2(3) == 8
    ensures Pow2(4) == 16 && Pow2(5) == 32 && Pow2(6) == 64 && Pow2(7) == 128
  {
    assert Pow2(3) == 2 * Pow2(2);
    assert Pow2(5) == 2 * Pow2(4);
  }

  lemma LowQuotients(b: Byte)
    ensures b == 2 * (b / 2) + Bit(b, 0) && b / 2 == 2 * (b / 4) + Bit(b, 1)
    ensures b / 4 == 2 * (b / 8) + Bit(b, 2) && b / 8 == 2 * (b / 16) + Bit(b, 3)
  {
    Powers();
    Halved(b, 0, 1);
    Halved(b, 1, 2);
    Halved(b, 2, 4);
    Halved(b, 3, 8);
  }

  lemma HighQuotients(b: Byte)
    ensures b / 16 == 2 * (b / 32) + Bit(b, 4) && b / 32 == 2 * (b / 64) + Bit(b, 5)
    ensures b / 64 == 2 * (b / 128) + Bit(b, 6) && b / 128 == Bit(b, 7)
  {
    Powers();
    Halved(b, 4, 16);
    Halved(b, 5, 32);
    Halved(b, 6, 64);
    Halved(b, 7, 128);
  }

  /** A byte cut in two at each of the places the encoder cuts it. */
  lemma ByteParts(b: Byte)
    ensures b / 4 == 32 * Bit(b, 7) + 16 * Bit(b, 6) + 8 * Bit(b, 5) + 4 * Bit(b, 4) + 2 * Bit(b, 3) + Bit(b, 2)
    ensures b % 4 == 2 * Bit(b, 1) + Bit(b, 0)
    ensures b / 16 == 8 * Bit(b, 7) + 4 * Bit(b, 6) + 2 * Bit(b, 5) + Bit(b, 4)
    ensures b % 16 == 8 * Bit(b, 3) + 4 * Bit(b, 2) + 2 * Bit(b, 1) + Bit(b, 0)
    ensures b / 64 == 2 * Bit(b, 7) + Bit(b, 6)
    ensures b % 64 == 32 * Bit(b, 5) + 16 * Bit(b, 4) + 8 * Bit(b, 3) + 4 * Bit(b, 2) + 2 * Bit(b, 1) + Bit(b, 0)
  {
    LowQuotients(b);
    HighQuotients(b);
  }

  // ----- One chunk -----

  function ByteOr0(x: Bytes, i: nat): Byte { if i < |x| then x[i] else 0 }

  lemma ZeroBits(k: nat)
    ensures Bit(0, k) == 0
  {
  }

  lemma BitIn(x: Bytes, i: nat, k: nat)
    requires k < 8
    ensures BitAt(x, 8 * i + k) == Bit(ByteOr0(x, i), 7 - k)
  {
    assert (8 * i + k) / 8 == i && (8 * i + k) % 8 == k;
    ZeroBits(7 - k);
  }

  lemma FirstSextet(x: Bytes)
    ensures Sextet(x, 0) == ByteOr0(x, 0) / 4
  {
    ByteParts(ByteOr0(x, 0));
    BitIn(x, 0, 0);
    BitIn(x, 0, 1);
    BitIn(x, 0, 2);
    BitIn(x, 0, 3);
    BitIn(x, 0, 4);
    BitIn(x, 0, 5);
  }

  lemma SecondSextet(x: Bytes)
    ensures Sextet(x, 1) == ByteOr0(x, 0) % 4 * 16 + ByteOr0(x, 1) / 16
  {
    ByteParts(ByteOr0(x, 0));
    ByteParts(ByteOr0(x, 1));
    BitIn(x, 0, 6);
    BitIn(x, 0, 7);
    BitIn(x, 1, 0);
    BitIn(x, 1, 1);
    BitIn(x, 1, 2);
    BitIn(x, 1, 3);
  }

  lemma ThirdSextet(x: Bytes)
    ensures Sextet(x, 2) == ByteOr0(x, 1) % 16 * 4 + ByteOr0(x, 2) / 64
  {
    ByteParts(ByteOr0(x, 1));
    ByteParts(ByteOr0(x, 2));
    BitIn(x, 1, 4);
    BitIn(x, 1, 5);
    BitIn(x, 1, 6);
    BitIn(x, 1, 7);
    BitIn(x, 2, 0);
    BitIn(x, 2, 1);
  }

  lemma FourthSextet(x: Bytes)
    ensures Sextet(x, 3) == ByteOr0(x, 2) % 64
  {
    ByteParts(ByteOr0(x, 2));
    BitIn(x, 2, 2);
    BitIn(x, 2, 3);
    BitIn(x, 2, 4);
    BitIn(x, 2, 5);
    BitIn(x, 2, 6);
    BitIn(x, 2, 7);
  }

  /** The symbol the definition puts at position `i`. */
  function Symbol(x: Bytes, i: nat): (c: char) {
    if 6 * i < 8 * |x| then ALPHABET[Sextet(x, i)] else '='
  }

  lemma ChunkSymbol(chunk: Bytes, i: nat)
    requires 1 <= |chunk| <= 3 && i < 4
    ensures EncodeChunk(chunk)[i] == Symbol(chunk, i) as int
  {
    FirstSextet(chunk);
    SecondSextet(chunk);
    ThirdSextet(chunk);
    FourthSextet(chunk);
    LetterListed(Sextet(chunk, i));
  }

  // ----- The whole text -----

  lemma SymbolFront(x: Bytes, i: nat)
    requires i < 4
    ensures Symbol(x, i) == Symbol(x[..ChunkLength(x)], i)
  {
    assert Sextet(x, i) == Sextet(x[..ChunkLength(x)], i);
  }

  lemma BitBack(x: Bytes, j: nat)
    requires |x| >= 3 && j >= 24
    ensures BitAt(x, j) == BitAt(x[3..], j - 24)
  {
    assert (j - 24) / 8 == j / 8 - 3 && (j - 24) % 8 == j % 8;
  }

  lemma SixBitsBack(x: Bytes, j: nat)
    requires |x| >= 3 && j >= 24
    ensures SixBits(x, j) == SixBits(x[3..], j - 24)
  {
    BitBack(x, j);
    BitBack(x, j + 1);
    BitBack(x, j + 2);
    BitBack(x, j + 3);
    BitBack(x, j + 4);
    BitBack(x, j + 5);
  }

  lemma SextetBack(x: Bytes, i: nat)
    requires |x| >= 3 && i >= 4
    ensures Sextet(x, i) == Sextet(x[3..], i - 4)
  {
    SixBitsBack(x, 6 * i);
  }

  lemma {:induction false} EncodedLength(x: Bytes)
    ensures |Encode(x)| == (|x| + 2) / 3 * 4
  {
    if x != [] {
      var n := ChunkLength(x);
      EncodedLength(x[n..]);
      assert |Encode(x)| == 4 + |Encode(x[n..])|;
      assert (|x| - n + 2) / 3 == (|x| + 2) / 3 - 1;
    }
  }

  lemma EncodeAt(x: Bytes, i: nat)
    requires i < |Encode(x)|
    ensures var n := ChunkLength(x);
            && 1 <= n && Encode(x)[i] == if i < 4 then EncodeChunk(x[..n])[i] else Encode(x[n..])[i - 4]
  {
  }

  /** Every symbol of the encoded text is the one the definition gives: the letter of the next six bits, zero bits after
      the end, and `=` for the places of a group of four without any bits of the input. */
  lemma {:induction false} EncodedSymbols(x: Bytes, i: nat)
    requires i < |Encode(x)|
    ensures Encode(x)[i] == Symbol(x, i) as int
  {
    EncodeAt(x, i);
    if i < 4 {
      ChunkSymbol(x[..ChunkLength(x)], i);
      SymbolFront(x, i);
    } else {
      EncodedLength(x);
      EncodedSymbols(x[3..], i - 4);
      SextetBack(x, i);
    }
  }

  /** So padding is exactly at the places without any bits of the input: two, one or none at the end. */
  lemma PaddingExactly(x: Bytes, i: nat)
    requires i < |Encode(x)|
    ensures Encode(x)[i] == '=' as int <==> 6 * i >= 8 * |x|
  {
    EncodedSymbols(x, i);
    LetterListed(Sextet(x, i));
  }
}
