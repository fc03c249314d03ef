/** Fixed-width integers of the C code: bytes, 32-bit words, and their two byte orders. */
module Words {
  type byte = x: int | 0 <= x < 0x100
  type word = x: int | 0 <= x < 0x1_0000_0000

  /** The value a uint32_t holds after assigning it the mathematical integer `x`. */
  function W32(x: int): word {
    x % 0x1_0000_0000
  }

  /** 32-bit addition. */
  function Add(a: word, b: word): word {
    var x: int, y: int := a, b;
    W32(x + y)
  }

  /** Reducing early does not change a sum. */
  lemma W32Absorbs(x: int, y: int)
    ensures W32(W32(x) + y) == W32(x + y)
  {
  }

  /** The number with the four base-256 digits `b3 b2 b1 b0`, most significant first. */
  function Pack(b3: byte, b2: byte, b1: byte, b0: byte): word {
    var hi: int, mh: int, ml: int := b3, b2, b1;
    ((hi * 0x100 + mh) * 0x100 + ml) * 0x100 + b0
  }

  /** be32enc: the four bytes of `x`, most significant first. */
  function BE32Enc(x: word): (s: seq<byte>)
    ensures |s| == 4
  {
    [x / 0x100 / 0x100 / 0x100, x / 0x100 / 0x100 % 0x100, x / 0x100 % 0x100, x % 0x100]
  }

  /** be32dec: the word whose bytes, most significant first, are `s`. */
  function BE32Dec(s: seq<byte>): word
    requires |s| == 4
  {
    Pack(s[0], s[1], s[2], s[3])
  }

  /** le32enc: the four bytes of `x`, least significant first. */
  function LE32Enc(x: word): (s: seq<byte>)
    ensures |s| == 4
  {
    [x % 0x100, x / 0x100 % 0x100, x / 0x100 / 0x100 % 0x100, x / 0x100 / 0x100 / 0x100]
  }

  /** le32dec: the word whose bytes, least significant first, are `s`. */
  function LE32Dec(s: seq<byte>): word
    requires |s| == 4
  {
    Pack(s[3], s[2], s[1], s[0])
  }

  /** swab32: reverses the bytes of a word. */
  function Swab32(x: word): word {
    LE32Dec(BE32Enc(x))
  }

  lemma PackUnpack(x: word)
    ensures Pack(x / 0x100 / 0x100 / 0x100, x / 0x100 / 0x100 % 0x100, x / 0x100 % 0x100, x % 0x100) == x
  {
  }

  lemma UnpackPack(b3: byte, b2: byte, b1: byte, b0: byte)
    ensures var x := Pack(b3, b2, b1, b0);
            x / 0x100 / 0x100 / 0x100 == b3 && x / 0x100 / 0x100 % 0x100 == b2 &&
            x / 0x100 % 0x100 == b1 && x % 0x100 == b0
  {
    var x: int := Pack(b3, b2, b1, b0);
    var hi: int, mh: int, ml: int := b3, b2, b1;
    assert x / 0x100 == (hi * 0x100 + mh) * 0x100 + ml;
    assert x / 0x100 / 0x100 == hi * 0x100 + mh;
  }

  lemma BE32RoundTrip(x: word)
    ensures BE32Dec(BE32Enc(x)) == x
  {
    PackUnpack(x);
  }

  lemma BE32DecEnc(s: seq<byte>)
    requires |s| == 4
    ensures BE32Enc(BE32Dec(s)) == s
  {
    UnpackPack(s[0], s[1], s[2], s[3]);
  }

  lemma LE32RoundTrip(x: word)
    ensures LE32Dec(LE32Enc(x)) == x
  {
    PackUnpack(x);
  }

  lemma LE32DecEnc(s: seq<byte>)
    requires |s| == 4
    ensures LE32Enc(LE32Dec(s)) == s
  {
    UnpackPack(s[3], s[2], s[1], s[0]);
  }

  /** Byte-swapping a word exchanges its two encodings, and swapping twice gives the word back. */
  lemma Swab32Laws(x: word)
    ensures LE32Enc(Swab32(x)) == BE32Enc(x)
    ensures BE32Enc(Swab32(x)) == LE32Enc(x)
    ensures Swab32(Swab32(x)) == x
  {
    LE32DecEnc(BE32Enc(x));
    var e := BE32Enc(x);
    UnpackPack(e[3], e[2], e[1], e[0]);
    PackUnpack(x);
  }
}
