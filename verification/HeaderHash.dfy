/** The 80-byte header behind the 32 header words, and the number its double hash stands for. */
module HeaderHash {
  import opened Words
  import opened Sha256Spec
  import opened Sha256Code
  import opened Sha256Bytes
  import opened Sha256dScan

  /** The serialized header: the first twenty words, each most significant byte first. */
  function HeaderBytes(data: seq<word>): (h: seq<byte>)
    requires |data| >= 20
    ensures |h| == 80
  {
    seq(80, k requires 0 <= k < 80 => BE32Enc(data[k / 4])[k % 4])
  }

  /** The number whose base-256 digits, least significant first, are `s`. */
  function LittleEndian(s: seq<byte>): nat {
    if s == [] then 0 else s[0] + 0x100 * LittleEndian(s[1..])
  }

  lemma HeaderTailEncoding()
    ensures BE32Enc(0x80000000) == [0x80, 0, 0, 0] && BE32Enc(0) == [0, 0, 0, 0]
    ensures BE64Enc(8 * 80) == BE32Enc(0) + BE32Enc(0x280)
  {
  }

  /** Byte `4 * i + k` of the padded header is byte `k` of header word `i`. */
  lemma PaddedHeaderByte(data: seq<word>, i: nat, k: nat)
    requires |data| == 32 && HeaderTail(data[16..32]) && i < 32 && k < 4
    ensures |Pad(HeaderBytes(data))| == 128
    ensures Pad(HeaderBytes(data))[4 * i + k] == BE32Enc(data[i])[k]
  {
    hide BE32Enc, Pad, BE64Enc;
    PadLength(HeaderBytes(data));
    PadAt(HeaderBytes(data), 4 * i + k);
    HeaderTailEncoding();
    if i >= 20 {
      assert data[i] == data[16..32][i - 16];
    }
  }

  /** Word `i` of the block that starts at word `b` of the padded header. */
  lemma PaddedHeaderWord(data: seq<word>, b: nat, i: nat)
    requires |data| == 32 && HeaderTail(data[16..32]) && (b == 0 || b == 16) && i < 16
    ensures |Pad(HeaderBytes(data))| == 128
    ensures BlockWords(Pad(HeaderBytes(data))[4 * b..4 * b + 64])[i] == data[b + i]
  {
    hide BE32Enc, BE32Dec, Pad, HeaderBytes, HeaderTail, BlockWords;
    PaddedHeaderByte(data, b + i, 0);
    PaddedHeaderByte(data, b + i, 1);
    PaddedHeaderByte(data, b + i, 2);
    PaddedHeaderByte(data, b + i, 3);
    BE32RoundTrip(data[b + i]);
    BlockWordOf(Pad(HeaderBytes(data))[4 * b..4 * b + 64], i, BE32Enc(data[b + i]));
  }

  /** The two blocks of the padded header are the two halves of the header words. */
  lemma HeaderBlocks(data: seq<word>)
    requires |data| == 32 && HeaderTail(data[16..32])
    ensures |Pad(HeaderBytes(data))| == 128
    ensures BlockWords(Pad(HeaderBytes(data))[..64]) == data[..16]
    ensures BlockWords(Pad(HeaderBytes(data))[64..128]) == data[16..32]
  {
    hide Pad, HeaderBytes, HeaderTail, BlockWords;
    PaddedHeaderWord(data, 0, 0);
    var p := Pad(HeaderBytes(data));
    assert p[0..64] == p[..64];
    forall i | 0 <= i < 16
      ensures BlockWords(p[..64])[i] == data[i] && BlockWords(p[64..128])[i] == data[16 + i]
    {
      PaddedHeaderWord(data, 0, i);
      PaddedHeaderWord(data, 16, i);
    }
  }

  /** On a padded header the word form is the double hash of the 80 bytes. */
  lemma HeaderDoubleHash(data: seq<word>)
    requires |data| == 32 && HeaderTail(data[16..32])
    ensures Sha256d(HeaderBytes(data)) == StateBytes(DoubleHashWords(data))
  {
    hide Pad, BlockWords, Compress, StateBytes, HeaderBytes, H0, SecondPass, HeaderTail;
    var p := Pad(HeaderBytes(data));
    HeaderBlocks(data);
    assert p[0..64] == p[..64];
    assert CompressBlocks(H0(), p, 0) == H0();
    assert CompressBlocks(H0(), p, 1) == Compress(H0(), data[..16]);
    assert CompressBlocks(H0(), p, 2) == Compress(Compress(H0(), data[..16]), data[16..32]);
    SecondPassIsSha256(CompressBlocks(H0(), p, 2));
  }

  /** Four little-endian bytes weigh as one word. */
  lemma LittleEndianWord(s: seq<byte>)
    requires |s| >= 4
    ensures LittleEndian(s) == LE32Dec(s[..4]) + 0x1_0000_0000 * LittleEndian(s[4..])
  {
    assert s[1..][1..] == s[2..] && s[2..][1..] == s[3..] && s[3..][1..] == s[4..];
    assert LittleEndian(s) == s[0] + 0x100 * LittleEndian(s[1..]);
    assert LittleEndian(s[1..]) == s[1] + 0x100 * LittleEndian(s[2..]);
    assert LittleEndian(s[2..]) == s[2] + 0x100 * LittleEndian(s[3..]);
    assert LittleEndian(s[3..]) == s[3] + 0x100 * LittleEndian(s[4..]);
  }

  lemma {:induction false} SwappedValue(s: State, h: seq<word>, i: nat)
    requires i <= 8 && |h| == 8 && forall j | 0 <= j < 8 :: h[j] == Swab32(s[j])
    ensures LittleEndian(StateBytes(s)[4 * i..]) == Value(h[i..])
    decreases 8 - i
  {
    hide StateBytes, BE32Enc, LE32Dec;
    if i < 8 {
      SwappedValue(s, h, i + 1);
      var t := StateBytes(s)[4 * i..];
      StateBytesAt(s, i);
      assert t[..4] == StateBytes(s)[4 * i..4 * i + 4];
      assert t[4..] == StateBytes(s)[4 * (i + 1)..];
      LittleEndianWord(t);
      assert h[i..][1..] == h[i + 1..];
    }
  }

  /** What the scan compares with the target is the double hash of the header bytes, read as one number. */
  lemma HashNumberIsDoubleHash(data: seq<word>)
    requires |data| == 32 && HeaderTail(data[16..32])
    ensures HashNumber(data) == LittleEndian(Sha256d(HeaderBytes(data)))
  {
    hide StateBytes, DoubleHashWords, HeaderBytes, HeaderTail, Swab32, Sha256Spec.Sha256d;
    HeaderDoubleHash(data);
    var s := DoubleHashWords(data);
    var h: seq<word> := seq(8, i requires 0 <= i < 8 => Swab32(s[i]));
    SwappedValue(s, h, 0);
    assert StateBytes(s)[0..] == StateBytes(s) && h[0..] == h;
  }

  /** A nonce solves the work exactly when the double hash of the 80 header bytes with that nonce, as a number,
      is at most the target. */
  lemma SolvesIsDoubleHash(data: seq<word>, target: seq<word>, n: word)
    requires |data| >= 32 && |target| >= 8 && HeaderTail(data[16..32])
    ensures Solves(data, target, n) <==>
            LittleEndian(Sha256d(HeaderBytes(data[19 := n]))) <= Value(target[..8])
  {
    hide HashNumber, HeaderTail, Sha256Spec.Sha256d, LittleEndian, Value, BE32Enc;
    var h := HeaderWithNonce(data, n);
    assert h[..32][16..32] == data[16..32][3 := n];
    NonceOutsideTail(data[16..32], n);
    assert HeaderBytes(h[..32]) == HeaderBytes(data[19 := n]);
    FirstWords(h);
    HashNumberIsDoubleHash(h[..32]);
  }

  lemma FirstWords(data: seq<word>)
    requires |data| >= 32
    ensures HashNumber(data[..32]) == HashNumber(data)
  {
    hide Compress;
    assert data[..32][..16] == data[..16] && data[..32][16..32] == data[16..32];
    assert DoubleHashWords(data[..32]) == DoubleHashWords(data);
  }

  lemma NonceOutsideTail(tail: seq<word>, n: word)
    requires |tail| == 16 && HeaderTail(tail)
    ensures HeaderTail(tail[3 := n])
  {
  }
}
