/** sha2.c: sha256d over byte buffers, and the word form sha256d_80_swap used on block headers. */
module Sha256Bytes {
  import opened Words
  import opened Sha256Spec
  import opened Sha256Code

  /** The second half of sha256d_hash1: the padding words after a 32-byte message. */
  function Hash1Tail(): (t: seq<word>)
    ensures |t| == 8
  {
    [0x80000000, 0, 0, 0, 0, 0, 0, 0x100]
  }

  /** The hash value of the second pass over the hash value `s` of the first. */
  function SecondPass(s: State): State {
    Compress(H0(), s + Hash1Tail())
  }

  // ----- the padded message, byte by byte -----

  /** Byte `q` of the padded message, read off the length alone. */
  lemma PadAt(m: seq<byte>, q: nat)
    requires q < |Pad(m)|
    ensures q < |m| ==> Pad(m)[q] == m[q]
    ensures q == |m| ==> Pad(m)[q] == 0x80
    ensures |m| < q < |Pad(m)| - 8 ==> Pad(m)[q] == 0
    ensures |Pad(m)| - 8 <= q ==> Pad(m)[q] == BE64Enc(8 * |m|)[q - (|Pad(m)| - 8)]
  {
  }

  lemma StateBytesAt(s: State, i: nat)
    requires i < 8
    ensures StateBytes(s)[4 * i..4 * i + 4] == BE32Enc(s[i])
  {
  }

  lemma BlockWordOf(p: seq<byte>, i: nat, e: seq<byte>)
    requires |p| == 64 && i < 16 && |e| == 4
    requires p[4 * i] == e[0] && p[4 * i + 1] == e[1] && p[4 * i + 2] == e[2] && p[4 * i + 3] == e[3]
    ensures BlockWords(p)[i] == BE32Dec(e)
  {
    assert p[4 * i..4 * i + 4] == e;
  }

  /** A 32-byte message fills one block, followed by exactly the constants of sha256d_hash1. */
  lemma DigestBlock(s: State)
    ensures |Pad(StateBytes(s))| == 64
    ensures BlockWords(Pad(StateBytes(s))) == s + Hash1Tail()
  {
    hide BE32Enc, BE32Dec, Pad, BE64Enc;
    var d := StateBytes(s);
    var p := Pad(d);
    assert |p| == 64 by { PadLength(d); }
    forall i | 0 <= i < 16
      ensures BlockWords(p)[i] == (s + Hash1Tail())[i]
    {
      forall k | 0 <= k < 4 ensures p[4 * i + k] == BE32Enc((s + Hash1Tail())[i])[k] {
        PadAt(d, 4 * i + k);
        if i < 8 { StateBytesAt(s, i); assert d[4 * i + k] == d[4 * i..4 * i + 4][k]; }
        else { TailEncoding(); }
      }
      BE32RoundTrip((s + Hash1Tail())[i]);
      BlockWordOf(p, i, BE32Enc((s + Hash1Tail())[i]));
    }
  }

  lemma PadLength(m: seq<byte>)
    ensures |Pad(m)| == |m| + 9 + PadZeros(|m|)
  {
    hide PadZeros;
  }

  /** Block `n` of a message of `len` bytes exists if more than -9 bytes are left for it, and it is the last one
      if the length still fits in. */
  lemma BlockCount(len: nat, n: nat)
    requires len - 64 * n > -9
    ensures 64 * n + 64 <= len + 9 + PadZeros(len)
    ensures len - 64 * n < 56 <==> 64 * n + 64 == len + 9 + PadZeros(len)
  {
    var q: int := (len + 9 + PadZeros(len)) / 64;
    assert len + 9 + PadZeros(len) == 64 * q && PadZeros(len) < 64;
  }

  lemma TailEncoding()
    ensures BE32Enc(0x80000000) == [0x80, 0, 0, 0] && BE32Enc(0) == [0, 0, 0, 0]
    ensures BE64Enc(8 * 32) == BE32Enc(0) + BE32Enc(0x100)
  {
  }

  /** Hashing the digest again is one compression of its words and the constant tail. */
  lemma SecondPassIsSha256(s: State)
    ensures Sha256(StateBytes(s)) == StateBytes(SecondPass(s))
  {
    hide Pad, BlockWords, Compress, StateBytes;
    DigestBlock(s);
    var p := Pad(StateBytes(s));
    assert p[0..64] == p;
    assert CompressBlocks(H0(), p, 0) == H0();
    assert CompressBlocks(H0(), p, 1) == Compress(H0(), BlockWords(p));
  }

  // ----- sha256d -----

  /** How many of the 64 bytes of a block come from the message when `r` bytes are left. */
  function Available(r: int): nat {
    if r > 64 then 64 else if r < 0 then 0 else r
  }

  /** The byte at offset `k` of the block that starts with `r` message bytes left, before the length is added. */
  function BlockByte(m: seq<byte>, r: int, k: nat): byte
    requires -9 < r <= |m| && k < 64
  {
    if k < Available(r) then m[|m| - r + k] else if k == r then 0x80 else 0
  }

  /** Block `n` of the padded message, in the terms of the loop: without the length unless r < 56. */
  lemma BlockByteIsPad(m: seq<byte>, n: nat, k: nat)
    requires |m| < 0x1000_0000 && k < 64 && |m| - 64 * n > -9
    ensures 64 * n + 64 <= |Pad(m)|
    ensures |m| - 64 * n < 56 <==> 64 * n + 64 == |Pad(m)|
    ensures k < 60 || |m| - 64 * n >= 56 ==> Pad(m)[64 * n + k] == BlockByte(m, |m| - 64 * n, k)
    ensures k >= 60 && |m| - 64 * n < 56 ==> Pad(m)[64 * n + k] == BE32Enc(8 * |m|)[k - 60]
  {
    hide Pad, BE32Enc, PadZeros;
    PadLength(m);
    BlockCount(|m|, n);
    PadAt(m, 64 * n + k);
    TailEncoding();
    assert 8 * |m| / 0x1_0000_0000 == 0;
  }

  /** Copies what is left of the message, up to a block, and sets the bit after it. */
  method LoadBytes(data: array<byte>, p: nat, len: nat, r: int) returns (B: array<byte>)
    requires p + len <= data.Length && -9 < r <= len
    ensures fresh(B) && B.Length == 64
    ensures forall k | 0 <= k < 64 :: B[k] == BlockByte(data[p..p + len], r, k)
  {
    B := new byte[64](_ => 0);
    for k := 0 to Available(r)
      modifies B
      invariant forall j | 0 <= j < k :: B[j] == data[p..p + len][len - r + j]
      invariant forall j | k <= j < 64 :: B[j] == 0
    {
      B[k] := data[p + len - r + k];
    }
    if 0 <= r < 64 {
      B[r] := 0x80;
    }
  }

  lemma SameWord(b: seq<byte>, block: seq<byte>, i: nat)
    requires |b| == 64 == |block| && i < 16 && forall k | 4 * i <= k < 4 * i + 4 :: b[k] == block[k]
    ensures BE32Dec(b[4 * i..4 * i + 4]) == BlockWords(block)[i]
  {
    hide BE32Dec;
    assert b[4 * i..4 * i + 4] == block[4 * i..4 * i + 4];
  }

  /** One turn of the loop: the words of block `n` of the padded message. */
  method LoadPadded(T: array<word>, data: array<byte>, p: nat, len: nat, r: int, ghost n: nat)
    requires T.Length == 16 && p + len <= data.Length && len < 0x1000_0000
    requires r == len - 64 * n && r > -9
    modifies T
    ensures 64 * n + 64 <= |Pad(data[p..p + len])|
    ensures T[..] == BlockWords(Pad(data[p..p + len])[64 * n..64 * n + 64])
  {
    hide Pad, BE32Enc, BE32Dec, BlockByte, BlockWords;
    ghost var m := data[p..p + len];
    var B := LoadBytes(data, p, len, r);
    BlockByteIsPad(m, n, 0);
    ghost var block := Pad(m)[64 * n..64 * n + 64];
    forall k | 0 <= k < 64
      ensures k < 60 || r >= 56 ==> block[k] == B[k]
      ensures k >= 60 && r < 56 ==> block[k] == BE32Enc(8 * len)[k - 60]
    {
      BlockByteIsPad(m, n, k);
    }
    for i := 0 to 16
      modifies T
      invariant forall j | 0 <= j < i && (j < 15 || r >= 56) :: T[j] == BlockWords(block)[j]
    {
      T[i] := BE32Dec(B[4 * i..4 * i + 4]);
      if i < 15 || r >= 56 {
        assert B[4 * i..4 * i + 4] == B[..][4 * i..4 * i + 4];
        SameWord(B[..], block, i);
      }
    }
    if r < 56 {
      T[15] := 8 * len;
      BE32RoundTrip(8 * len);
      BlockWordOf(block, 15, BE32Enc(8 * len));
    }
  }

  /** sha256_init. */
  method InitState(S: array<word>)
    requires S.Length >= 8
    modifies S
    ensures S[..8] == H0()
    ensures S[8..] == old(S[8..])
  {
    for i := 0 to 8
      invariant forall j | 0 <= j < i :: S[j] == H0()[j]
      invariant forall j | 8 <= j < S.Length :: S[j] == old(S[j])
    {
      S[i] := H0()[i];
    }
  }

  /** memcpy(S + 8, sha256d_hash1 + 8, 32). */
  method LoadTail(S: array<word>)
    requires S.Length >= 16
    modifies S
    ensures S[..8] == old(S[..8])
    ensures S[8..16] == Hash1Tail()
    ensures S[16..] == old(S[16..])
  {
    for i := 0 to 8
      invariant forall j | 0 <= j < i :: S[8 + j] == Hash1Tail()[j]
      invariant forall j | 0 <= j < 8 || 16 <= j < S.Length :: S[j] == old(S[j])
    {
      S[8 + i] := Hash1Tail()[i];
    }
  }

  /** The second transform: `hash` becomes the second pass over the first eight words of `S`. */
  method HashState(hash: array<word>, S: array<word>)
    requires hash.Length >= 8 && S.Length == 16 && hash != S
    modifies hash, S
    ensures hash[..8] == SecondPass(old(S[..8]))
    ensures hash[8..] == old(hash[8..])
  {
    hide Compress, H0;
    LoadTail(S);
    assert LoadBlock(S[..], 0, false) == old(S[..8]) + Hash1Tail();
    InitState(hash);
    Sha256Transform(hash, S, 0, false);
  }

  /** be32enc of the eight words of a digest, into a byte buffer. */
  method StoreDigest(out: array<byte>, o: nat, T: array<word>)
    requires o + 32 <= out.Length && T.Length >= 8
    modifies out
    ensures out[o..o + 32] == StateBytes(T[..8])
    ensures out[..o] == old(out[..o]) && out[o + 32..] == old(out[o + 32..])
  {
    hide BE32Enc;
    for i := 0 to 8
      invariant forall k | 0 <= k < 4 * i :: out[o + k] == BE32Enc(T[k / 4])[k % 4]
      invariant forall k | 0 <= k < o || o + 32 <= k < out.Length :: out[k] == old(out[k])
    {
      var e := BE32Enc(T[i]);
      out[o + 4 * i], out[o + 4 * i + 1], out[o + 4 * i + 2], out[o + 4 * i + 3] := e[0], e[1], e[2], e[3];
    }
  }

  /** sha256d: the double hash of `len` bytes. Input and output may be the same buffer, and may overlap. */
  method Sha256dBuffer(out: array<byte>, o: nat, data: array<byte>, p: nat, len: nat)
    requires o + 32 <= out.Length && p + len <= data.Length && len < 0x1000_0000
    modifies out
    ensures out[o..o + 32] == Sha256d(old(data[p..p + len]))
    ensures out[..o] == old(out[..o]) && out[o + 32..] == old(out[o + 32..])
  {
    hide Pad, Compress, H0, BlockWords, StateBytes, SecondPass;
    ghost var m := data[p..p + len];
    var S, T := new word[16](_ => 0), new word[16](_ => 0);
    InitState(S);
    var r: int := len;
    ghost var n := 0;
    while r > -9
      modifies S, T
      invariant r == len - 64 * n
      invariant 64 * n <= |Pad(m)| && data[p..p + len] == m
      invariant r <= -9 ==> 64 * n == |Pad(m)|
      invariant S[..8] == CompressBlocks(H0(), Pad(m), n)
    {
      LoadPadded(T, data, p, len, r, n);
      assert LoadBlock(T[..], 0, false) == T[..];
      Sha256Transform(S, T, 0, false);
      BlockByteIsPad(m, n, 0);
      n := n + 1;
      r := r - 64;
    }
    ghost var first: State := S[..8];
    assert n == |Pad(m)| / 64;
    HashState(T, S);
    SecondPassIsSha256(first);
    StoreDigest(out, o, T);
  }

  /** The double hash of the 128 bytes of header words, in words: what sha256d_80_swap byte-swaps. */
  function DoubleHashWords(data: seq<word>): State
    requires |data| >= 32
  {
    SecondPass(Compress(Compress(H0(), data[..16]), data[16..32]))
  }

  /** sha256d_80_swap: double hash of a padded 80-byte header given as 32 words. */
  method Sha256d80Swap(hash: array<word>, data: array<word>)
    requires hash.Length >= 8 && data.Length >= 32 && hash != data
    modifies hash
    ensures forall i | 0 <= i < 8 :: hash[i] == Swab32(DoubleHashWords(data[..])[i])
    ensures hash[8..] == old(hash[8..])
  {
    hide Compress, H0, SecondPass, Swab32;
    var S := new word[16](_ => 0);
    InitState(S);
    assert LoadBlock(data[..], 0, false) == data[..][..16];
    Sha256Transform(S, data, 0, false);
    assert LoadBlock(data[..], 16, false) == data[..][16..32];
    Sha256Transform(S, data, 16, false);
    HashState(hash, S);
    for i := 0 to 8
      modifies hash
      invariant forall j | 0 <= j < i :: hash[j] == Swab32(DoubleHashWords(data[..])[j])
      invariant forall j | i <= j < 8 :: hash[j] == DoubleHashWords(data[..])[j]
      invariant hash[8..] == old(hash[8..])
    {
      hash[i] := Swab32(hash[i]);
    }
  }
}
