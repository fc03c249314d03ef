/** SHA-256 as FIPS 180-4 defines it: sections 4.1.2 (functions), 4.2.2 (constants),
    5.1.1 (padding), 5.3.3 (initial hash value) and 6.2.2 (hash computation). */
module Sha256Spec {
  import opened Words

  const INITIAL_HASH: seq<word> := [
    0x6a09e667, 0xbb67ae85, 0x3c6ef372, 0xa54ff53a,
    0x510e527f, 0x9b05688c, 0x1f83d9ab, 0x5be0cd19
  ]

  /** The round constants, eight to a row. */
  function KRow(j: nat): (r: seq<word>)
    requires j < 8
    ensures |r| == 8
  {
    if j == 0 then [
      0x428a2f98, 0x71374491, 0xb5c0fbcf, 0xe9b5dba5,
      0x3956c25b, 0x59f111f1, 0x923f82a4, 0xab1c5ed5
    ]
    else if j == 1 then [
      0xd807aa98, 0x12835b01, 0x243185be, 0x550c7dc3,
      0x72be5d74, 0x80deb1fe, 0x9bdc06a7, 0xc19bf174
    ]
    else if j == 2 then [
      0xe49b69c1, 0xefbe4786, 0x0fc19dc6, 0x240ca1cc,
      0x2de92c6f, 0x4a7484aa, 0x5cb0a9dc, 0x76f988da
    ]
    else if j == 3 then [
      0x983e5152, 0xa831c66d, 0xb00327c8, 0xbf597fc7,
      0xc6e00bf3, 0xd5a79147, 0x06ca6351, 0x14292967
    ]
    else if j == 4 then [
      0x27b70a85, 0x2e1b2138, 0x4d2c6dfc, 0x53380d13,
      0x650a7354, 0x766a0abb, 0x81c2c92e, 0x92722c85
    ]
    else if j == 5 then [
      0xa2bfe8a1, 0xa81a664b, 0xc24b8b70, 0xc76c51a3,
      0xd192e819, 0xd6990624, 0xf40e3585, 0x106aa070
    ]
    else if j == 6 then [
      0x19a4c116, 0x1e376c08, 0x2748774c, 0x34b0bcb5,
      0x391c0cb3, 0x4ed8aa4a, 0x5b9cca4f, 0x682e6ff3
    ]
    else [
      0x748f82ee, 0x78a5636f, 0x84c87814, 0x8cc70208,
      0x90befffa, 0xa4506ceb, 0xbef9a3f7, 0xc67178f2
    ]
  }

  type State = s: seq<word> | |s| == 8 witness seq(8, _ => 0)
  type Block = m: seq<word> | |m| == 16 witness seq(16, _ => 0)

  /** Rotation to the right. */
  function Rotr(b: bv32, n: bv6): bv32
    requires 0 < n < 32
  {
    (b >> n) | (b << (32 - n))
  }

  /** Shift to the right. */
  function Shr(b: bv32, n: bv6): bv32
    requires n < 32
  {
    b >> n
  }

  function Xor(a: bv32, b: bv32): bv32 { a ^ b }
  function And(a: bv32, b: bv32): bv32 { a & b }
  function Not(a: bv32): bv32 { !a }

  function BigSigma0Bits(b: bv32): bv32 {
    Xor(Xor(Rotr(b, 2), Rotr(b, 13)), Rotr(b, 22))
  }

  function BigSigma0(x: word): word {
    BigSigma0Bits(x as bv32) as word
  }

  function BigSigma1Bits(b: bv32): bv32 {
    Xor(Xor(Rotr(b, 6), Rotr(b, 11)), Rotr(b, 25))
  }

  function BigSigma1(x: word): word {
    BigSigma1Bits(x as bv32) as word
  }

  function SmallSigma0Bits(b: bv32): bv32 {
    Xor(Xor(Rotr(b, 7), Rotr(b, 18)), Shr(b, 3))
  }

  function SmallSigma0(x: word): word {
    SmallSigma0Bits(x as bv32) as word
  }

  function SmallSigma1Bits(b: bv32): bv32 {
    Xor(Xor(Rotr(b, 17), Rotr(b, 19)), Shr(b, 10))
  }

  function SmallSigma1(x: word): word {
    SmallSigma1Bits(x as bv32) as word
  }

  function ChBits(a: bv32, b: bv32, c: bv32): bv32 {
    Xor(And(a, b), And(Not(a), c))
  }

  function Ch(x: word, y: word, z: word): word {
    ChBits(x as bv32, y as bv32, z as bv32) as word
  }

  function MajBits(a: bv32, b: bv32, c: bv32): bv32 {
    Xor(Xor(And(a, b), And(a, c)), And(b, c))
  }

  function Maj(x: word, y: word, z: word): word {
    MajBits(x as bv32, y as bv32, z as bv32) as word
  }

  function H0(): State {
    INITIAL_HASH
  }

  function K(i: nat): word
    requires i < 64
  {
    KRow(i / 8)[i % 8]
  }

  /** The recurrence of the message schedule, on the words 2, 7, 15 and 16 places back. */
  function Extend(w2: word, w7: word, w15: word, w16: word): word {
    W32(SmallSigma1(w2) + w7 + SmallSigma0(w15) + w16)
  }

  /** Word `t` of the message schedule of block `m` (section 6.2.2, step 1). */
  function Sched(m: Block, t: nat): word {
    if t < 16 then m[t]
    else Extend(Sched(m, t - 2), Sched(m, t - 7), Sched(m, t - 15), Sched(m, t - 16))
  }

  function Temp1(e: word, f: word, g: word, h: word, kw: int): word {
    W32(h + BigSigma1(e) + Ch(e, f, g) + kw)
  }

  function Temp2(a: word, b: word, c: word): word {
    W32(BigSigma0(a) + Maj(a, b, c))
  }

  /** One round on the working variables a..h (section 6.2.2, step 3). */
  function Round(s: State, kw: int): State {
    var t1 := Temp1(s[4], s[5], s[6], s[7], kw);
    [Add(t1, Temp2(s[0], s[1], s[2])), s[0], s[1], s[2], Add(s[3], t1), s[4], s[5], s[6]]
  }

  /** What the schedule and the constants feed into round `i`. */
  function RoundInput(m: Block, i: nat): int
    requires i < 64
  {
    K(i) + Sched(m, i)
  }

  /** The working variables after the first `n` rounds. */
  function Rounds(s: State, m: Block, n: nat): State
    requires n <= 64
  {
    if n == 0 then s else Round(Rounds(s, m, n - 1), RoundInput(m, n - 1))
  }

  function AddState(a: State, b: State): State {
    [Add(a[0], b[0]), Add(a[1], b[1]), Add(a[2], b[2]), Add(a[3], b[3]),
     Add(a[4], b[4]), Add(a[5], b[5]), Add(a[6], b[6]), Add(a[7], b[7])]
  }

  /** The compression function (section 6.2.2): the next hash value. */
  function Compress(h: State, m: Block): State {
    AddState(h, Rounds(h, m, 64))
  }

  // ----- whole messages -----

  function Zeros(n: nat): (s: seq<byte>)
    ensures |s| == n
  {
    seq(n, _ => 0)
  }

  /** A 64-bit integer, most significant byte first. */
  function BE64Enc(x: nat): (s: seq<byte>)
    ensures |s| == 8
  {
    BE32Enc(W32(x / 0x1_0000_0000)) + BE32Enc(W32(x))
  }

  /** How many zero bytes the padding of `n` bytes has. */
  function PadZeros(n: nat): (z: nat)
    ensures (n + 1 + z + 8) % 64 == 0
  {
    (55 - n) % 64
  }

  /** The padded message (section 5.1.1): a one bit, zero bits up to 448 modulo 512, the bit length. */
  function Pad(m: seq<byte>): (p: seq<byte>)
    ensures |p| % 64 == 0
  {
    m + [0x80] + Zeros(PadZeros(|m|)) + BE64Enc(8 * |m|)
  }

  /** The sixteen words of a 64-byte block. */
  function BlockWords(p: seq<byte>): Block
    requires |p| == 64
  {
    seq(16, i requires 0 <= i < 16 => BE32Dec(p[4 * i..4 * i + 4]))
  }

  /** The hash value after the first `n` blocks of `p`. */
  function CompressBlocks(h: State, p: seq<byte>, n: nat): State
    requires 64 * n <= |p|
  {
    if n == 0 then h
    else Compress(CompressBlocks(h, p, n - 1), BlockWords(p[64 * (n - 1)..64 * n]))
  }

  /** The bytes of a hash value, each word most significant byte first. */
  function StateBytes(s: State): (r: seq<byte>)
    ensures |r| == 32
  {
    seq(32, k requires 0 <= k < 32 => BE32Enc(s[k / 4])[k % 4])
  }

  /** The SHA-256 digest of a byte string. */
  function Sha256(m: seq<byte>): (d: seq<byte>)
    ensures |d| == 32
  {
    StateBytes(CompressBlocks(H0(), Pad(m), |Pad(m)| / 64))
  }

  /** The double hash Bitcoin uses. */
  function Sha256d(m: seq<byte>): (d: seq<byte>)
    ensures |d| == 32
  {
    Sha256(Sha256(m))
  }
}
