/** cpu-miner.c: the header from block template to submitted block. */
module HeaderChain {
  import opened Words
  import opened Radix
  import opened Sha256Spec
  import opened Sha256dScan
  import opened HeaderHash
  import opened RandomxScan

  type Bytes4 = s: seq<byte> | |s| == 4 witness [0, 0, 0, 0]

  /** What getblocktemplate gives for the header: the hashes and the bits in the byte order of their hex
      strings, and the Merkle root as hashed. */
  datatype Template = Template(
    version: word, prevhash: Digest, merkleRoot: Digest, curtime: word, bits: Bytes4, target: Digest)

  /** The serialized block header for nonce `n`, as the network defines it. */
  function BlockHeader(t: Template, n: word): (h: seq<byte>)
    ensures |h| == 80
  {
    LE32Enc(t.version) + Reversed(t.prevhash) + t.merkleRoot + LE32Enc(t.curtime) + Reversed(t.bits) + LE32Enc(n)
  }

  /** The target: a 256-bit number whose hex digits come most significant first. */
  function TargetNumber(t: Template): nat {
    Number(t.target, 0x100)
  }

  /** The word `w` encodes the `i`-th four bytes of the block header. */
  predicate WordHolds(w: word, t: Template, i: nat)
    requires i < 19
  {
    BE32Enc(w) == BlockHeader(t, 0)[4 * i..4 * i + 4]
  }

  /** The words hold the template's header up to the nonce, then the padding of an 80-byte message. */
  predicate Assembled(data: seq<word>, t: Template) {
    && |data| == 32
    && (forall i | 0 <= i < 19 :: WordHolds(data[i], t, i))
    && data[19] == 0 && HeaderTail(data[16..32])
  }

  lemma FourReversed(s: seq<byte>)
    requires |s| == 4
    ensures BE32Enc(LE32Dec(s)) == Reversed(s) && LE32Enc(BE32Dec(s)) == Reversed(s)
  {
    var r := Reversed(s);
    assert r == [s[3], s[2], s[1], s[0]];
    BE32DecEnc(r);
    LE32DecEnc(r);
  }

  /** The parts of the block header. */
  lemma HeaderParts(t: Template, n: word)
    ensures var h := BlockHeader(t, n);
            && h[0..4] == LE32Enc(t.version) && h[4..36] == Reversed(t.prevhash) && h[36..68] == t.merkleRoot
            && h[68..72] == LE32Enc(t.curtime) && h[72..76] == Reversed(t.bits) && h[76..80] == LE32Enc(n)
    ensures BlockHeader(t, n) == BlockHeader(t, 0)[..76] + LE32Enc(n)
  {
    hide LE32Enc;
    var h := BlockHeader(t, n);
    assert h[..76] == BlockHeader(t, 0)[..76];
    assert h[4..36] == Reversed(t.prevhash);
    assert h[36..68] == t.merkleRoot;
  }

  lemma LittleEndianOfWord(x: word)
    ensures LittleEndian(LE32Enc(x)) == x
  {
    hide LE32Enc, LE32Dec;
    LE32RoundTrip(x);
    LittleEndianWord(LE32Enc(x));
    assert LE32Enc(x)[..4] == LE32Enc(x) && LE32Enc(x)[4..] == [];
  }

  /** The fields of the block header, in order, read as the network reads them: least significant byte first. The
      hex numbers of the template are its previous hash and its bits. */
  lemma HeaderFields(t: Template, n: word)
    ensures var h := BlockHeader(t, n);
            && LittleEndian(h[0..4]) == t.version && LittleEndian(h[4..36]) == Number(t.prevhash, 0x100)
            && h[36..68] == t.merkleRoot && LittleEndian(h[68..72]) == t.curtime
            && LittleEndian(h[72..76]) == Number(t.bits, 0x100) && LittleEndian(h[76..80]) == n
  {
    hide BlockHeader, LE32Enc, LittleEndian, Number;
    HeaderParts(t, n);
    LittleEndianOfWord(t.version);
    LittleEndianOfWord(t.curtime);
    LittleEndianOfWord(n);
    BothEnds(t.prevhash);
    BothEnds(t.bits);
  }

  lemma PrevhashWord(t: Template, i: nat)
    requires i < 8
    ensures BE32Enc(LE32Dec(t.prevhash[4 * i..4 * i + 4])) == BlockHeader(t, 0)[4 * (8 - i)..4 * (8 - i) + 4]
  {
    hide BE32Enc, LE32Dec, BlockHeader;
    HeaderParts(t, 0);
    var p := t.prevhash[4 * i..4 * i + 4];
    FourReversed(p);
    var h, r := BlockHeader(t, 0), Reversed(t.prevhash);
    var w := h[4 * (8 - i)..4 * (8 - i) + 4];
    forall k | 0 <= k < 4 ensures w[k] == Reversed(p)[k] {
      assert w[k] == h[32 - 4 * i + k] == h[4..36][28 - 4 * i + k] == r[28 - 4 * i + k];
      assert p[3 - k] == t.prevhash[4 * i + 3 - k];
    }
  }

  lemma MerkleWord(t: Template, i: nat)
    requires i < 8
    ensures BE32Enc(BE32Dec(t.merkleRoot[4 * i..4 * i + 4])) == BlockHeader(t, 0)[4 * (9 + i)..4 * (9 + i) + 4]
  {
    hide BE32Enc, BE32Dec, BlockHeader;
    HeaderParts(t, 0);
    BE32DecEnc(t.merkleRoot[4 * i..4 * i + 4]);
    var h := BlockHeader(t, 0);
    assert h[4 * (9 + i)..4 * (9 + i) + 4] == h[36..68][4 * i..4 * i + 4];
  }

  lemma ScalarWords(t: Template)
    ensures var h := BlockHeader(t, 0);
            && BE32Enc(Swab32(t.version)) == h[0..4] && BE32Enc(Swab32(t.curtime)) == h[68..72]
            && BE32Enc(LE32Dec(t.bits)) == h[72..76]
  {
    hide BE32Enc, LE32Dec, LE32Enc, Swab32, BlockHeader;
    HeaderParts(t, 0);
    Swab32Laws(t.version);
    Swab32Laws(t.curtime);
    FourReversed(t.bits);
  }

  /** The header part of gbt_work_decode. */
  method AssembleHeader(data: array<word>, t: Template)
    requires data.Length == 32
    modifies data
    ensures Assembled(data[..], t)
  {
    hide BE32Enc, BE32Dec, LE32Dec, Swab32, BlockHeader, HeaderTail;
    ScalarWords(t);
    data[0] := Swab32(t.version);
    for i := 0 to 8
      invariant WordHolds(data[0], t, 0)
      invariant forall j | 8 - i < j <= 8 :: WordHolds(data[j], t, j)
    {
      PrevhashWord(t, i);
      data[8 - i] := LE32Dec(t.prevhash[4 * i..4 * i + 4]);
    }
    for i := 0 to 8
      invariant forall j | 0 <= j < 9 + i :: WordHolds(data[j], t, j)
    {
      MerkleWord(t, i);
      data[9 + i] := BE32Dec(t.merkleRoot[4 * i..4 * i + 4]);
    }
    data[17] := Swab32(t.curtime);
    data[18] := LE32Dec(t.bits);
    for i := 19 to 32
      invariant forall j | 0 <= j < 19 :: WordHolds(data[j], t, j)
      invariant forall j | 19 <= j < i :: data[j] == 0
    {
      data[i] := 0;
    }
    data[20] := 0x80000000;
    data[31] := 0x280;
    HasTail(data[..]);
  }

  lemma HasTail(data: seq<word>)
    requires |data| == 32 && data[20] == 0x80000000 && data[31] == 0x280 && forall j | 21 <= j < 31 :: data[j] == 0
    ensures HeaderTail(data[16..32])
  {
    var m := data[16..32];
    assert forall i | 0 <= i < 16 :: m[i] == data[16 + i];
  }

  lemma TargetWord(t: Template, k: nat)
    requires k < 8
    ensures BE32Dec(t.target[28 - 4 * k..32 - 4 * k]) == LE32Dec(Reversed(t.target)[4 * k..4 * k + 4])
  {
    var s, r := t.target[28 - 4 * k..32 - 4 * k], Reversed(t.target)[4 * k..4 * k + 4];
    assert forall j | 0 <= j < 4 :: s[j] == t.target[28 - 4 * k + j] == Reversed(t.target)[3 + 4 * k - j] == r[3 - j];
  }

  /** A big-endian numeral is the little-endian reading of the reversed bytes. */
  lemma {:induction false} BothEnds(s: seq<byte>)
    ensures LittleEndian(Reversed(s)) == Number(s, 0x100)
  {
    if s != [] {
      var s' := s[..|s| - 1];
      BothEnds(s');
      assert Reversed(s)[1..] == Reversed(s');
    }
  }

  /** The target part of gbt_work_decode: the last four bytes are the lowest word. */
  method AssembleTarget(target: array<word>, t: Template)
    requires target.Length == 8
    modifies target
    ensures Value(target[..]) == TargetNumber(t)
  {
    hide BE32Dec, LE32Dec, Value, LittleEndian, Number;
    ghost var d: Digest := Reversed(t.target);
    for i := 0 to 8
      invariant forall k | 8 - i <= k < 8 :: target[k] == LE32Dec(d[4 * k..4 * k + 4])
    {
      TargetWord(t, 7 - i);
      target[7 - i] := BE32Dec(t.target[4 * i..4 * i + 4]);
    }
    assert target[..] == DigestWords(d);
    DigestValue(d, 0);
    assert DigestWords(d)[0..] == DigestWords(d) && d[0..] == d;
    BothEnds(t.target);
  }

  /** The assembled words with a nonce serialize, for hashing, to the block header and 32 zero bytes. */
  lemma HashedBytes(data: seq<word>, t: Template, n: word)
    requires |data| == 32 && forall i | 0 <= i < 19 :: WordHolds(data[i], t, i)
    ensures HeaderFor(data, n) == BlockHeader(t, n) + Zeros(32)
  {
    hide BlockHeader, BE32Enc, LE32Enc;
    HeaderParts(t, n);
    var h := BlockHeader(t, 0);
    forall j | 0 <= j < 76 ensures HeaderBytes(data)[j] == h[j] {
      assert WordHolds(data[j / 4], t, j / 4);
      assert h[j] == h[4 * (j / 4)..4 * (j / 4) + 4][j % 4];
    }
    assert HeaderBytes(data)[..76] == h[..76];
  }

  /** The bytes of a uint32_t array on a little-endian host. */
  function Memory(data: seq<word>): (m: seq<byte>)
    ensures |m| == 4 * |data|
  {
    seq(4 * |data|, k requires 0 <= k < 4 * |data| => LE32Enc(data[k / 4])[k % 4])
  }

  lemma SwappedMemory(before: seq<word>, data: seq<word>)
    requires |before| >= 20 && |data| >= 20 && forall i | 0 <= i < 20 :: data[i] == Swab32(before[i])
    ensures Memory(data)[..80] == HeaderBytes(before)
  {
    hide LE32Enc, BE32Enc, Swab32;
    forall k | 0 <= k < 80 ensures Memory(data)[k] == HeaderBytes(before)[k] {
      Swab32Laws(before[k / 4]);
    }
  }

  lemma StoredHash(data: seq<word>, h: Digest)
    requires |data| >= 28 && forall i | 0 <= i < 8 :: data[20 + i] == LE32Dec(h[4 * i..4 * i + 4])
    ensures Memory(data)[80..112] == h
  {
    hide LE32Enc, LE32Dec;
    var m := Memory(data)[80..112];
    forall k | 0 <= k < 32 ensures m[k] == h[k] {
      var i := k / 4;
      LE32DecEnc(h[4 * i..4 * i + 4]);
      assert m[k] == LE32Enc(data[20 + i])[k % 4];
      assert h[k] == h[4 * i..4 * i + 4][k % 4];
    }
  }

  /** submit_upstream_work: byte-swaps the header words in place, copies the RandomX hash over the words
      after them, and submits the first 112 bytes. */
  method SerializeWork(data: array<word>, rxHash: array<byte>) returns (submitted: seq<byte>)
    requires data.Length == 32 && rxHash.Length == 32
    modifies data
    ensures submitted == HeaderBytes(old(data[..])) + rxHash[..]
  {
    hide LE32Enc, LE32Dec, Swab32, Memory, HeaderBytes;
    for i := 0 to 32
      invariant forall j | 0 <= j < i :: data[j] == Swab32(old(data[j]))
      invariant forall j | i <= j < 32 :: data[j] == old(data[j])
    {
      data[i] := Swab32(data[i]);
    }
    for i := 0 to 8
      invariant forall j | 0 <= j < 20 :: data[j] == Swab32(old(data[j]))
      invariant forall j | 0 <= j < i :: data[20 + j] == LE32Dec(rxHash[4 * j..4 * j + 4])
    {
      data[20 + i] := LE32Dec(rxHash[4 * i..4 * i + 4]);
    }
    SwappedMemory(old(data[..]), data[..]);
    StoredHash(data[..], rxHash[..]);
    submitted := Memory(data[..])[..112];
    assert submitted == Memory(data[..])[..80] + Memory(data[..])[80..112];
  }

  /** `h` is a winning submission for the template: its block header with some nonce, then the RandomX hash
      of that header, whose commitment is at most the target. */
  predicate Winning(t: Template, n: word, hash: seq<byte> -> Digest, commit: (seq<byte>, Digest) -> Digest,
      h: seq<byte>) {
    var unsealed := BlockHeader(t, n) + Zeros(32);
    && h == BlockHeader(t, n) + hash(unsealed)
    && LittleEndian(commit(unsealed, hash(unsealed))) <= TargetNumber(t)
  }

  /** After a hit the header words hold the block header with the nonce that was found. */
  lemma FoundHeader(before: seq<word>, data: seq<word>, t: Template, n: word)
    requires |before| == 32 && (forall i | 0 <= i < 19 :: WordHolds(before[i], t, i))
    requires data == before[19 := Swab32(n)]
    ensures HeaderBytes(data) == BlockHeader(t, n)
  {
    hide BlockHeader, BE32Enc, LE32Enc, Swab32;
    HashedBytes(before, t, n);
    Swab32Laws(n);
    HeaderWord(data, 19);
    var h := HeaderFor(before, n);
    assert HeaderBytes(data)[..76] == HeaderBytes(before)[..76] == h[..76] == BlockHeader(t, n)[..76];
    HeaderParts(t, n);
    assert BlockHeader(t, n) == BlockHeader(t, n)[..76] + BlockHeader(t, n)[76..80];
    assert HeaderBytes(data) == HeaderBytes(data)[..76] + HeaderBytes(data)[76..80];
  }

  lemma HitWins(p: Problem, t: Template, o: Outcome, data: seq<word>, stored: seq<byte>)
    requires WellSized(p) && |p.data| == 32 && |p.target| == 8 && o.Hit?
    requires Meets(p, o.nonce) && Value(p.target) == TargetNumber(t)
    requires forall i | 0 <= i < 19 :: WordHolds(p.data[i], t, i)
    requires data == p.data[19 := Swab32(o.nonce)] && stored == RxHash(p, o.nonce)
    ensures Winning(t, o.nonce, p.hash, p.commit, HeaderBytes(data) + stored)
  {
    hide BlockHeader, HeaderFor, HeaderBytes, Zeros, Swab32, Value, LittleEndian, TargetNumber, WordHolds;
    FoundHeader(p.data, data, t, o.nonce);
    HashedBytes(p.data, t, o.nonce);
    assert p.target[..8] == p.target;
  }

  /** The scan problem `p` is the template's: every nonce is hashed in the template's block header, and the
      target is the template's. */
  predicate Poses(p: Problem, t: Template) {
    && |p.data| == 32 && |p.target| == 8 && Value(p.target) == TargetNumber(t)
    && forall n: word :: HeaderFor(p.data, n) == BlockHeader(t, n) + Zeros(32)
  }

  lemma PosesTemplate(p: Problem, t: Template)
    requires |p.data| == 32 && |p.target| == 8 && Value(p.target) == TargetNumber(t)
    requires forall i | 0 <= i < 19 :: WordHolds(p.data[i], t, i)
    ensures Poses(p, t)
  {
    hide WordHolds, BlockHeader, HeaderFor;
    forall n: word ensures HeaderFor(p.data, n) == BlockHeader(t, n) + Zeros(32) {
      HashedBytes(p.data, t, n);
    }
  }

  /** From template to submission: assemble the header and the target, scan from some nonce with either
      scan, and serialize on a find. */
  method MineTemplate(t: Template, vm: Vm, commit: (seq<byte>, Digest) -> Digest, start: word, limit: word,
                      restart: nat -> bool, batch: bool)
    returns (found: bool, n: word, submitted: seq<byte>, ghost p: Problem)
    modifies vm
    ensures WellSized(p) && Poses(p, t) && p.hash == vm.hash && p.commit == commit && p.limit == limit
        && p.restart == restart
    ensures var o := if batch then BatchFrom(p, start, 0) else PlainFrom(p, start, 0);
            n == o.nonce && found == o.Hit? && Reports(p, start, 0, o, batch)
    ensures if found then Winning(t, n, vm.hash, commit, submitted) else submitted == []
  {
    hide Assembled, BlockHeader, WordHolds, Value, TargetNumber, Winning, Swab32, HeaderTail, PlainFrom, BatchFrom,
         Meets, Accepts, HeaderBytes, RxHash, Poses, Reports;
    var data := new word[32](_ => 0);
    var target := new word[8](_ => 0);
    var rxHash := new byte[32](_ => 0);
    AssembleHeader(data, t);
    AssembleTarget(target, t);
    AssembledWords(data[..], t);
    ghost var d0 := data[..];
    data[19] := start;
    assert data[..] == d0[19 := start];
    assert forall i | 0 <= i < 19 :: data[i] == d0[i] && WordHolds(d0[i], t, i);
    var work := Problem(data[..], target[..], vm.hash, commit, limit, restart);
    p := work;
    PosesTemplate(p, t);
    PosesSizes(p, t);
    var rc, hashesDone;
    ghost var o;
    if batch {
      rc, hashesDone := ScanhashRandomxBatch(data, target, vm, rxHash, work);
      o := BatchFrom(p, start, 0);
      BatchIsSound(p, start, 0);
    } else {
      rc, hashesDone := ScanhashRandomx(data, target, vm, rxHash, work);
      o := PlainFrom(p, start, 0);
      PlainIsSound(p, start, 0);
    }
    found, n, submitted := rc == 1, data[19], [];
    if found {
      n := Swab32(n);
      Swab32Laws(o.nonce);
      HitWins(p, t, o, data[..], rxHash[..]);
      submitted := SerializeWork(data, rxHash);
    }
  }

  lemma PosesSizes(p: Problem, t: Template)
    requires Poses(p, t)
    ensures WellSized(p)
  {
  }

  lemma AssembledWords(data: seq<word>, t: Template)
    requires Assembled(data, t)
    ensures |data| == 32 && forall i | 0 <= i < 19 :: WordHolds(data[i], t, i)
  {
  }
}
