/** randomx-miner.c: the two nonce scans over RandomX, which is an arbitrary function here. */
module RandomxScan {
  import opened Words
  import opened Sha256Spec
  import opened Sha256dScan
  import opened HeaderHash

  type Digest = s: seq<byte> | |s| == 32 witness seq(32, _ => 0)

  /** A randomx_vm: some hash function for the dataset behind it, and the one input that
      randomx_calculate_hash_first and _next leave pending. */
  class Vm {
    const hash: seq<byte> -> Digest
    var pending: seq<byte>

    constructor (hash: seq<byte> -> Digest)
      ensures this.hash == hash
    {
      this.hash := hash;
      pending := [];
    }

    /** randomx_calculate_hash. */
    method CalculateHash(input: seq<byte>) returns (out: Digest)
      ensures out == hash(input)
    {
      out := hash(input);
    }

    /** randomx_calculate_hash_first: starts on `input`. */
    method HashFirst(input: seq<byte>)
      modifies this
      ensures pending == input
    {
      pending := input;
    }

    /** randomx_calculate_hash_next: the hash of the pending input, and `input` becomes pending. */
    method HashNext(input: seq<byte>) returns (out: Digest)
      modifies this
      ensures out == hash(old(pending)) && pending == input
    {
      out := hash(pending);
      pending := input;
    }
  }

  /** What a scan works on: header words, target, VM hash, commitment, limit, and the restart flag as a
      function of the hashes completed. */
  datatype Problem = Problem(
    data: seq<word>, target: seq<word>,
    hash: seq<byte> -> Digest, commit: (seq<byte>, Digest) -> Digest,
    limit: word, restart: nat -> bool)

  predicate WellSized(p: Problem) {
    |p.data| >= 20 && |p.target| >= 8
  }

  /** The serialized header that is hashed for nonce `n`: nineteen words most significant byte first, the
      nonce least significant byte first, and 32 zero bytes where the RandomX hash will go. */
  function HeaderFor(data: seq<word>, n: word): (h: seq<byte>)
    requires |data| >= 20
    ensures |h| == 112
  {
    HeaderBytes(data)[..76] + LE32Enc(n) + Zeros(32)
  }

  function RxHash(p: Problem, n: word): Digest
    requires WellSized(p)
  {
    p.hash(HeaderFor(p.data, n))
  }

  function Commitment(p: Problem, n: word): Digest
    requires WellSized(p)
  {
    p.commit(HeaderFor(p.data, n), RxHash(p, n))
  }

  /** The commitment for `n`, as a number, is at most the target. */
  predicate Meets(p: Problem, n: word)
    requires WellSized(p)
  {
    LittleEndian(Commitment(p, n)) <= Value(p.target[..8])
  }

  function TopWord(d: Digest): word {
    LE32Dec(d[28..32])
  }

  /** What the scan tests: the top word strictly below the target's, and then the whole number. */
  predicate Accepts(p: Problem, n: word)
    requires WellSized(p)
  {
    TopWord(Commitment(p, n)) < p.target[7] && Meets(p, n)
  }

  // ----- the order of digests -----

  function DigestWords(d: Digest): (w: seq<word>)
    ensures |w| == 8
  {
    [LE32Dec(d[0..4]), LE32Dec(d[4..8]), LE32Dec(d[8..12]), LE32Dec(d[12..16]),
     LE32Dec(d[16..20]), LE32Dec(d[20..24]), LE32Dec(d[24..28]), LE32Dec(d[28..32])]
  }

  lemma {:induction false} DigestValue(d: Digest, i: nat)
    requires i <= 8
    ensures Value(DigestWords(d)[i..]) == LittleEndian(d[4 * i..])
    decreases 8 - i
  {
    hide LE32Dec;
    if i < 8 {
      DigestValue(d, i + 1);
      var t := d[4 * i..];
      LittleEndianWord(t);
      assert t[4..] == d[4 * (i + 1)..] && t[..4] == d[4 * i..4 * i + 4];
      assert DigestWords(d)[i] == LE32Dec(d[4 * i..4 * i + 4]);
      assert DigestWords(d)[i..][1..] == DigestWords(d)[i + 1..];
    }
  }

  /** The scan misses a nonce that meets the target exactly when the top words are equal. */
  lemma AcceptsExactly(p: Problem, n: word)
    requires WellSized(p)
    ensures Accepts(p, n) <==> Meets(p, n) && TopWord(Commitment(p, n)) != p.target[7]
    ensures Accepts(p, n) <==> TopWord(Commitment(p, n)) < p.target[7]
  {
    hide LE32Dec;
    var d := Commitment(p, n);
    var w, t := DigestWords(d), p.target[..8];
    DigestValue(d, 0);
    assert w[0..] == w && d[0..] == d;
    if w[7] < t[7] {
      ValueOrder(w, t, 7);
    } else if w[7] > t[7] {
      ValueOrder(t, w, 7);
    }
  }

  /** The digest whose number has the given 32-bit digits. */
  function DigestOf(t: seq<word>): (d: Digest)
    requires |t| == 8
  {
    seq(32, k requires 0 <= k < 32 => LE32Enc(t[k / 4])[k % 4])
  }

  lemma DigestOfWords(t: seq<word>)
    requires |t| == 8
    ensures DigestWords(DigestOf(t)) == t
  {
    hide LE32Enc, LE32Dec;
    var d := DigestOf(t);
    forall i | 0 <= i < 8 ensures LE32Dec(d[4 * i..4 * i + 4]) == t[i] {
      var e := LE32Enc(t[i]);
      assert forall k | 0 <= k < 4 :: d[4 * i + k] == e[k];
      assert d[4 * i..4 * i + 4] == e;
      LE32RoundTrip(t[i]);
    }
  }

  // ----- the two scans, as functions -----

  /** A scan stops on a nonce, after so many hashes, having found a solution there or not. */
  datatype Outcome = Hit(nonce: word, hashes: nat) | Miss(nonce: word, hashes: nat)

  /** scanhash_randomx, with nonce `n` next and `k` hashes done. */
  function PlainFrom(p: Problem, n: word, k: nat): Outcome
    requires WellSized(p)
    decreases if n < p.limit then p.limit - n else 0x1_0000_0001
  {
    if Accepts(p, n) then Hit(n, k + 1)
    else
      var n' := Add(n, 1);
      if n' < p.limit && !p.restart(k + 1) then PlainFrom(p, n', k + 1) else Miss(n', k + 1)
  }

  /** scanhash_randomx_batch, likewise. */
  function BatchFrom(p: Problem, n: word, k: nat): Outcome
    requires WellSized(p)
    decreases if n < p.limit then p.limit - n else 0
  {
    if !(n < p.limit && !p.restart(k)) then Miss(n, k)
    else if Accepts(p, n) then Hit(n, k + 1)
    else BatchFrom(p, Add(n, 1), k + 1)
  }

  lemma {:induction false} NothingFound(p: Problem, n: word, k: nat)
    requires WellSized(p) && forall m: word :: !Accepts(p, m)
    ensures PlainFrom(p, n, k).Miss?
    decreases if n < p.limit then p.limit - n else 0x1_0000_0001
  {
    hide Accepts;
    var n' := Add(n, 1);
    if n' < p.limit && !p.restart(k + 1) {
      NothingFound(p, n', k + 1);
    }
  }

  /** The scan can lose every solution: with this commitment all nonces meet the target, which they reach
      exactly, and the scan finds none of them. */
  lemma LosesEverySolution(p: Problem) returns (q: Problem)
    requires WellSized(p)
    ensures q == p.(commit := q.commit) && forall n: word :: Meets(q, n)
    ensures forall n: word, k: nat :: PlainFrom(q, n, k).Miss?
  {
    var d := DigestOf(p.target[..8]);
    q := p.(commit := (_, _) => d);
    DigestOfWords(p.target[..8]);
    DigestValue(d, 0);
    assert d[0..] == d && DigestWords(d)[0..] == DigestWords(d);
    forall n: word ensures Meets(q, n) && !Accepts(q, n) {
      assert Commitment(q, n) == d && TopWord(d) == DigestWords(d)[7];
    }
    forall n: word, k: nat ensures PlainFrom(q, n, k).Miss? {
      NothingFound(q, n, k);
    }
  }

  lemma {:induction false} SameFrom(p: Problem, n: word, k: nat)
    requires WellSized(p) && n < p.limit && !p.restart(k)
    ensures BatchFrom(p, n, k) == PlainFrom(p, n, k)
    decreases p.limit - n
  {
    hide Accepts;
    var n' := Add(n, 1);
    if !Accepts(p, n) && n' < p.limit && !p.restart(k + 1) {
      SameFrom(p, n', k + 1);
    }
  }

  lemma {:induction false} PlainHashesSomething(p: Problem, n: word, k: nat)
    requires WellSized(p)
    ensures PlainFrom(p, n, k).hashes > k
    decreases if n < p.limit then p.limit - n else 0x1_0000_0001
  {
    hide Accepts;
    var n' := Add(n, 1);
    if !Accepts(p, n) && n' < p.limit && !p.restart(k + 1) {
      PlainHashesSomething(p, n', k + 1);
    }
  }

  /** The pipelined scan does what the plain scan does, exactly when there is anything to scan: the start
      below the limit and the restart flag clear. */
  lemma BatchIsPlain(p: Problem, start: word)
    requires WellSized(p)
    ensures BatchFrom(p, start, 0) == PlainFrom(p, start, 0) <==> start < p.limit && !p.restart(0)
  {
    hide Accepts;
    if start < p.limit && !p.restart(0) {
      SameFrom(p, start, 0);
    } else {
      PlainHashesSomething(p, start, 0);
    }
  }

  /** The `j`-th nonce from `n` is rejected. */
  predicate Rejected(p: Problem, n: word, j: nat)
    requires WellSized(p)
  {
    !Accepts(p, W32(n + j))
  }

  /** How many of the nonces tried were rejected. */
  function Rejections(o: Outcome): int {
    if o.Hit? then o.hashes - 1 else o.hashes
  }

  /** A hit is sound, and it is the first: every nonce tried before it was rejected; the count is the
      number of nonces tried. */
  lemma {:induction false} PlainIsSound(p: Problem, n: word, k: nat)
    requires WellSized(p)
    ensures var o := PlainFrom(p, n, k);
            && (o.Hit? ==> Accepts(p, o.nonce) && Meets(p, o.nonce))
            && k <= Rejections(o) && o.nonce == W32(n + Rejections(o) - k)
            && forall j: nat | j < Rejections(o) - k :: Rejected(p, n, j)
    decreases if n < p.limit then p.limit - n else 0x1_0000_0001
  {
    hide Meets, Commitment, TopWord, W32;
    var n' := Add(n, 1);
    AddThen(n, 0);
    if !Accepts(p, n) && n' < p.limit && !p.restart(k + 1) {
      AddGrows(n);
      PlainIsSound(p, n', k + 1);
      var o := PlainFrom(p, n', k + 1);
      forall j: nat | j < Rejections(o) - k ensures Rejected(p, n, j) {
        if j > 0 {
          assert Rejected(p, n', j - 1);
          AddThen(n, j - 1);
        }
      }
      AddThen(n, Rejections(o) - (k + 1));
    }
  }

  /** The pipelined scan's hits are sound as well. */
  lemma BatchIsSound(p: Problem, n: word, k: nat)
    requires WellSized(p)
    ensures var o := BatchFrom(p, n, k); o.Hit? ==> Accepts(p, o.nonce) && Meets(p, o.nonce)
  {
    hide Accepts, Meets;
    if n < p.limit && !p.restart(k) {
      SameFrom(p, n, k);
      PlainIsSound(p, n, k);
    }
  }

  // ----- what a scan may report, without naming how it runs -----

  /** In front of its `j`-th nonce the scan goes on: the nonce is below the limit, and the restart flag, as it
      reads after `k + j` hashes, is clear. */
  predicate GoesOn(p: Problem, n: word, k: nat, j: nat) {
    W32(n + j) < p.limit && !p.restart(k + j)
  }

  /** A scan from nonce `n`, with `k` hashes done, reports the outcome `o`. It stops on its `t`-th nonce: all before
      it were rejected, and nothing stopped the scan in front of any of them. A hit is accepted; a miss has the
      limit or the flag for its reason. `early` tells whether limit and flag count in front of the first nonce. */
  predicate Reports(p: Problem, n: word, k: nat, o: Outcome, early: bool)
    requires WellSized(p)
  {
    var t := Rejections(o) - k;
    && t >= 0 && o.nonce == W32(n + t)
    && (forall j: nat | j < t :: Rejected(p, n, j))
    && (forall j: nat | (if early then 0 else 1) <= j < t :: GoesOn(p, n, k, j))
    && if o.Hit? then Accepts(p, o.nonce) && (t > 0 || early ==> GoesOn(p, n, k, t))
       else (t > 0 || early) && !GoesOn(p, n, k, t)
  }

  lemma Shifted(p: Problem, n: word, k: nat, j: nat)
    requires WellSized(p)
    ensures Rejected(p, Add(n, 1), j) == Rejected(p, n, j + 1)
    ensures GoesOn(p, Add(n, 1), k + 1, j) == GoesOn(p, n, k, j + 1)
  {
    hide Accepts, W32;
    AddThen(n, j);
  }

  /** One nonce in front: it was rejected, and the scan went on to the next. */
  lemma ReportsBefore(p: Problem, n: word, k: nat, o: Outcome)
    requires WellSized(p) && !Accepts(p, n) && Reports(p, Add(n, 1), k + 1, o, true)
    ensures Reports(p, n, k, o, false)
  {
    hide Accepts, W32, GoesOn, Rejected;
    var t := Rejections(o) - k;
    AddThen(n, 0);
    AddThen(n, t - 1);
    FirstRejected(p, n);
    forall j: nat | 1 <= j <= t
      ensures Rejected(p, n, j) == Rejected(p, Add(n, 1), j - 1)
      ensures GoesOn(p, n, k, j) == GoesOn(p, Add(n, 1), k + 1, j - 1)
    {
      Shifted(p, n, k, j - 1);
    }
  }

  lemma FirstRejected(p: Problem, n: word)
    requires WellSized(p)
    ensures Rejected(p, n, 0) == !Accepts(p, n)
  {
  }

  lemma EarlyReports(p: Problem, n: word, k: nat, o: Outcome)
    requires WellSized(p) && Reports(p, n, k, o, false) && GoesOn(p, n, k, 0)
    ensures Reports(p, n, k, o, true)
  {
    hide Accepts, W32, GoesOn, Rejected;
  }

  lemma {:induction false} PlainReports(p: Problem, n: word, k: nat)
    requires WellSized(p)
    ensures Reports(p, n, k, PlainFrom(p, n, k), false)
    decreases if n < p.limit then p.limit - n else 0x1_0000_0001
  {
    hide Accepts;
    var n', o := Add(n, 1), PlainFrom(p, n, k);
    AddThen(n, 0);
    if !Accepts(p, n) {
      if n' < p.limit && !p.restart(k + 1) {
        AddGrows(n);
        PlainReports(p, n', k + 1);
        EarlyReports(p, n', k + 1, o);
      }
      ReportsBefore(p, n, k, o);
    }
  }

  lemma BatchReports(p: Problem, n: word, k: nat)
    requires WellSized(p)
    ensures Reports(p, n, k, BatchFrom(p, n, k), true)
  {
    hide Accepts;
    AddThen(n, 0);
    if n < p.limit && !p.restart(k) {
      SameFrom(p, n, k);
      PlainReports(p, n, k);
      EarlyReports(p, n, k, BatchFrom(p, n, k));
    }
  }

  lemma RejectedIs(p: Problem, n: word, j: nat)
    requires WellSized(p)
    ensures Rejected(p, n, j) == !Accepts(p, W32(n + j))
  {
  }

  /** Only one outcome can be reported. */
  lemma ReportsOnce(p: Problem, n: word, k: nat, o: Outcome, o': Outcome, early: bool)
    requires WellSized(p) && Reports(p, n, k, o, early) && Reports(p, n, k, o', early)
    ensures o == o'
  {
    hide Accepts, W32, GoesOn, Rejected;
    RejectedIs(p, n, Rejections(o) - k);
    RejectedIs(p, n, Rejections(o') - k);
  }

  lemma AddThen(n: word, y: int)
    ensures W32(n) == n && W32(Add(n, 1) + y) == W32(n + 1 + y) && W32(Add(n, 1)) == Add(n, 1) == W32(n + 1)
  {
  }

  lemma AddGrows(n: word)
    ensures Add(n, 1) == if n == 0xffff_ffff then 0 else n + 1
  {
  }

  // ----- the two scans, as they run -----

  /** le32enc into the header's nonce bytes. */
  method PutNonce(header: array<byte>, n: word, ghost data: seq<word>)
    requires header.Length == 112 && |data| >= 20
    requires header[..76] == HeaderBytes(data)[..76] && header[80..] == Zeros(32)
    modifies header
    ensures header[..] == HeaderFor(data, n)
    ensures header[..76] == HeaderBytes(data)[..76] && header[80..] == Zeros(32)
  {
    hide HeaderBytes, LE32Enc, Zeros;
    ghost var front, back := header[..76], header[80..];
    var e := LE32Enc(n);
    header[76], header[77], header[78], header[79] := e[0], e[1], e[2], e[3];
    assert header[..76] == front && header[80..] == back && header[76..80] == e;
    assert header[..] == header[..76] + header[76..80] + header[80..];
  }

  lemma HeaderWord(data: seq<word>, i: nat)
    requires |data| >= 20 && i < 20
    ensures HeaderBytes(data)[4 * i..4 * i + 4] == BE32Enc(data[i])
  {
    hide BE32Enc;
    var s, e := HeaderBytes(data)[4 * i..4 * i + 4], BE32Enc(data[i]);
    assert forall k | 0 <= k < 4 :: s[k] == HeaderBytes(data)[4 * i + k] == e[k];
  }

  /** The header buffer both scans build: zeroed, then twenty words most significant byte first. */
  method SerializeHeader(pdata: array<word>) returns (header: array<byte>)
    requires pdata.Length >= 20
    ensures fresh(header) && header.Length == 112
    ensures header[..80] == HeaderBytes(pdata[..]) && header[80..] == Zeros(32)
  {
    hide BE32Enc, HeaderBytes;
    header := new byte[112](_ => 0);
    for i := 0 to 20
      modifies header
      invariant header[..4 * i] == HeaderBytes(pdata[..])[..4 * i]
      invariant header[80..] == Zeros(32)
    {
      var e := BE32Enc(pdata[i]);
      HeaderWord(pdata[..], i);
      ghost var front := header[..4 * i];
      header[4 * i], header[4 * i + 1], header[4 * i + 2], header[4 * i + 3] := e[0], e[1], e[2], e[3];
      assert header[..4 * (i + 1)] == front + e;
      assert HeaderBytes(pdata[..])[..4 * (i + 1)] == front + HeaderBytes(pdata[..])[4 * i..4 * i + 4];
    }
    assert header[..76] == header[..80][..76] && HeaderBytes(pdata[..])[..80] == HeaderBytes(pdata[..]);
  }

  /** The test both scans put to a commitment. */
  method CheckCommitment(p: Problem, ptarget: array<word>, n: word, cm: Digest) returns (found: bool)
    requires WellSized(p) && ptarget[..] == p.target && cm == Commitment(p, n)
    ensures found <==> Accepts(p, n)
  {
    hide LE32Dec, Commitment, Value, LittleEndian;
    var w := DigestWords(cm);
    DigestValue(cm, 0);
    assert w[0..] == w && cm[0..] == cm;
    found := false;
    if w[7] < ptarget[7] {
      var hash := new word[8](i requires 0 <= i < 8 => w[i]);
      assert hash[..8] == w;
      found := Fulltest(hash, ptarget);
    }
  }

  /** memcpy of a digest. */
  method CopyDigest(dst: array<byte>, d: Digest)
    requires dst.Length == 32
    modifies dst
    ensures dst[..] == d
  {
    for i := 0 to 32
      invariant dst[..i] == d[..i]
    {
      dst[i] := d[i];
    }
  }

  /** What a scan leaves behind for an outcome: on a hit the nonce word is byte-swapped, because be32enc
      writes it into memory, and the RandomX hash is stored; on a miss the next nonce is kept. */
  predicate Leaves(o: Outcome, p: Problem, rc: int, count: word, data: seq<word>, stored: seq<byte>, before: seq<byte>)
    requires WellSized(p)
  {
    && count == W32(o.hashes)
    && if o.Hit? then rc == 1 && data == p.data[19 := Swab32(o.nonce)] && stored == RxHash(p, o.nonce)
       else rc == 0 && data == p.data[19 := o.nonce] && stored == before
  }

  /** scanhash_randomx. `p` names the problem that the arguments pose. */
  method ScanhashRandomx(pdata: array<word>, ptarget: array<word>, vm: Vm, outRxHash: array<byte>, p: Problem)
    returns (rc: int, hashesDone: word)
    requires WellSized(p) && pdata[..] == p.data && ptarget[..] == p.target && vm.hash == p.hash
    requires outRxHash.Length == 32 && pdata != ptarget
    modifies pdata, outRxHash
    ensures Leaves(PlainFrom(p, p.data[19], 0), p, rc, hashesDone, pdata[..], outRxHash[..], old(outRxHash[..]))
    ensures Reports(p, p.data[19], 0, PlainFrom(p, p.data[19], 0), false)
  {
    hide Reports, Accepts, Commitment, HeaderFor, HeaderBytes, Zeros, Swab32, W32, Add;
    var first: int := pdata[19];
    var n: word := pdata[19];
    AddThen(pdata[19], 0);
    assert Reports(p, p.data[19], 0, PlainFrom(p, p.data[19], 0), false) by {
      PlainReports(p, p.data[19], 0);
    }
    var header := SerializeHeader(pdata);
    var k := 0; // hashes so far: when the restart flag is read
    while true
      modifies header, pdata, outRxHash
      invariant pdata[..] == p.data && outRxHash[..] == old(outRxHash[..])
      invariant header[..76] == HeaderBytes(p.data)[..76] && header[80..] == Zeros(32)
      invariant n == W32(first + k)
      invariant PlainFrom(p, p.data[19], 0) == PlainFrom(p, n, k)
      invariant k > 0 ==> n < p.limit
      decreases if n < p.limit then p.limit - n else 0x1_0000_0001
    {
      PutNonce(header, n, p.data);
      var rxHash := vm.CalculateHash(header[..]);
      var cm := p.commit(header[..], rxHash);
      CommitmentIs(p, n, rxHash, cm);
      var found := CheckCommitment(p, ptarget, n, cm);
      if found {
        W32Absorbs(first + k, 1 - first);
        hashesDone := W32(n - first + 1);
        pdata[19] := Swab32(n);
        CopyDigest(outRxHash, rxHash);
        assert pdata[..] == p.data[19 := Swab32(n)];
        return 1, hashesDone;
      }
      AddThen(n, 0);
      AddGrows(n);
      W32Absorbs(first + k, 1);
      assert W32(n + 1) == W32(first + k + 1);
      n := Add(n, 1);
      k := k + 1;
      if !(n < p.limit && !p.restart(k)) {
        break;
      }
    }
    W32Absorbs(first + k, -first);
    hashesDone := W32(n - first);
    pdata[19] := n;
    assert pdata[..] == p.data[19 := n];
    return 0, hashesDone;
  }

  lemma CommitmentIs(p: Problem, n: word, h: Digest, cm: Digest)
    requires WellSized(p) && h == p.hash(HeaderFor(p.data, n)) && cm == p.commit(HeaderFor(p.data, n), h)
    ensures h == RxHash(p, n) && cm == Commitment(p, n)
  {
  }

  /** scanhash_randomx_batch. At the loop head the VM holds the header for nonce `n` pending. */
  method ScanhashRandomxBatch(pdata: array<word>, ptarget: array<word>, vm: Vm, outRxHash: array<byte>, p: Problem)
    returns (rc: int, hashesDone: word)
    requires WellSized(p) && pdata[..] == p.data && ptarget[..] == p.target && vm.hash == p.hash
    requires outRxHash.Length == 32 && pdata != ptarget
    modifies pdata, vm, outRxHash
    ensures Leaves(BatchFrom(p, p.data[19], 0), p, rc, hashesDone, pdata[..], outRxHash[..], old(outRxHash[..]))
    ensures Reports(p, p.data[19], 0, BatchFrom(p, p.data[19], 0), true)
  {
    hide Reports, Accepts, Commitment, HeaderFor, HeaderBytes, Zeros, Swab32, W32, Add;
    var first: int := pdata[19];
    var n: word := pdata[19];
    assert Reports(p, p.data[19], 0, BatchFrom(p, p.data[19], 0), true) by {
      BatchReports(p, p.data[19], 0);
    }
    var header := SerializeHeader(pdata);
    PutNonce(header, n, p.data);
    vm.HashFirst(header[..]);
    var k := 0; // hashes so far: when the restart flag is read
    while n < p.limit && !p.restart(k)
      modifies header, vm, pdata, outRxHash
      invariant pdata[..] == p.data && outRxHash[..] == old(outRxHash[..])
      invariant header[..76] == HeaderBytes(p.data)[..76] && header[80..] == Zeros(32)
      invariant n == first + k
      invariant BatchFrom(p, p.data[19], 0) == BatchFrom(p, n, k)
      invariant vm.pending == HeaderFor(p.data, n)
      decreases p.limit - n
    {
      PutNonce(header, Add(n, 1), p.data);
      var rxHash := vm.HashNext(header[..]);
      PutNonce(header, n, p.data);
      var cm := p.commit(header[..], rxHash);
      CommitmentIs(p, n, rxHash, cm);
      var found := CheckCommitment(p, ptarget, n, cm);
      if found {
        hashesDone := W32(n - first + 1);
        pdata[19] := Swab32(n);
        CopyDigest(outRxHash, rxHash);
        assert pdata[..] == p.data[19 := Swab32(n)];
        return 1, hashesDone;
      }
      AddGrows(n);
      n := Add(n, 1);
      k := k + 1;
    }
    hashesDone := W32(n - first);
    pdata[19] := n;
    assert pdata[..] == p.data[19 := n];
    return 0, hashesDone;
  }
}
