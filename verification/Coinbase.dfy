/** cpu-miner.c: the coinbase transaction that gbt_work_decode builds. */
module Coinbase {
  import opened Words
  import opened Radix
  import opened Sha256Spec
  import opened Sha256Bytes
  import opened HeaderHash
  import opened Merkle
  import opened Script

  // ----- transactions with one input, and their serialization -----

  datatype Output = Output(value: nat, script: seq<byte>)

  /** A transaction with one input: the output that the input spends, then script and sequence number. */
  datatype Tx = Tx(version: word, spent: seq<byte>, scriptSig: seq<byte>, sequence: word, outputs: seq<Output>,
                   lockTime: word)

  datatype Parsed<T> = Good(value: T, rest: seq<byte>) | Bad

  function LE64(v: nat): (s: seq<byte>)
    ensures |s| == 8
  {
    LE32Enc(W32(v)) + LE32Enc(W32(v / 0x1_0000_0000))
  }

  predicate OutputOk(o: Output) {
    o.value < 0x1_0000_0000_0000_0000 && |o.script| < 0xfd
  }

  /** All lengths are of the kind that one byte encodes. */
  predicate TxOk(t: Tx) {
    && |t.spent| == 36 && |t.scriptSig| < 0xfd && |t.outputs| < 0xfd
    && forall i | 0 <= i < |t.outputs| :: OutputOk(t.outputs[i])
  }

  function OutputBytes(o: Output): seq<byte>
    requires OutputOk(o)
  {
    LE64(o.value) + [|o.script|] + o.script
  }

  function OutputsBytes(os: seq<Output>): seq<byte>
    requires forall i | 0 <= i < |os| :: OutputOk(os[i])
  {
    if os == [] then [] else OutputBytes(os[0]) + OutputsBytes(os[1..])
  }

  function Head(t: Tx): seq<byte> {
    LE32Enc(t.version) + [1] + t.spent
  }

  function Serialize(t: Tx): seq<byte>
    requires TxOk(t)
  {
    Head(t) + [|t.scriptSig|] + t.scriptSig + LE32Enc(t.sequence) + [|t.outputs|] + OutputsBytes(t.outputs)
    + LE32Enc(t.lockTime)
  }

  // ----- reading it back -----

  function ParseWord(s: seq<byte>): Parsed<word> {
    if |s| < 4 then Bad else Good(LE32Dec(s[..4]), s[4..])
  }

  function ParseBytes(s: seq<byte>, n: nat): Parsed<seq<byte>> {
    if |s| < n then Bad else Good(s[..n], s[n..])
  }

  /** A byte string with its length before it; lengths from 0xfd take more than one byte and do not occur here. */
  function ParseString(s: seq<byte>): Parsed<seq<byte>> {
    if s == [] || s[0] >= 0xfd then Bad else ParseBytes(s[1..], s[0])
  }

  function ParseOutput(s: seq<byte>): Parsed<Output> {
    match ParseWord(s)
    case Bad => Bad
    case Good(lo, s1) =>
      match ParseWord(s1)
      case Bad => Bad
      case Good(hi, s2) =>
        match ParseString(s2)
        case Bad => Bad
        case Good(script, rest) => Good(Output(hi * 0x1_0000_0000 + lo, script), rest)
  }

  function ParseOutputs(s: seq<byte>, n: nat): Parsed<seq<Output>> {
    if n == 0 then Good([], s) else
      match ParseOutput(s)
      case Bad => Bad
      case Good(o, s1) =>
        match ParseOutputs(s1, n - 1)
        case Bad => Bad
        case Good(os, rest) => Good([o] + os, rest)
  }

  function ParseTail(version: word, spent: seq<byte>, scriptSig: seq<byte>, s: seq<byte>): Parsed<Tx> {
    match ParseWord(s)
    case Bad => Bad
    case Good(sequence, s1) =>
      if s1 == [] || s1[0] >= 0xfd then Bad else
        match ParseOutputs(s1[1..], s1[0])
        case Bad => Bad
        case Good(outputs, s2) =>
          match ParseWord(s2)
          case Bad => Bad
          case Good(lockTime, rest) => Good(Tx(version, spent, scriptSig, sequence, outputs, lockTime), rest)
  }

  /** Reads a transaction with one input. */
  function Parse(s: seq<byte>): Parsed<Tx> {
    match ParseWord(s)
    case Bad => Bad
    case Good(version, s1) =>
      if s1 == [] || s1[0] != 1 then Bad else
        match ParseBytes(s1[1..], 36)
        case Bad => Bad
        case Good(spent, s2) =>
          match ParseString(s2)
          case Bad => Bad
          case Good(scriptSig, s3) => ParseTail(version, spent, scriptSig, s3)
  }

  lemma WordReads(x: word, rest: seq<byte>)
    ensures ParseWord(LE32Enc(x) + rest) == Good(x, rest)
  {
    hide LE32Enc, LE32Dec;
    LE32RoundTrip(x);
    assert (LE32Enc(x) + rest)[..4] == LE32Enc(x);
  }

  lemma StringReads(b: seq<byte>, rest: seq<byte>)
    requires |b| < 0xfd
    ensures ParseString([|b|] + b + rest) == Good(b, rest)
  {
    var s := [|b|] + b + rest;
    assert s[1..] == b + rest;
  }

  lemma OutputReads(o: Output, rest: seq<byte>)
    requires OutputOk(o)
    ensures ParseOutput(OutputBytes(o) + rest) == Good(o, rest)
  {
    hide LE32Enc, LE32Dec, ParseWord, ParseString, W32;
    var lo, hi := W32(o.value), W32(o.value / 0x1_0000_0000);
    var s2 := [|o.script|] + o.script + rest;
    WordReads(lo, LE32Enc(hi) + s2);
    WordReads(hi, s2);
    StringReads(o.script, rest);
    assert OutputBytes(o) + rest == LE32Enc(lo) + (LE32Enc(hi) + s2);
    TwoWords(o.value);
  }

  lemma TwoWords(v: nat)
    requires v < 0x1_0000_0000_0000_0000
    ensures W32(v / 0x1_0000_0000) * 0x1_0000_0000 + W32(v) == v
  {
  }

  lemma {:induction false} OutputsRead(os: seq<Output>, rest: seq<byte>)
    requires forall i | 0 <= i < |os| :: OutputOk(os[i])
    ensures ParseOutputs(OutputsBytes(os) + rest, |os|) == Good(os, rest)
  {
    hide OutputBytes, ParseOutput;
    if os == [] {
      assert OutputsBytes(os) + rest == rest;
    } else {
      OutputReads(os[0], OutputsBytes(os[1..]) + rest);
      OutputsRead(os[1..], rest);
      assert OutputsBytes(os) + rest == OutputBytes(os[0]) + (OutputsBytes(os[1..]) + rest);
      assert [os[0]] + os[1..] == os;
    }
  }

  lemma TailReads(t: Tx)
    requires TxOk(t)
    ensures ParseTail(t.version, t.spent, t.scriptSig,
              LE32Enc(t.sequence) + ([|t.outputs|] + (OutputsBytes(t.outputs) + LE32Enc(t.lockTime)))) == Good(t, [])
  {
    hide LE32Enc, ParseWord, ParseOutputs, OutputsBytes;
    var s2 := OutputsBytes(t.outputs) + LE32Enc(t.lockTime);
    var s1 := [|t.outputs|] + s2;
    WordReads(t.sequence, s1);
    assert s1[1..] == s2;
    OutputsRead(t.outputs, LE32Enc(t.lockTime));
    WordReads(t.lockTime, []);
    assert LE32Enc(t.lockTime) + [] == LE32Enc(t.lockTime);
  }

  /** Every serialized transaction reads back. */
  lemma ParseSerialize(t: Tx)
    requires TxOk(t)
    ensures Parse(Serialize(t)) == Good(t, [])
  {
    hide LE32Enc, ParseWord, ParseString, ParseTail, OutputsBytes;
    var s3 := LE32Enc(t.sequence) + ([|t.outputs|] + (OutputsBytes(t.outputs) + LE32Enc(t.lockTime)));
    var s2 := [|t.scriptSig|] + t.scriptSig + s3;
    var s1 := [1] + (t.spent + s2);
    assert Serialize(t) == LE32Enc(t.version) + s1;
    WordReads(t.version, s1);
    assert s1[1..] == t.spent + s2;
    assert s1[1..][..36] == t.spent && s1[1..][36..] == s2;
    StringReads(t.scriptSig, s3);
    TailReads(t);
  }

  // ----- the block height (BIP 34) -----

  /** A number as a script pushes it: least significant byte first, with a zero byte more if the sign bit
      would be set. */
  function ScriptNumber(n: nat): seq<byte> {
    if n == 0 then [] else [n % 0x100] + (if 0x80 <= n < 0x100 then [0] else []) + ScriptNumber(n / 0x100)
  }

  /** The script that starts a coinbase: OP_1 to OP_16 and OP_0, or one push. */
  function HeightScript(h: nat): seq<byte>
    requires h < 0x8000_0000
  {
    ScriptNumberLength(h);
    if 1 <= h <= 16 then [h + 0x50, 0] else [|ScriptNumber(h)|] + ScriptNumber(h)
  }

  /** BIP 34, section "Specification": the first item of the script is the height; -1 if there is none. */
  function HeightOf(script: seq<byte>): int {
    if script == [] then -1
    else if 0x51 <= script[0] <= 0x60 then script[0] - 0x50
    else if script[0] > 75 || |script| < 1 + script[0] then -1
    else if script[0] > 0 && script[script[0]] >= 0x80 then -1
    else LittleEndian(script[1..1 + script[0]])
  }

  lemma {:induction false} ScriptNumberIs(n: nat)
    ensures LittleEndian(ScriptNumber(n)) == n
    ensures n > 0 ==> ScriptNumber(n) != [] && ScriptNumber(n)[|ScriptNumber(n)| - 1] < 0x80
  {
    if n >= 0x100 {
      ScriptNumberIs(n / 0x100);
      assert ScriptNumber(n)[1..] == ScriptNumber(n / 0x100);
    } else if n > 0 {
      assert ScriptNumber(n / 0x100) == [];
      assert ScriptNumber(n) == if n >= 0x80 then [n, 0] else [n];
      assert [n, 0][1..] == [0] && [0][1..] == [] && [n][1..] == [];
      assert LittleEndian([0]) == 0;
    }
  }

  lemma ScriptNumberLength(n: nat)
    requires n < 0x8000_0000
    ensures |ScriptNumber(n)| <= 4
  {
    var n1 := n / 0x100;
    var n2 := n1 / 0x100;
    var n3 := n2 / 0x100;
    assert n3 < 0x80 && n3 / 0x100 == 0;
    assert ScriptNumber(0) == [];
    assert |ScriptNumber(n3)| <= 1;
    assert |ScriptNumber(n2)| <= 2;
    assert |ScriptNumber(n1)| <= 3;
  }

  /** The height reads back, whatever follows it. */
  lemma HeightReads(h: nat, rest: seq<byte>)
    requires h < 0x8000_0000
    ensures HeightOf(HeightScript(h) + rest) == h
  {
    hide ScriptNumber, LittleEndian;
    if 1 <= h <= 16 {
    } else {
      var n := ScriptNumber(h);
      ScriptNumberIs(h);
      ScriptNumberLength(h);
      var s := HeightScript(h) + rest;
      assert s == [|n|] + n + rest;
      assert s[0] == |n| && s[1..1 + |n|] == n;
      ScriptNumberEmpty();
      if n != [] {
        assert s[|n|] == n[|n| - 1];
      }
    }
  }

  /** The script has the two bytes that the consensus rules ask for, except at height 0. */
  lemma HeightScriptLength(h: nat)
    requires h < 0x8000_0000
    ensures |HeightScript(h)| <= 5 && (|HeightScript(h)| >= 2 <==> h > 0)
  {
    hide ScriptNumber;
    ScriptNumberLength(h);
    ScriptNumberIs(h);
    ScriptNumberEmpty();
  }

  lemma ScriptNumberEmpty()
    ensures ScriptNumber(0) == []
  {
  }

  // ----- building the transaction -----

  /** What the locally built coinbase spends: no output at all. */
  function NoOutput(): (s: seq<byte>)
    ensures |s| == 36
  {
    Zeros(32) + LE32Enc(0xffff_ffff)
  }

  /** A value of type int64_t, as the 64 bits that are written. */
  function Bits64(v: int): (b: nat)
    ensures b < 0x1_0000_0000_0000_0000
  {
    v % 0x1_0000_0000_0000_0000
  }

  /** The witness commitment (BIP 141, section "Commitment structure") for the hashes of all transactions
      but the coinbase. */
  function CommitmentScript(hashes: seq<Node>): (s: seq<byte>)
    ensures |s| == 38
  {
    [0x6a, 0x24, 0xaa, 0x21, 0xa9, 0xed] + Sha256d(Root([Zeros(32)] + hashes) + Zeros(32))
  }

  /** The coinbase for a height, a value and a payout script, with the commitment if there is a witness. */
  function CoinbaseTx(height: nat, value: int, script: seq<byte>, segwit: bool, hashes: seq<Node>): (t: Tx)
    requires height < 0x8000_0000 && |script| <= 42
    ensures TxOk(t)
  {
    hide HeightScript, Bits64, NoOutput, CommitmentScript;
    HeightScriptLength(height);
    var pay := Output(Bits64(value), script);
    var outputs := if segwit then [pay, Output(0, CommitmentScript(hashes))] else [pay];
    Tx(1, NoOutput(), HeightScript(height), 0xffff_ffff, outputs, 0)
  }

  /** Writes `s` at `at` and returns the place after it. */
  method Put(buf: array<byte>, at: nat, s: seq<byte>) returns (end: nat)
    requires at + |s| <= buf.Length
    modifies buf
    ensures end == at + |s| && buf[..end] == old(buf[..at]) + s
    ensures buf[end..] == old(buf[end..])
  {
    for i := 0 to |s|
      invariant buf[..at] == old(buf[..at]) && buf[at..at + i] == s[..i]
      invariant buf[at + |s|..] == old(buf[at + |s|..])
    {
      ghost var done := buf[at..at + i];
      buf[at + i] := s[i];
      assert buf[at..at + i + 1] == done + [s[i]];
    }
    end := at + |s|;
    assert buf[..end] == buf[..at] + buf[at..at + |s|];
  }

  /** The bytes of the height, from offset 43 on. */
  method PutNumber(cbtx: array<byte>, height: nat) returns (size: nat)
    requires cbtx.Length == 256 && height < 0x8000_0000
    modifies cbtx
    ensures 43 <= size <= 47 && cbtx[..43] == old(cbtx[..43]) && cbtx[43..size] == ScriptNumber(height)
  {
    hide ScriptNumber;
    ScriptNumberLength(height);
    ScriptNumberEmpty();
    size := 43;
    var n := height;
    assert cbtx[43..43] == [];
    while n != 0
      invariant 43 <= size && size + |ScriptNumber(n)| <= 47
      invariant cbtx[..43] == old(cbtx[..43])
      invariant cbtx[43..size] + ScriptNumber(n) == ScriptNumber(height)
      decreases n
    {
      ScriptNumberStep(n);
      ghost var done := cbtx[43..size];
      cbtx[size] := n % 0x100;
      size := size + 1;
      assert cbtx[43..size] == done + [n % 0x100];
      if n < 0x100 && n >= 0x80 {
        cbtx[size] := 0;
        size := size + 1;
        assert cbtx[43..size] == done + [n % 0x100] + [0];
      }
      Associate(done, [n % 0x100], if 0x80 <= n < 0x100 then [0] else []);
      n := n / 0x100;
    }
  }

  /** The height part: the script from offset 42 on. */
  method PutHeight(cbtx: array<byte>, height: nat) returns (size: nat)
    requires cbtx.Length == 256 && height < 0x8000_0000
    modifies cbtx
    ensures size == 42 + |HeightScript(height)| <= 47
    ensures cbtx[..42] == old(cbtx[..42]) && cbtx[42..size] == HeightScript(height)
  {
    hide ScriptNumber;
    ScriptNumberLength(height);
    if height >= 1 && height <= 16 {
      size := 43;
      cbtx[42] := height + 0x50;
      cbtx[size] := 0;
      size := size + 1;
    } else {
      ghost var front := cbtx[..42];
      size := PutNumber(cbtx, height);
      assert cbtx[..42] == cbtx[..43][..42] == front;
      ghost var number := cbtx[43..size];
      cbtx[42] := size - 43;
      assert cbtx[43..size] == number;
      assert cbtx[42..size] == [cbtx[42]] + cbtx[43..size];
    }
  }

  lemma ScriptNumberStep(n: nat)
    requires n > 0
    ensures ScriptNumber(n) == [n % 0x100] + (if 0x80 <= n < 0x100 then [0] else []) + ScriptNumber(n / 0x100)
  {
  }

  /** The start of the transaction, up to the length of the input script. */
  method PutHead(cbtx: array<byte>)
    requires cbtx.Length == 256
    modifies cbtx
    ensures cbtx[..41] == LE32Enc(1) + [1] + NoOutput()
  {
    hide LE32Enc, Zeros;
    assert cbtx[..0] == [];
    var at := Put(cbtx, 0, LE32Enc(1));
    at := Put(cbtx, at, [1]);
    at := Put(cbtx, at, Zeros(32));
    at := Put(cbtx, at, LE32Enc(0xffff_ffff));
    assert cbtx[..at] == LE32Enc(1) + [1] + NoOutput();
  }

  /** The witness commitment: over the hashes in `wtree`, the first of which stands for the coinbase and is
      zero, and a zero reserved value. */
  method PutCommitment(cbtx: array<byte>, at: nat, wtree: array<byte>, count: nat, ghost hashes: seq<Node>)
    returns (size: nat)
    requires at + 38 <= cbtx.Length && cbtx != wtree
    requires count > 0 && wtree.Length == 32 * (count + 1) && Nodes(wtree[..], count) == [Zeros(32)] + hashes
    modifies cbtx, wtree
    ensures size == at + 38 && cbtx[..size] == old(cbtx[..at]) + CommitmentScript(hashes)
  {
    hide Zeros, Nodes, Root, Sha256Spec.Sha256d;
    size := Put(cbtx, at, [0x6a, 0x24, 0xaa, 0x21, 0xa9, 0xed]);
    WitnessRoot(wtree, count);
    ghost var root := NodeAt(wtree[..], 0);
    ghost var front := cbtx[..size];
    assert wtree[..32] == root;
    var end := Put(wtree, 32, Zeros(32));
    assert wtree[0..64] == root + Zeros(32);
    Sha256dBuffer(cbtx, size, wtree, 0, 64);
    size := size + 32;
    assert cbtx[..size] == front + cbtx[at + 6..at + 6 + 32];
    assert front == old(cbtx[..at]) + [0x6a, 0x24, 0xaa, 0x21, 0xa9, 0xed];
  }

  /** The output that pays the miner: the value in two words, then the script. */
  method PutPayout(cbtx: array<byte>, at: nat, value: int, script: seq<byte>) returns (size: nat)
    requires at + 9 + |script| <= cbtx.Length && |script| <= 42
    modifies cbtx
    ensures size == at + 9 + |script|
    ensures cbtx[..size] == old(cbtx[..at]) + OutputBytes(Output(Bits64(value), script))
  {
    hide LE32Enc, W32, Bits64;
    size := Put(cbtx, at, LE32Enc(W32(value)));
    size := Put(cbtx, size, LE32Enc(W32(value / 0x1_0000_0000)));
    size := Put(cbtx, size, [|script|]);
    size := Put(cbtx, size, script);
    ValueWords(value);
    assert cbtx[..size] == old(cbtx[..at]) + OutputBytes(Output(Bits64(value), script));
  }

  /** The output that holds the witness commitment: no value, and a script of 38 bytes. */
  method PutWitnessOutput(cbtx: array<byte>, at: nat, wtree: array<byte>, count: nat, ghost hashes: seq<Node>)
    returns (size: nat)
    requires at + 47 <= cbtx.Length && cbtx != wtree
    requires count > 0 && wtree.Length == 32 * (count + 1) && Nodes(wtree[..], count) == [Zeros(32)] + hashes
    modifies cbtx, wtree
    ensures size == at + 47
    ensures cbtx[..size] == old(cbtx[..at]) + OutputBytes(Output(0, CommitmentScript(hashes)))
  {
    hide CommitmentScript, Zeros, Nodes, LE64;
    NoValue();
    size := Put(cbtx, at, Zeros(8));
    size := Put(cbtx, size, [38]);
    size := PutCommitment(cbtx, size, wtree, count, hashes);
    assert cbtx[..size] == old(cbtx[..at]) + OutputBytes(Output(0, CommitmentScript(hashes)));
  }

  /** The outputs and the lock time. */
  method PutOutputs(cbtx: array<byte>, at: nat, value: int, script: seq<byte>, segwit: bool, wtree: array<byte>,
                    count: nat, ghost hashes: seq<Node>, ghost t: Tx)
    returns (size: nat)
    requires at <= 51 && cbtx.Length == 256 && cbtx != wtree && |script| <= 42
    requires segwit ==> count > 0 && wtree.Length == 32 * (count + 1) && Nodes(wtree[..], count) == [Zeros(32)] + hashes
    requires TxOk(t) && t.lockTime == 0
    requires t.outputs == [Output(Bits64(value), script)] + if segwit then [Output(0, CommitmentScript(hashes))] else []
    modifies cbtx, wtree
    ensures size <= at + 103
    ensures cbtx[..size] == old(cbtx[..at]) + [|t.outputs|] + OutputsBytes(t.outputs) + LE32Enc(0)
  {
    hide LE32Enc, CommitmentScript, Zeros, Nodes, Bits64, OutputBytes, OutputsBytes;
    size := Put(cbtx, at, [if segwit then 2 else 1]);
    size := PutPayout(cbtx, size, value, script);
    if segwit {
      size := PutWitnessOutput(cbtx, size, wtree, count, hashes);
    }
    ListedOutputs(t.outputs);
    assert cbtx[..size] == old(cbtx[..at]) + [|t.outputs|] + OutputsBytes(t.outputs);
    size := Put(cbtx, size, LE32Enc(0));
  }

  lemma ValueWords(v: int)
    ensures LE64(Bits64(v)) == LE32Enc(W32(v)) + LE32Enc(W32(v / 0x1_0000_0000))
  {
    hide LE32Enc;
    assert W32(Bits64(v)) == W32(v);
    assert W32(Bits64(v) / 0x1_0000_0000) == W32(v / 0x1_0000_0000);
  }

  lemma NoValue()
    ensures LE64(0) == Zeros(8)
  {
  }

  lemma ListedOutputs(os: seq<Output>)
    requires 1 <= |os| <= 2 && forall i | 0 <= i < |os| :: OutputOk(os[i])
    ensures OutputsBytes(os) == OutputBytes(os[0]) + if |os| == 2 then OutputBytes(os[1]) else []
  {
    hide OutputBytes;
    if |os| == 2 {
      assert os[1..][1..] == [];
    }
  }

  /** The locally built coinbase, into a buffer of 256 bytes. */
  method BuildCoinbase(cbtx: array<byte>, height: nat, value: int, script: seq<byte>, segwit: bool,
                       wtree: array<byte>, count: nat, ghost hashes: seq<Node>)
    returns (size: nat)
    requires cbtx.Length == 256 && cbtx != wtree && height < 0x8000_0000 && |script| <= 42
    requires segwit ==> count > 0 && wtree.Length == 32 * (count + 1) && Nodes(wtree[..], count) == [Zeros(32)] + hashes
    modifies cbtx, wtree
    ensures size <= 154
    ensures cbtx[..size] == Serialize(CoinbaseTx(height, value, script, segwit, hashes))
  {
    hide LE32Enc, CommitmentScript, Zeros, Nodes, Bits64, HeightScript, NoOutput, OutputsBytes;
    ghost var t := CoinbaseTx(height, value, script, segwit, hashes);
    PutHead(cbtx);
    ghost var head := cbtx[..41];
    size := PutHeight(cbtx, height);
    assert cbtx[..41] == cbtx[..42][..41] == head;
    ghost var sig := cbtx[42..size];
    cbtx[41] := size - 42;
    assert cbtx[42..size] == sig;
    assert cbtx[..size] == head + [|sig|] + sig;
    size := Put(cbtx, size, LE32Enc(0xffff_ffff));
    size := PutOutputs(cbtx, size, value, script, segwit, wtree, count, hashes, t);
  }

  // ----- extra data in the input script -----

  /** A value of the template's coinbaseaux: the bytes of a hex string, or something else. */
  datatype Aux = Hex(bytes: seq<byte>) | NoHex

  /** Appends the items that still fit `room`, in order. */
  function Fitting(room: int, xsig: seq<byte>, items: seq<seq<byte>>): (r: seq<byte>)
    ensures xsig <= r && (|r| <= room || r == xsig)
    decreases |items|
  {
    if items == [] then xsig
    else Fitting(room, if |xsig| + |items[0]| <= room then xsig + items[0] else xsig, items[1..])
  }

  /** The items taken, one after the other. */
  function Joined(items: seq<seq<byte>>, taken: seq<bool>): seq<byte>
    requires |items| == |taken|
  {
    if items == [] then [] else (if taken[0] then items[0] else []) + Joined(items[1..], taken[1..])
  }

  /** An item is taken exactly if it fits behind those taken before it. */
  lemma {:induction false} FittingTakes(room: int, xsig: seq<byte>, items: seq<seq<byte>>) returns (taken: seq<bool>)
    ensures |taken| == |items| && Fitting(room, xsig, items) == xsig + Joined(items, taken)
    ensures forall i | 0 <= i < |items| ::
              taken[i] <==> |xsig| + |Joined(items[..i], taken[..i])| + |items[i]| <= room
    decreases |items|
  {
    taken := [];
    if items != [] {
      var fits := |xsig| + |items[0]| <= room;
      var front := if fits then items[0] else [];
      var rest := FittingTakes(room, xsig + front, items[1..]);
      taken := [fits] + rest;
      assert taken[1..] == rest;
      Associate(xsig, front, Joined(items[1..], rest));
      forall i | 0 <= i < |items|
        ensures taken[i] <==> |xsig| + |Joined(items[..i], taken[..i])| + |items[i]| <= room
      {
        if i > 0 {
          assert items[..i][1..] == items[1..][..i - 1] && taken[..i][1..] == rest[..i - 1];
        }
      }
      assert xsig + [] == xsig;
    }
  }

  /** The values before the first unusable one. */
  function Usable(aux: seq<Aux>): seq<seq<byte>> {
    if aux == [] || aux[0].NoHex? || |aux[0].bytes| > 100 then [] else [aux[0].bytes] + Usable(aux[1..])
  }

  lemma FittingStep(room: int, xsig: seq<byte>, items: seq<seq<byte>>)
    requires items != []
    ensures Fitting(room, xsig, items) ==
            Fitting(room, if |xsig| + |items[0]| <= room then xsig + items[0] else xsig, items[1..])
  {
  }

  lemma UsableStep(aux: seq<Aux>, i: nat)
    requires i < |aux|
    ensures if aux[i].NoHex? || |aux[i].bytes| > 100 then Usable(aux[i..]) == []
            else Usable(aux[i..]) != [] && Usable(aux[i..])[0] == aux[i].bytes &&
                 Usable(aux[i..])[1..] == Usable(aux[i + 1..])
  {
    assert aux[i..][1..] == aux[i + 1..];
  }

  lemma FittingNone(room: int, xsig: seq<byte>)
    ensures Fitting(room, xsig, []) == xsig
  {
  }

  /** Collects the signature and the auxiliary data, next to a script of `len` bytes. */
  method CollectExtra(len: byte, sig: seq<byte>, aux: seq<Aux>) returns (xsig: seq<byte>)
    ensures xsig == Fitting(100 - len, [], [sig] + Usable(aux))
    ensures len + |xsig| <= 100 || xsig == []
  {
    hide Fitting, Usable;
    xsig := [];
    var room: int := 100 - len;
    assert ([sig] + Usable(aux))[1..] == Usable(aux);
    FittingStep(room, [], [sig] + Usable(aux));
    if sig != [] {
      if |xsig| + |sig| <= room {
        xsig := xsig + sig;
      }
    }
    assert xsig == if |sig| <= room then [] + sig else [];
    var i := 0;
    assert aux[0..] == aux;
    while i < |aux|
      invariant i <= |aux|
      invariant Fitting(room, xsig, Usable(aux[i..])) == Fitting(room, [], [sig] + Usable(aux))
    {
      UsableStep(aux, i);
      if aux[i].NoHex? || |aux[i].bytes| > 100 {
        break;
      }
      FittingStep(room, xsig, Usable(aux[i..]));
      if |xsig| + |aux[i].bytes| <= room {
        xsig := xsig + aux[i].bytes;
      }
      i := i + 1;
    }
    FittingNone(room, xsig);
    UsableNone(aux[|aux|..]);
  }

  lemma UsableNone(aux: seq<Aux>)
    requires aux == []
    ensures Usable(aux) == []
  {
  }

  /** The bytes before the data: a push opcode, OP_PUSHDATA1 for a long script, or none if that would take
      the script beyond 100 bytes. */
  function PushFor(len: nat, x: nat): (p: seq<byte>)
    requires x <= 100
    ensures len + x <= 100 ==> len + |p| + x <= 100
  {
    if len + x < 76 then [x] else if len + 2 + x > 100 then [] else [0x4c, x]
  }

  /** Reads one data push of a script: up to 75 bytes after their number, or OP_PUSHDATA1. */
  function ReadPush(s: seq<byte>): Parsed<seq<byte>> {
    if s == [] || s[0] > 0x4c then Bad
    else if s[0] < 0x4c then ParseBytes(s[1..], s[0])
    else if |s| < 2 then Bad
    else ParseBytes(s[2..], s[1])
  }

  /** A push that reads back is longer than its data by its opcode at least. */
  lemma PushHasOpcode(s: seq<byte>)
    ensures var r := ReadPush(s); r.Good? ==> |r.value| + |r.rest| < |s|
  {
  }

  /** The appended data read back as one push exactly when they leave the last two bytes of the script free:
      otherwise there is no room for an opcode, and the data stand there bare. */
  lemma PushReads(len: nat, xsig: seq<byte>, rest: seq<byte>)
    requires xsig != [] && len + |xsig| <= 100
    ensures ReadPush(PushFor(len, |xsig|) + xsig + rest) == Good(xsig, rest) <==> len + |xsig| <= 98
    ensures PushFor(len, |xsig|) == [] <==> len + |xsig| > 98
  {
    var p, x := PushFor(len, |xsig|), |xsig|;
    var s := p + xsig + rest;
    PushHasOpcode(s);
    if p == [x] {
      assert s[1..] == xsig + rest;
    } else if p == [0x4c, x] {
      assert s[2..] == xsig + rest;
    }
  }

  /** memmove of `len` bytes up by `n`. */
  method MoveUp(buf: array<byte>, from: nat, len: nat, n: nat)
    requires from + n + len <= buf.Length
    modifies buf
    ensures buf[from + n..from + n + len] == old(buf[from..from + len]) && buf[..from] == old(buf[..from])
  {
    ghost var b := buf[..];
    var k := len;
    while k > 0
      invariant 0 <= k <= len && buf[..from + k] == b[..from + k]
      invariant buf[from + n + k..from + n + len] == b[from + k..from + len]
    {
      k := k - 1;
      ghost var done := buf[from + n + k + 1..from + n + len];
      assert buf[from + k] == buf[..from + k + 1][from + k] == b[from + k];
      buf[from + n + k] := buf[from + k];
      assert buf[from + n + k..from + n + len] == [b[from + k]] + done;
      assert b[from + k..from + len] == [b[from + k]] + b[from + k + 1..from + len];
      assert buf[..from + k] == b[..from + k];
    }
    assert buf[..from] == buf[..from + 0];
  }

  /** Makes room for `n` bytes at the end of the input script, and counts them in its length. */
  method OpenGap(cbtx: array<byte>, size: nat, end: nat, n: nat)
    requires 42 <= end <= size && size + n <= cbtx.Length && cbtx[41] == end - 42 && end + n < 42 + 0x100
    modifies cbtx
    ensures cbtx[..end] == old(cbtx[..41]) + [old(cbtx[41]) + n] + old(cbtx[42..end])
    ensures cbtx[end + n..size + n] == old(cbtx[end..size])
  {
    ghost var script := cbtx[42..end];
    MoveUp(cbtx, end, size - end, n);
    ghost var tail := cbtx[end + n..size + n];
    assert cbtx[..end][..41] == cbtx[..41] && cbtx[..end][42..end] == cbtx[42..end] == script;
    cbtx[41] := cbtx[41] + n;
    assert cbtx[end + n..size + n] == tail;
    assert cbtx[..end] == cbtx[..41] + [cbtx[41]] + cbtx[42..end];
  }

  /** Writes two strings one after the other into a gap; the bytes up to `size` stay. */
  method FillGap(cbtx: array<byte>, end: nat, s: seq<byte>, t: seq<byte>, size: nat)
    requires end + |s| + |t| <= size <= cbtx.Length
    modifies cbtx
    ensures cbtx[..size] == old(cbtx[..end]) + s + t + old(cbtx[end + |s| + |t|..size])
  {
    ghost var rest := cbtx[end + |s| + |t|..];
    var at := Put(cbtx, end, s);
    assert cbtx[at..][|t|..] == rest;
    at := Put(cbtx, at, t);
    assert cbtx[..size] == cbtx[..at] + cbtx[at..][..size - at];
  }

  lemma Slices(s: seq<byte>, n: nat, end: nat)
    requires 42 <= end <= n <= |s|
    ensures s[..n][..41] == s[..41] && s[..n][42..end] == s[42..end] && s[..n][end..] == s[end..n]
  {
  }

  /** Appends data to the input script, moving up what follows it. */
  method AppendExtra(cbtx: array<byte>, size0: nat, xsig: seq<byte>) returns (size: nat)
    requires 42 <= size0 && size0 + 100 <= cbtx.Length
    requires 42 + cbtx[41] <= size0 && (xsig == [] || cbtx[41] + |xsig| <= 100)
    modifies cbtx
    ensures size <= cbtx.Length
    ensures var len, b := old(cbtx[41]), old(cbtx[..size0]);
            var more := if xsig == [] then [] else PushFor(len, |xsig|) + xsig;
            && (xsig == [] || len + |more| <= 100) && len + |more| < 0x100
            && cbtx[..size] == b[..41] + [len + |more|] + b[42..42 + len] + more + b[42 + len..]
  {
    hide PushFor;
    size := size0;
    ghost var b := cbtx[..size0];
    var len: int := cbtx[41];
    var end := 42 + len;
    if xsig == [] {
      assert b == b[..41] + [len + 0] + b[42..42 + len] + [] + b[42 + len..];
      return;
    }
    var push := PushFor(len, |xsig|);
    var n := |xsig| + |push|;
    Slices(cbtx[..], size0, end);
    OpenGap(cbtx, size0, end, n);
    size := size0 + n;
    ghost var front := b[..41] + [len + n] + b[42..end];
    assert cbtx[..end] == front && cbtx[end + |push| + |xsig|..size] == b[end..];
    FillGap(cbtx, end, push, xsig, size);
    Associate(front, push, xsig);
  }

  // ----- the coinbase as the template wants it -----

  /** The transaction with data appended to its input script. */
  function WithExtra(t: Tx, more: seq<byte>): Tx {
    t.(scriptSig := t.scriptSig + more)
  }

  /** Appending to the script in the serialized bytes is appending to the script. */
  lemma AppendedBytes(t: Tx, more: seq<byte>)
    requires TxOk(t) && |t.scriptSig| + |more| < 0xfd
    ensures var b, len := Serialize(t), |t.scriptSig|;
            && 42 + len <= |b| && b[41] == len
            && Serialize(WithExtra(t, more)) == b[..41] + [len + |more|] + b[42..42 + len] + more + b[42 + len..]
  {
    hide LE32Enc, OutputsBytes, OutputOk;
    var b, len := Serialize(t), |t.scriptSig|;
    var tail := LE32Enc(t.sequence) + [|t.outputs|] + OutputsBytes(t.outputs) + LE32Enc(t.lockTime);
    assert b == Head(t) + [len] + t.scriptSig + tail;
    assert b[..41] == Head(t) && b[42..42 + len] == t.scriptSig && b[42 + len..] == tail;
  }

  /** A spent output of hash zero and the last index of all is none. */
  lemma SpendsNothing()
    ensures var s := NoOutput();
            && (forall i | 0 <= i < 32 :: s[i] == 0) && (forall i | 32 <= i < 36 :: s[i] == 0xff)
            && LE32Dec(s[32..]) == 0xffff_ffff
  {
    assert LE32Enc(0xffff_ffff) == [0xff, 0xff, 0xff, 0xff];
    assert NoOutput()[32..] == [0xff, 0xff, 0xff, 0xff];
  }

  lemma LittleEndianSum(s: seq<byte>, t: seq<byte>)
    requires |s| == 4
    ensures LittleEndian(s + t) == LE32Dec(s) + 0x1_0000_0000 * LittleEndian(t)
  {
    hide LittleEndian, LE32Dec;
    LittleEndianWord(s + t);
    assert (s + t)[..4] == s && (s + t)[4..] == t;
  }

  /** An amount is written least significant byte first. */
  lemma AmountBytes(v: nat)
    requires v < 0x1_0000_0000_0000_0000
    ensures LittleEndian(LE64(v)) == v
  {
    hide LE32Enc, LE32Dec, LittleEndian;
    var lo, hi := W32(v), W32(v / 0x1_0000_0000);
    LE32RoundTrip(lo);
    LE32RoundTrip(hi);
    LittleEndianSum(LE32Enc(lo), LE32Enc(hi));
    LittleEndianSum(LE32Enc(hi), []);
    assert LE32Enc(hi) + [] == LE32Enc(hi) && LittleEndian([]) == 0 by { NoDigits(); }
  }

  lemma NoDigits()
    ensures LittleEndian([]) == 0
  {
  }

  /** The outputs of a local coinbase as bytes: amount, script length and script of each. */
  lemma OutputsLayout(value: int, script: seq<byte>, segwit: bool, hashes: seq<Node>)
    requires |script| <= 42
    ensures var pay := Output(Bits64(value), script);
            var commitment := [0x6a, 0x24, 0xaa, 0x21, 0xa9, 0xed] + Sha256d(Root([Zeros(32)] + hashes) + Zeros(32));
            OutputsBytes(if segwit then [pay, Output(0, CommitmentScript(hashes))] else [pay]) ==
            LE64(Bits64(value)) + [|script|] + script + if segwit then Zeros(8) + [38] + commitment else []
  {
    hide Sha256Spec.Sha256d, Root, LE64;
    var pay, second := Output(Bits64(value), script), Output(0, CommitmentScript(hashes));
    ZeroAmount();
    assert [pay, second][1..] == [second] && [second][1..] == [] && [pay][1..] == [];
    assert OutputsBytes([second]) == OutputBytes(second) + [] && OutputsBytes([pay]) == OutputBytes(pay) + [];
  }

  lemma ZeroAmount()
    ensures LE64(0) == Zeros(8)
  {
  }

  /** The bytes of the coinbase in the order in which the network reads them: version 1; one input that spends no
      output; the script with its length; a final sequence number; the outputs with their number, amounts least
      significant byte first; no lock time. The second output commits to the witness root and 32 zero bytes. */
  lemma CoinbaseLayout(height: nat, value: int, script: seq<byte>, segwit: bool, hashes: seq<Node>, more: seq<byte>,
                       b: seq<byte>)
    requires height < 0x8000_0000 && |script| <= 42
    requires |HeightScript(height)| + |more| <= 100
    requires b == Serialize(WithExtra(CoinbaseTx(height, value, script, segwit, hashes), more))
    ensures var sig := HeightScript(height) + more;
            var amount := LE64(Bits64(value));
            var commitment := [0x6a, 0x24, 0xaa, 0x21, 0xa9, 0xed] + Sha256d(Root([Zeros(32)] + hashes) + Zeros(32));
            && LittleEndian(amount) == value % 0x1_0000_0000_0000_0000 && |amount| == 8
            && b == [1, 0, 0, 0] + [1] + Zeros(32) + [0xff, 0xff, 0xff, 0xff] + [|sig|] + sig
                    + [0xff, 0xff, 0xff, 0xff] + [if segwit then 2 else 1]
                    + (amount + [|script|] + script + if segwit then Zeros(8) + [38] + commitment else [])
                    + [0, 0, 0, 0]
  {
    hide HeightScript, CommitmentScript, OutputsBytes, LE64, Bits64, Sha256Spec.Sha256d, Root, LittleEndian;
    AmountBytes(Bits64(value));
    OutputsLayout(value, script, segwit, hashes);
    ConstantWords();
    Bits64Is(value);
  }

  lemma Bits64Is(value: int)
    ensures Bits64(value) == value % 0x1_0000_0000_0000_0000
  {
  }

  lemma ConstantWords()
    ensures LE32Enc(1) == [1, 0, 0, 0] && LE32Enc(0) == [0, 0, 0, 0]
    ensures LE32Enc(0xffff_ffff) == [0xff, 0xff, 0xff, 0xff]
  {
  }

  /** Run as a script, the height part pushes the height, as a number least significant byte first. */
  lemma HeightRuns(h: nat, c: Checks)
    requires h < 0x8000_0000
    ensures var r := Run(HeightScript(h), [], c);
            r.Stack? && r.items != [] && LittleEndian(r.items[0]) == h
  {
    hide ScriptNumber, LittleEndian;
    if 1 <= h <= 16 {
      assert HeightScript(h) == [0x50 + h, 0] && HeightScript(h)[1..] == [0] && [0][1..] == [];
      OneDigit(h);
    } else if h == 0 {
      ScriptNumberEmpty();
      NoDigits();
      assert HeightScript(h) == [0] && [0][1..] == [];
    } else {
      var n := ScriptNumber(h);
      ScriptNumberIs(h);
      ScriptNumberLength(h);
      assert HeightScript(h) == [|n|] + n + [] && [] + [n] == [n];
      RunPush(n, [], [], c);
      RunNothing([n], c);
    }
  }

  lemma OneDigit(h: byte)
    ensures LittleEndian([h]) == h
  {
    assert [h][1..] == [];
  }

  /** The local coinbase with extra data in its script: it still reads as the transaction that pays `value`
      to `script`, with the height first in an input script of at most 100 bytes. */
  lemma CoinbaseReads(height: nat, value: int, script: seq<byte>, segwit: bool, hashes: seq<Node>, more: seq<byte>,
                      b: seq<byte>)
    requires height < 0x8000_0000 && |script| <= 42
    requires |HeightScript(height)| + |more| <= 100
    requires b == Serialize(WithExtra(CoinbaseTx(height, value, script, segwit, hashes), more))
    ensures var p := Parse(b);
            && p.Good? && p.rest == [] && HeightOf(p.value.scriptSig) == height && |p.value.scriptSig| <= 100
            && p.value.outputs != [] && p.value.outputs[0] == Output(Bits64(value), script)
            && p.value.outputs == CoinbaseTx(height, value, script, segwit, hashes).outputs
            && p.value.lockTime == 0 && p.value.version == 1 && p.value.sequence == 0xffff_ffff
    ensures var spent := Parse(b).value.spent;
            && |spent| == 36 && (forall i | 0 <= i < 32 :: spent[i] == 0) && LE32Dec(spent[32..]) == 0xffff_ffff
    ensures 0 <= value < 0x8000_0000_0000_0000 ==> Parse(b).value.outputs[0].value == value
  {
    hide HeightScript, HeightOf, Parse, Serialize, CommitmentScript;
    SpendsNothing();
    ParseSerialize(WithExtra(CoinbaseTx(height, value, script, segwit, hashes), more));
    HeightReads(height, more);
  }

  /** Building the coinbase and appending the signature and the auxiliary data, all within 256 bytes. */
  method MakeCoinbase(cbtx: array<byte>, height: nat, value: int, script: seq<byte>, segwit: bool,
                      wtree: array<byte>, count: nat, ghost hashes: seq<Node>, sig: seq<byte>, aux: seq<Aux>)
    returns (size: nat, xsig: seq<byte>)
    requires cbtx.Length == 256 && cbtx != wtree && height < 0x8000_0000 && |script| <= 42
    requires segwit ==> count > 0 && wtree.Length == 32 * (count + 1) && Nodes(wtree[..], count) == [Zeros(32)] + hashes
    modifies cbtx, wtree
    ensures size <= 256 && xsig == Fitting(100 - |HeightScript(height)|, [], [sig] + Usable(aux)) && |xsig| <= 100
    ensures var more := if xsig == [] then [] else PushFor(|HeightScript(height)|, |xsig|) + xsig;
            && |HeightScript(height)| + |more| <= 100
            && cbtx[..size] == Serialize(WithExtra(CoinbaseTx(height, value, script, segwit, hashes), more))
  {
    hide HeightScript, Serialize, Nodes, Zeros, PushFor, Fitting, Usable, CommitmentScript;
    size := BuildCoinbase(cbtx, height, value, script, segwit, wtree, count, hashes);
    ghost var t := CoinbaseTx(height, value, script, segwit, hashes);
    HeightScriptLength(height);
    AppendedBytes(t, []);
    assert cbtx[41] == cbtx[..size][41];
    xsig := CollectExtra(cbtx[41], sig, aux);
    ghost var more := if xsig == [] then [] else PushFor(|HeightScript(height)|, |xsig|) + xsig;
    size := AppendExtra(cbtx, size, xsig);
    AppendedBytes(t, more);
  }
}
