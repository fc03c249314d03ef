/** sha2.c: the nonce scan over double SHA-256, with its precomputed schedule and midstates. */
module Sha256dScan {
  import opened Words
  import opened Sha256Spec
  import opened Sha256Code
  import opened Sha256Bytes

  /** The second block of an 80-byte header: four words of header, then the standard padding. */
  predicate HeaderTail(m: Block) {
    m[4] == 0x80000000 && m[15] == 0x280 && forall i | 5 <= i < 15 :: m[i] == 0
  }

  function WithNonce(m: Block, n: word): Block {
    m[3 := n]
  }

  /** What sha256d_ms finds in `w` whatever the nonce in w[3] is, and leaves there: the header words
      of block `m`, and for ten schedule words the terms that do not depend on the nonce. */
  predicate Prepared(w: seq<word>, m: Block) {
    |w| == 64
    && (forall i | 0 <= i < 16 && i != 3 :: w[i] == m[i])
    && w[16] == Extend(m[14], m[9], m[1], m[0])
    && w[17] == Extend(m[15], m[10], m[2], m[1])
    && w[18] == W32(SmallSigma1(w[16]) + m[11] + m[2])
    && w[19] == W32(SmallSigma1(w[17]) + m[12] + SmallSigma0(m[4]))
    && w[20] == W32(m[13] + SmallSigma0(m[5]) + m[4])
    && w[22] == W32(m[15] + SmallSigma0(m[7]) + m[6])
    && w[23] == W32(w[16] + SmallSigma0(m[8]) + m[7])
    && w[24] == W32(w[17] + SmallSigma0(m[9]) + m[8])
    && w[30] == W32(SmallSigma0(m[15]) + m[14])
    && w[31] == W32(SmallSigma0(w[16]) + m[15])
  }

  lemma SigmaOfZero()
    ensures SmallSigma0(0) == 0 && SmallSigma1(0) == 0
  {
  }

  /** sha256d_preextend. */
  method Preextend(W: array<word>)
    requires W.Length == 64
    modifies W
    ensures W[..16] == old(W[..16])
    ensures Prepared(W[..], W[..16])
  {
    hide SmallSigma0, SmallSigma1, W32;
    ghost var m := W[..16];
    PreextendLow(W);
    ghost var low := W[..21];
    assert low[..16] == m;
    PreextendHigh(W);
    assert W[..16] == W[..21][..16] == m;
    assert forall i | 0 <= i < 21 :: W[i] == low[i];
  }

  /** Its first five assignments. */
  method PreextendLow(W: array<word>)
    requires W.Length == 64
    modifies W
    ensures W[..16] == old(W[..16])
    ensures W[16] == Extend(W[14], W[9], W[1], W[0]) && W[17] == Extend(W[15], W[10], W[2], W[1])
    ensures W[18] == W32(SmallSigma1(W[16]) + W[11] + W[2])
    ensures W[19] == W32(SmallSigma1(W[17]) + W[12] + SmallSigma0(W[4]))
    ensures W[20] == W32(W[13] + SmallSigma0(W[5]) + W[4])
  {
    hide SmallSigma0, SmallSigma1, W32;
    W[16] := W32(SmallSigma1(W[14]) + W[9] + SmallSigma0(W[1]) + W[0]);
    W[17] := W32(SmallSigma1(W[15]) + W[10] + SmallSigma0(W[2]) + W[1]);
    W[18] := W32(SmallSigma1(W[16]) + W[11] + W[2]);
    W[19] := W32(SmallSigma1(W[17]) + W[12] + SmallSigma0(W[4]));
    W[20] := W32(W[13] + SmallSigma0(W[5]) + W[4]);
  }

  /** And the rest. */
  method PreextendHigh(W: array<word>)
    requires W.Length == 64
    modifies W
    ensures W[..21] == old(W[..21])
    ensures W[22] == W32(W[15] + SmallSigma0(W[7]) + W[6]) && W[23] == W32(W[16] + SmallSigma0(W[8]) + W[7])
    ensures W[24] == W32(W[17] + SmallSigma0(W[9]) + W[8])
    ensures W[30] == W32(SmallSigma0(W[15]) + W[14]) && W[31] == W32(SmallSigma0(W[16]) + W[15])
  {
    hide SmallSigma0, SmallSigma1, W32;
    W[21] := W32(W[14] + SmallSigma0(W[6]) + W[5]);
    W[22] := W32(W[15] + SmallSigma0(W[7]) + W[6]);
    W[23] := W32(W[16] + SmallSigma0(W[8]) + W[7]);
    W[24] := W32(W[17] + SmallSigma0(W[9]) + W[8]);
    W[25] := W32(SmallSigma0(W[10]) + W[9]);
    W[26] := W32(SmallSigma0(W[11]) + W[10]);
    W[27] := W32(SmallSigma0(W[12]) + W[11]);
    W[28] := W32(SmallSigma0(W[13]) + W[12]);
    W[29] := W32(SmallSigma0(W[14]) + W[13]);
    W[30] := W32(SmallSigma0(W[15]) + W[14]);
    W[31] := W32(SmallSigma0(W[16]) + W[15]);
  }

  /** Adding after a reduction is adding before it. */
  lemma AddLast(x: int, y: word)
    ensures Add(W32(x), y) == W32(x + y)
  {
  }

  lemma AddTwoLast(x: int, y: word, z: word)
    ensures W32(W32(x) + y + z) == W32(x + y + z)
  {
  }

  lemma W32OfWord(x: word)
    ensures W32(x) == x
  {
  }

  lemma SchedInput(m: Block)
    ensures forall t | 0 <= t < 16 :: Sched(m, t) == m[t]
  {
  }

  /** Words 16 to 24 of a header's schedule, with the terms that vanish left out and the nonce term last. */
  lemma NonceWordsLow(m: Block)
    requires HeaderTail(m)
    ensures Sched(m, 16) == Extend(m[14], m[9], m[1], m[0])
    ensures Sched(m, 17) == Extend(m[15], m[10], m[2], m[1])
    ensures Sched(m, 18) == Add(W32(SmallSigma1(Sched(m, 16)) + m[11] + m[2]), SmallSigma0(m[3]))
    ensures Sched(m, 19) == Add(W32(SmallSigma1(Sched(m, 17)) + m[12] + SmallSigma0(m[4])), m[3])
    ensures Sched(m, 20) == Add(W32(m[13] + SmallSigma0(m[5]) + m[4]), SmallSigma1(Sched(m, 18)))
    ensures Sched(m, 21) == SmallSigma1(Sched(m, 19))
  {
    hide SmallSigma0, SmallSigma1, Sched, W32, Add;
    SigmaOfZero();
    SchedInput(m);
    SchedStep(m, 16); SchedStep(m, 17); SchedStep(m, 18); SchedStep(m, 19); SchedStep(m, 20); SchedStep(m, 21);
    AddLast(SmallSigma1(Sched(m, 16)) + m[11] + m[2], SmallSigma0(m[3]));
    AddLast(SmallSigma1(Sched(m, 17)) + m[12] + SmallSigma0(m[4]), m[3]);
    AddLast(m[13] + SmallSigma0(m[5]) + m[4], SmallSigma1(Sched(m, 18)));
    W32OfWord(SmallSigma1(Sched(m, 19)));
  }

  lemma NonceWordsMiddle(m: Block)
    requires HeaderTail(m)
    ensures Sched(m, 22) == Add(W32(m[15] + SmallSigma0(m[7]) + m[6]), SmallSigma1(Sched(m, 20)))
    ensures Sched(m, 23) == Add(W32(Sched(m, 16) + SmallSigma0(m[8]) + m[7]), SmallSigma1(Sched(m, 21)))
    ensures Sched(m, 24) == Add(W32(Sched(m, 17) + SmallSigma0(m[9]) + m[8]), SmallSigma1(Sched(m, 22)))
    ensures Sched(m, 25) == W32(SmallSigma1(Sched(m, 23)) + Sched(m, 18))
    ensures Sched(m, 26) == W32(SmallSigma1(Sched(m, 24)) + Sched(m, 19))
  {
    hide SmallSigma0, SmallSigma1, Sched, W32, Add;
    SigmaOfZero();
    SchedInput(m);
    SchedStep(m, 22); SchedStep(m, 23); SchedStep(m, 24); SchedStep(m, 25); SchedStep(m, 26);
    AddLast(m[15] + SmallSigma0(m[7]) + m[6], SmallSigma1(Sched(m, 20)));
    AddLast(Sched(m, 16) + SmallSigma0(m[8]) + m[7], SmallSigma1(Sched(m, 21)));
    AddLast(Sched(m, 17) + SmallSigma0(m[9]) + m[8], SmallSigma1(Sched(m, 22)));
  }

  lemma NonceWordsHigh(m: Block)
    requires HeaderTail(m)
    ensures Sched(m, 27) == W32(SmallSigma1(Sched(m, 25)) + Sched(m, 20))
    ensures Sched(m, 28) == W32(SmallSigma1(Sched(m, 26)) + Sched(m, 21))
    ensures Sched(m, 29) == W32(SmallSigma1(Sched(m, 27)) + Sched(m, 22))
    ensures Sched(m, 30) == W32(W32(SmallSigma0(m[15]) + m[14]) + SmallSigma1(Sched(m, 28)) + Sched(m, 23))
    ensures Sched(m, 31) == W32(W32(SmallSigma0(Sched(m, 16)) + m[15]) + SmallSigma1(Sched(m, 29)) + Sched(m, 24))
  {
    hide SmallSigma0, SmallSigma1, Sched, W32, Add;
    SigmaOfZero();
    SchedInput(m);
    SchedStep(m, 27); SchedStep(m, 28); SchedStep(m, 29); SchedStep(m, 30); SchedStep(m, 31);
    AddTwoLast(SmallSigma0(m[15]) + m[14], SmallSigma1(Sched(m, 28)), Sched(m, 23));
    AddTwoLast(SmallSigma0(Sched(m, 16)) + m[15], SmallSigma1(Sched(m, 29)), Sched(m, 24));
  }

  /** The first half of the nonce-dependent completion of the schedule. */
  method CompleteLow(W: array<word>, ghost m: Block)
    requires W.Length == 64 && HeaderTail(m) && Prepared(W[..], m)
    modifies W
    ensures forall t | 0 <= t < 25 :: W[t] == Sched(WithNonce(m, old(W[3])), t)
    ensures W[30] == old(W[30]) && W[31] == old(W[31])
  {
    hide SmallSigma0, SmallSigma1, Extend, Sched, W32, Add;
    ghost var mn := WithNonce(m, W[3]);
    SchedInput(mn);
    NonceWordsLow(mn);
    NonceWordsMiddle(mn);
    W[18] := Add(W[18], SmallSigma0(W[3]));
    W[19] := Add(W[19], W[3]);
    W[20] := Add(W[20], SmallSigma1(W[18]));
    W[21] := SmallSigma1(W[19]);
    W[22] := Add(W[22], SmallSigma1(W[20]));
    W[23] := Add(W[23], SmallSigma1(W[21]));
    W[24] := Add(W[24], SmallSigma1(W[22]));
  }

  /** The second half: words 25 to 31. */
  method CompleteHigh(W: array<word>, ghost m: Block)
    requires W.Length == 64 && HeaderTail(m)
    requires forall t | 0 <= t < 25 :: W[t] == Sched(m, t)
    requires W[30] == W32(SmallSigma0(m[15]) + m[14])
    requires W[31] == W32(SmallSigma0(W[16]) + m[15])
    modifies W
    ensures forall t | 0 <= t < 32 :: W[t] == Sched(m, t)
  {
    hide SmallSigma0, SmallSigma1, Extend, Sched, W32;
    NonceWordsMiddle(m);
    NonceWordsHigh(m);
    W[25] := W32(SmallSigma1(W[23]) + W[18]);
    W[26] := W32(SmallSigma1(W[24]) + W[19]);
    W[27] := W32(SmallSigma1(W[25]) + W[20]);
    W[28] := W32(SmallSigma1(W[26]) + W[21]);
    W[29] := W32(SmallSigma1(W[27]) + W[22]);
    W[30] := W32(W[30] + SmallSigma1(W[28]) + W[23]);
    W[31] := W32(W[31] + SmallSigma1(W[29]) + W[24]);
  }

  /** The schedule of the second header block, completed for the nonce in W[3]. */
  method MsExtend(W: array<word>, ghost m: Block)
    requires W.Length == 64 && HeaderTail(m) && Prepared(W[..], m)
    modifies W
    ensures forall t | 0 <= t < 64 :: W[t] == Sched(WithNonce(m, old(W[3])), t)
  {
    hide SmallSigma0, SmallSigma1, Extend, Sched, W32;
    ghost var mn := WithNonce(m, W[3]);
    NonceWordsLow(mn);
    CompleteLow(W, m);
    CompleteHigh(W, mn);
    ExtendSchedule(W, 32, 64, mn);
  }

  // ----- the second hash, cut short -----

  lemma AddStateCommutes(a: State, b: State)
    ensures AddState(a, b) == AddState(b, a)
  {
  }

  /** Except for a and e, each working variable is its neighbour of the round before. */
  lemma ShiftDown(s: State, m: Block, n: nat)
    requires n < 64
    ensures forall j | 0 <= j < 7 && j != 3 :: Rounds(s, m, n + 1)[j + 1] == Rounds(s, m, n)[j]
    ensures Rounds(s, m, n + 1)[4] ==
            var v := Rounds(s, m, n); Add(v[3], Temp1(v[4], v[5], v[6], v[7], RoundInput(m, n)))
  {
    hide Temp1, Temp2, RoundInput;
  }

  /** The line that the code keeps of a round: the new e, as one sum. */
  function NewE(d: word, e: word, f: word, g: word, h: word, w: word, k: word): word {
    W32(d + (h + BigSigma1(e) + ChMacro(e, f, g) + w + k))
  }

  lemma NewEIsRound(d: word, e: word, f: word, g: word, h: word, w: word, k: word)
    ensures NewE(d, e, f, g, h, w, k) == Add(d, Temp1(e, f, g, h, k + w))
  {
    hide BigSigma1, Ch, ChMacro;
    ChMacroIsCh(e, f, g);
  }

  /** Word 7 of the final state only needs four more values of e after round 56. */
  lemma WordSeven(s: State, m: Block, v: State, e1: word, e2: word, e3: word, e4: word)
    requires v == Rounds(s, m, 57)
    requires e1 == NewE(v[3], v[4], v[5], v[6], v[7], Sched(m, 57), K(57))
    requires e2 == NewE(v[2], e1, v[4], v[5], v[6], Sched(m, 58), K(58))
    requires e3 == NewE(v[1], e2, e1, v[4], v[5], Sched(m, 59), K(59))
    requires e4 == NewE(v[0], e3, e2, e1, v[4], Sched(m, 60), K(60))
    ensures Rounds(s, m, 64)[7] == e4
  {
    hide NewE, Rounds, Temp1, Sched, K, Add;
    NewEIsRound(v[3], v[4], v[5], v[6], v[7], Sched(m, 57), K(57));
    NewEIsRound(v[2], e1, v[4], v[5], v[6], Sched(m, 58), K(58));
    NewEIsRound(v[1], e2, e1, v[4], v[5], Sched(m, 59), K(59));
    NewEIsRound(v[0], e3, e2, e1, v[4], Sched(m, 60), K(60));
    ShiftDown(s, m, 57); ShiftDown(s, m, 58); ShiftDown(s, m, 59);
    ShiftDown(s, m, 60); ShiftDown(s, m, 61); ShiftDown(s, m, 62); ShiftDown(s, m, 63);
  }

  function Hash1(i: nat): word
    requires 8 <= i < 16
  {
    Hash1Tail()[i - 8]
  }

  /** The schedule of the second hash up to word 60, in S, whose first eight words are the first hash. */
  method SecondSchedule(S: array<word>, ghost m: Block)
    requires S.Length == 64 && m == S[..8] + Hash1Tail()
    modifies S
    ensures forall t | 0 <= t < 61 :: S[t] == Sched(m, t)
  {
    hide Extend, Sched;
    LoadTail(S);
    SchedInput(m);
    assert forall t | 0 <= t < 16 :: S[t] == Sched(m, t);
    SecondScheduleLow(S, m);
    SecondScheduleHigh(S, m);
    ExtendSchedule(S, 32, 60, m);
    S[60] := Extend(S[58], S[53], S[45], S[44]);
    SchedStep(m, 60);
  }

  /** The first eight assignments that extend it, with the constant words written as constants. */
  method SecondScheduleLow(S: array<word>, ghost m: Block)
    requires S.Length == 64
    requires forall t | 0 <= t < 16 :: S[t] == Sched(m, t)
    requires forall i | 8 <= i < 16 :: S[i] == Hash1(i)
    modifies S
    ensures forall t | 0 <= t < 24 :: S[t] == Sched(m, t)
  {
    hide Extend, Sched, Hash1;
    SchedStep(m, 16); SchedStep(m, 17); SchedStep(m, 18); SchedStep(m, 19);
    SchedStep(m, 20); SchedStep(m, 21); SchedStep(m, 22); SchedStep(m, 23);
    S[16] := Extend(Hash1(14), Hash1(9), S[1], S[0]); assert S[16] == Sched(m, 16);
    S[17] := Extend(Hash1(15), Hash1(10), S[2], S[1]); assert S[17] == Sched(m, 17);
    S[18] := Extend(S[16], Hash1(11), S[3], S[2]); assert S[18] == Sched(m, 18);
    S[19] := Extend(S[17], Hash1(12), S[4], S[3]); assert S[19] == Sched(m, 19);
    S[20] := Extend(S[18], Hash1(13), S[5], S[4]); assert S[20] == Sched(m, 20);
    S[21] := Extend(S[19], Hash1(14), S[6], S[5]); assert S[21] == Sched(m, 21);
    S[22] := Extend(S[20], Hash1(15), S[7], S[6]); assert S[22] == Sched(m, 22);
    S[23] := Extend(S[21], S[16], Hash1(8), S[7]); assert S[23] == Sched(m, 23);
  }

  /** The other eight. */
  method SecondScheduleHigh(S: array<word>, ghost m: Block)
    requires S.Length == 64
    requires forall t | 0 <= t < 24 :: S[t] == Sched(m, t)
    requires forall i | 8 <= i < 16 :: S[i] == Hash1(i)
    modifies S
    ensures forall t | 0 <= t < 32 :: S[t] == Sched(m, t)
  {
    hide Extend, Sched, Hash1;
    SchedStep(m, 24); SchedStep(m, 25); SchedStep(m, 26); SchedStep(m, 27);
    SchedStep(m, 28); SchedStep(m, 29); SchedStep(m, 30); SchedStep(m, 31);
    S[24] := Extend(S[22], S[17], Hash1(9), Hash1(8)); assert S[24] == Sched(m, 24);
    S[25] := Extend(S[23], S[18], Hash1(10), Hash1(9)); assert S[25] == Sched(m, 25);
    S[26] := Extend(S[24], S[19], Hash1(11), Hash1(10)); assert S[26] == Sched(m, 26);
    S[27] := Extend(S[25], S[20], Hash1(12), Hash1(11)); assert S[27] == Sched(m, 27);
    S[28] := Extend(S[26], S[21], Hash1(13), Hash1(12)); assert S[28] == Sched(m, 28);
    S[29] := Extend(S[27], S[22], Hash1(14), Hash1(13)); assert S[29] == Sched(m, 29);
    S[30] := Extend(S[28], S[23], Hash1(15), Hash1(14)); assert S[30] == Sched(m, 30);
    S[31] := Extend(S[29], S[24], S[16], Hash1(15)); assert S[31] == Sched(m, 31);
  }

  /** The rounds of the second hash: 57 full ones, four that keep only e, and word 7 of the sum. */
  method SecondHash(hash: array<word>, S: array<word>, ghost m: Block)
    requires hash.Length == 8 && S.Length == 64 && hash != S
    requires forall t | 0 <= t < 61 :: S[t] == Sched(m, t)
    modifies hash
    ensures hash[7] == Compress(H0(), m)[7]
  {
    hide NewE, Sched, Round, H0, K;
    InitState(hash);
    ViewAligned(hash[..]);
    MixRounds(hash, S, 0, 57, H0(), m);
    ghost var v: State := Rounds(H0(), m, 57);
    assert v == [hash[7], hash[0], hash[1], hash[2], hash[3], hash[4], hash[5], hash[6]];
    hash[2] := NewE(hash[2], hash[3], hash[4], hash[5], hash[6], S[57], K(57));
    hash[1] := NewE(hash[1], hash[2], hash[3], hash[4], hash[5], S[58], K(58));
    hash[0] := NewE(hash[0], hash[1], hash[2], hash[3], hash[4], S[59], K(59));
    hash[7] := NewE(hash[7], hash[0], hash[1], hash[2], hash[3], S[60], K(60));
    WordSeven(H0(), m, v, hash[2], hash[1], hash[0], hash[7]);
    hash[7] := Add(hash[7], H0()[7]);
  }

  /** sha256d_ms: word 7 of the double hash of a header, from the midstate and three rounds of the second block. */
  method Sha256dMs(hash: array<word>, W: array<word>, midstate: array<word>, prehash: array<word>, ghost m: Block)
    requires hash.Length == 8 && W.Length == 64 && midstate.Length == 8 && prehash.Length == 8
    requires hash != W && hash != midstate && W != midstate && hash != prehash && W != prehash
    requires HeaderTail(m) && Prepared(W[..], m)
    requires View(prehash[..], 3) == Rounds(midstate[..], m, 3)
    modifies hash, W
    ensures hash[7] == SecondPass(Compress(midstate[..], WithNonce(m, old(W[3]))))[7]
    ensures Prepared(W[..], m) && W[3] == old(W[3])
  {
    hide Extend, Sched, Rounds, View, Prepared, AddState, SmallSigma0, SmallSigma1, Saved;
    ghost var mn := WithNonce(m, W[3]);
    ghost var w := W[..];
    ghost var mid: State := midstate[..];
    var S := new word[64](_ => 0);
    SaveTerms(S, W);
    ghost var saved := S[8..];
    MsExtend(W, m);
    assert midstate[..8] == mid && prehash[..8] == prehash[..];
    CopyState(S, prehash);
    PrehashIgnoresNonce(mid, m, w[3]);
    SameView(S[..], prehash[..], 3);
    MixRounds(S, W, 3, 64, mid, mn);
    ViewAligned(S[..]);
    AddInto(S, midstate);
    AddStateCommutes(mid, Rounds(mid, mn, 64));
    assert S[8..] == saved;
    RestoreTerms(W, S, w, m);
    ghost var m2: Block := S[..8] + Hash1Tail();
    SecondSchedule(S, m2);
    SecondHash(hash, S, m2);
  }

  /** The saved terms, at the same places of S. */
  predicate Saved(s: seq<word>, w: seq<word>)
    requires |s| == 56 && |w| == 64
  {
    forall t | t in {18, 19, 20, 22, 23, 24, 30, 31} :: s[t - 8] == w[t]
  }

  method SaveTerms(S: array<word>, W: array<word>)
    requires S.Length == 64 && W.Length == 64 && S != W
    modifies S
    ensures Saved(S[8..], W[..])
  {
    S[18], S[19], S[20], S[22] := W[18], W[19], W[20], W[22];
    S[23], S[24], S[30], S[31] := W[23], W[24], W[30], W[31];
  }

  /** Puts the saved terms back, for the next nonce. */
  method RestoreTerms(W: array<word>, S: array<word>, ghost w: seq<word>, ghost m: Block)
    requires S.Length == 64 && W.Length == 64 && S != W && Prepared(w, m) && Saved(S[8..], w)
    requires forall t | 0 <= t < 64 :: W[t] == Sched(WithNonce(m, w[3]), t)
    modifies W
    ensures Prepared(W[..], m) && W[3] == w[3]
  {
    hide Prepared, Sched;
    ghost var s := S[8..];
    assert S[18] == s[10] && S[19] == s[11] && S[20] == s[12] && S[22] == s[14];
    assert S[23] == s[15] && S[24] == s[16] && S[30] == s[22] && S[31] == s[23];
    W[18], W[19], W[20], W[22] := S[18], S[19], S[20], S[22];
    W[23], W[24], W[30], W[31] := S[23], S[24], S[30], S[31];
    RestoredIsPrepared(w, W[..], m);
  }

  /** The three rounds done in advance read only words 0 to 2 of the block. */
  lemma PrehashIgnoresNonce(s: State, m: Block, n: word)
    ensures Rounds(s, WithNonce(m, n), 3) == Rounds(s, m, 3)
  {
    hide Round;
    assert Rounds(s, WithNonce(m, n), 1) == Rounds(s, m, 1);
    assert Rounds(s, WithNonce(m, n), 2) == Rounds(s, m, 2);
  }

  lemma SameView(s: seq<word>, t: seq<word>, i: nat)
    requires |s| >= 8 && |t| >= 8 && s[..8] == t[..8] && i <= 64
    ensures View(s, i) == View(t, i)
  {
    hide Slot;
    assert forall k | 0 <= k < 8 :: s[k] == s[..8][k] && t[k] == t[..8][k];
  }

  lemma RestoredIsPrepared(before: seq<word>, after: seq<word>, m: Block)
    requires Prepared(before, m) && |after| == 64
    requires forall t | 0 <= t < 18 :: after[t] == Sched(WithNonce(m, before[3]), t)
    requires forall t | t in {18, 19, 20, 22, 23, 24, 30, 31} :: after[t] == before[t]
    ensures Prepared(after, m) && after[3] == before[3]
  {
    hide Extend, W32, SmallSigma0, SmallSigma1, Sched;
    var mn := WithNonce(m, before[3]);
    SchedInput(mn);
    SchedStep(mn, 16);
    SchedStep(mn, 17);
    assert after[16] == before[16] && after[17] == before[17];
    assert forall i | 0 <= i < 16 && i != 3 :: after[i] == m[i];
  }

  /** sha256d_prehash: three rounds on words `off` to `off` + 2 of `W`. */
  method Prehash(S: array<word>, W: array<word>, off: nat, ghost m: Block)
    requires S.Length >= 8 && off + 16 <= W.Length && S != W && m == W[off..off + 16]
    modifies S
    ensures View(S[..], 3) == Rounds(old(S[..8]), m, 3)
  {
    hide View, Round, K, Sched;
    ghost var s0: State := S[..8];
    ViewAligned(S[..]);
    SchedInput(m);
    RNDr(S, W, off, 0);
    assert View(S[..], 1) == Rounds(s0, m, 1);
    RNDr(S, W, off, 1);
    assert View(S[..], 2) == Rounds(s0, m, 2);
    RNDr(S, W, off, 2);
  }

  // ----- the scan -----

  /** The number whose base-2^32 digits, least significant first, are `ws`. */
  function Value(ws: seq<word>): nat {
    if ws == [] then 0 else ws[0] + 0x1_0000_0000 * Value(ws[1..])
  }

  /** The highest differing digit decides. */
  lemma {:induction false} ValueOrder(a: seq<word>, b: seq<word>, i: nat)
    requires |a| == |b| && i < |a| && a[i + 1..] == b[i + 1..] && a[i] < b[i]
    ensures Value(a) < Value(b)
  {
    if i > 0 {
      assert a[1..][i..] == a[i + 1..] && b[1..][i..] == b[i + 1..];
      ValueOrder(a[1..], b[1..], i - 1);
    }
  }

  /** fulltest: compares two 256-bit numbers held in eight words, top word first. */
  method Fulltest(hash: array<word>, target: array<word>) returns (rc: bool)
    requires hash.Length >= 8 && target.Length >= 8
    ensures rc <==> Value(hash[..8]) <= Value(target[..8])
  {
    var i := 7;
    while i >= 0
      invariant -1 <= i < 8
      invariant hash[..8][i + 1..] == target[..8][i + 1..]
    {
      if hash[i] > target[i] {
        ValueOrder(target[..8], hash[..8], i);
        return false;
      }
      if hash[i] < target[i] {
        ValueOrder(hash[..8], target[..8], i);
        return true;
      }
      assert hash[..8][i..] == [hash[i]] + hash[..8][i + 1..];
      assert target[..8][i..] == [target[i]] + target[..8][i + 1..];
      i := i - 1;
    }
    return true;
  }

  /** The header words with the nonce `n`. */
  function HeaderWithNonce(data: seq<word>, n: word): seq<word>
    requires |data| >= 32
  {
    data[19 := n]
  }

  /** The double hash of the header words `data`, as the 256-bit number the target is compared with. */
  function HashNumber(data: seq<word>): nat
    requires |data| >= 32
  {
    Value(seq(8, i requires 0 <= i < 8 => Swab32(DoubleHashWords(data)[i])))
  }

  /** Nonce `n` solves the work: its header hashes to at most the target. */
  predicate Solves(data: seq<word>, target: seq<word>, n: word)
    requires |data| >= 32 && |target| >= 8
  {
    HashNumber(HeaderWithNonce(data, n)) <= Value(target[..8])
  }

  /** A header whose nonce gives a top hash word above the top target word does not solve the work. */
  lemma PrefilterLosesNothing(data: seq<word>, target: seq<word>, n: word)
    requires |data| >= 32 && |target| >= 8
    requires Swab32(DoubleHashWords(HeaderWithNonce(data, n))[7]) > target[7]
    ensures !Solves(data, target, n)
  {
    hide DoubleHashWords, Swab32;
    var d := HeaderWithNonce(data, n);
    var h: seq<word> := seq(8, i requires 0 <= i < 8 => Swab32(DoubleHashWords(d)[i]));
    ValueOrder(target[..8], h, 7);
  }

  /** Writing the nonce into the schedule leaves it prepared. */
  lemma SetNonce(w: seq<word>, m: Block, n: word)
    requires Prepared(w, m)
    ensures Prepared(w[3 := n], m)
  {
    hide Extend, W32, SmallSigma0, SmallSigma1;
  }

  /** The words of the double hash, split where the scan splits them. */
  lemma MidstateSplit(data: seq<word>, n: word)
    requires |data| >= 32
    ensures DoubleHashWords(HeaderWithNonce(data, n)) ==
            SecondPass(Compress(Compress(H0(), data[..16]), WithNonce(data[16..32], n)))
  {
    hide Compress, SecondPass, H0;
    assert HeaderWithNonce(data, n)[..16] == data[..16];
    assert HeaderWithNonce(data, n)[16..32] == WithNonce(data[16..32], n);
  }

  /** The full test of a nonce that passed the test of word 7. */
  method ConfirmNonce(pdata: array<word>, ptarget: array<word>, hash: array<word>, n: word, ghost d0: seq<word>)
    returns (found: bool)
    requires pdata.Length >= 32 && ptarget.Length >= 8 && hash.Length == 8
    requires pdata != hash && ptarget != hash && |d0| == pdata.Length && pdata[..] == d0[19 := n]
    modifies hash
    ensures found <==> Solves(d0, ptarget[..], n)
  {
    hide Compress, H0, SecondPass, Swab32, Value, Solves, DoubleHashWords;
    assert pdata[..] == HeaderWithNonce(d0, n);
    Sha256d80Swap(hash, pdata);
    assert hash[..8] == seq(8, i requires 0 <= i < 8 => Swab32(DoubleHashWords(HeaderWithNonce(d0, n))[i]));
    found := Fulltest(hash, ptarget);
    SolvesMeans(d0, ptarget[..], n, hash[..8]);
  }

  /** One turn of the scan loop: decides whether nonce `n` solves the work. */
  method TryNonce(pdata: array<word>, ptarget: array<word>, data: array<word>, hash: array<word>,
                  midstate: array<word>, prehash: array<word>, n: word, ghost d0: seq<word>)
    returns (found: bool)
    requires pdata.Length >= 32 && ptarget.Length >= 8
    requires data.Length == 64 && hash.Length == 8 && midstate.Length == 8 && prehash.Length == 8
    requires hash != data && hash != midstate && data != midstate && hash != prehash && data != prehash
    requires pdata != data && pdata != hash && pdata != ptarget && pdata != midstate && pdata != prehash
    requires ptarget != data && ptarget != hash
    requires |d0| == pdata.Length && pdata[..] == d0[19 := pdata[19]]
    requires HeaderTail(d0[16..32]) && Prepared(data[..], d0[16..32])
    requires midstate[..] == Compress(H0(), d0[..16])
    requires View(prehash[..], 3) == Rounds(midstate[..], d0[16..32], 3)
    modifies pdata, data, hash
    ensures found <==> Solves(d0, ptarget[..], n)
    ensures found ==> pdata[19] == n
    ensures pdata[..] == d0[19 := pdata[19]] && Prepared(data[..], d0[16..32])
  {
    hide Compress, H0, SecondPass, View, Rounds, Prepared, Swab32, Value, Solves, DoubleHashWords, HeaderTail;
    ghost var m: Block := d0[16..32];
    SetNonce(data[..], m, n);
    assert data[..][3 := n] == data[..3] + [n] + data[4..];
    data[3] := n;
    assert data[..] == data[..3] + [n] + data[4..];
    Sha256dMs(hash, data, midstate, prehash, m);
    MidstateSplit(d0, n);
    found := false;
    if Swab32(hash[7]) <= ptarget[7] {
      pdata[19] := data[3];
      assert pdata[..] == d0[19 := n];
      found := ConfirmNonce(pdata, ptarget, hash, n, d0);
    } else {
      PrefilterLosesNothing(d0, ptarget[..], n);
    }
  }

  lemma SolvesMeans(data: seq<word>, target: seq<word>, n: word, h: seq<word>)
    requires |data| >= 32 && |target| >= 8
    requires h == seq(8, i requires 0 <= i < 8 => Swab32(DoubleHashWords(HeaderWithNonce(data, n))[i]))
    ensures Solves(data, target, n) <==> Value(h) <= Value(target[..8])
  {
    hide Value, DoubleHashWords, Swab32;
  }

  /** The count of hashes the scan reports when it stops at `n`: a uint32_t. */
  function HashesDone(first: int, n: int): word {
    W32(n - first + 1)
  }

  /** What the scan computes once per call: the prepared schedule, the midstate and the three-round state. */
  method PrepareScan(pdata: array<word>) returns (data: array<word>, midstate: array<word>, prehash: array<word>)
    requires pdata.Length >= 32
    ensures fresh(data) && fresh(midstate) && fresh(prehash)
    ensures data != midstate && data != prehash
    ensures data.Length == 64 && midstate.Length == 8 && prehash.Length == 8
    ensures Prepared(data[..], pdata[16..32])
    ensures midstate[..] == Compress(H0(), pdata[..16])
    ensures View(prehash[..], 3) == Rounds(midstate[..], pdata[16..32], 3)
  {
    hide Compress, H0, View, Rounds, Prepared;
    data := new word[64](_ => 0);
    for i := 0 to 16
      modifies data
      invariant data[..i] == pdata[16..16 + i]
    {
      data[i] := pdata[16 + i];
    }
    Preextend(data);
    midstate := new word[8](_ => 0);
    prehash := new word[8](_ => 0);
    InitState(midstate);
    assert LoadBlock(pdata[..], 0, false) == pdata[..16];
    Sha256Transform(midstate, pdata, 0, false);
    CopyState(prehash, midstate);
    Prehash(prehash, pdata, 16, pdata[16..32]);
    assert midstate[..8] == midstate[..];
  }

  /** Nonce `k` was tried in vain, and neither the limit nor the restart flag stopped the scan there. */
  predicate PassedOver(data: seq<word>, target: seq<word>, first: int, k: word, maxNonce: word, restart: nat -> bool)
    requires |data| >= 32 && |target| >= 8 && first <= k
  {
    !Solves(data, target, k) && k < maxNonce && !restart(k - first + 1)
  }

  /** scanhash_sha256d. `restart(k)` is the thread's restart flag as read after `k` hashes. */
  method ScanhashSha256d(pdata: array<word>, ptarget: array<word>, maxNonce: word, restart: nat -> bool)
    returns (rc: int, hashesDone: word)
    requires pdata.Length >= 32 && ptarget.Length >= 8 && pdata != ptarget
    requires HeaderTail(pdata[16..32])
    modifies pdata
    ensures pdata[..] == old(pdata[..])[19 := pdata[19]]
    ensures old(pdata[19]) <= pdata[19] && hashesDone == HashesDone(old(pdata[19]), pdata[19])
    ensures forall k: word | old(pdata[19]) <= k < pdata[19] ::
              PassedOver(old(pdata[..]), ptarget[..], old(pdata[19]), k, maxNonce, restart)
    ensures rc == 1 ==> Solves(old(pdata[..]), ptarget[..], pdata[19])
    ensures rc == 0 ==> !Solves(old(pdata[..]), ptarget[..], pdata[19])
                        && (pdata[19] >= maxNonce || restart(pdata[19] - old(pdata[19]) + 1))
    ensures rc == 0 || rc == 1
  {
    hide Compress, H0, View, Rounds, Prepared, Solves, HeaderTail, HashesDone;
    ghost var d0: seq<word>, t0: seq<word> := pdata[..], ptarget[..];
    var first: int := pdata[19];
    var n := W32(first - 1);
    var data, midstate, prehash := PrepareScan(pdata);
    var hash := new word[8](_ => 0);
    ghost var pre, mid := prehash[..], midstate[..];
    ghost var tried := 0;
    while true
      modifies data, hash, pdata
      invariant prehash[..] == pre && midstate[..] == mid && ptarget[..] == t0
      invariant n == W32(first + tried - 1) && first + tried <= 0xffff_ffff
      invariant pdata[..] == d0[19 := pdata[19]] && Prepared(data[..], d0[16..32])
      invariant forall k: word | first <= k < first + tried ::
                  PassedOver(d0, t0, first, k, maxNonce, restart)
      decreases 0x1_0000_0000 - tried
    {
      n := W32(n + 1);
      assert n == first + tried;
      var found := TryNonce(pdata, ptarget, data, hash, midstate, prehash, n, d0);
      if found {
        return 1, HashesDone(first, n);
      }
      if !(n < maxNonce && !restart(n - first + 1)) {
        break;
      }
      tried := tried + 1;
    }
    pdata[19] := n;
    return 0, HashesDone(first, n);
  }
}
