/** The one-block example of FIPS 180-4: the digest of "abc", round by round. */
module Sha256Example {
  import opened Words
  import opened Sha256Spec
  import opened Sha256Code
  import opened Sha256Bytes

  /** The block of the padded message. */
  predicate IsAbc(m: Block) {
    m[0] == 0x61626380 && m[15] == 0x18 && forall i | 1 <= i < 15 :: m[i] == 0
  }

  function OfBits(b: bv32): word {
    b as word
  }

  lemma ToBits(b: bv32)
    ensures OfBits(b) as bv32 == b
  {
  }

  // ----- the message schedule -----

  /** One word of the schedule, from four earlier ones. */
  lemma Word(m: Block, t: nat, w2: bv32, w7: word, w15: bv32, w16: word, x: word)
    requires 16 <= t < 64
    requires Sched(m, t - 2) == OfBits(w2) && Sched(m, t - 7) == w7
    requires Sched(m, t - 15) == OfBits(w15) && Sched(m, t - 16) == w16
    requires W32(OfBits(SmallSigma1Bits(w2)) + w7 + OfBits(SmallSigma0Bits(w15)) + w16) == x
    ensures Sched(m, t) == x
  {
    hide SmallSigma0Bits, SmallSigma1Bits, W32, Sched;
    SchedStep(m, t);
    ToBits(w2);
    ToBits(w15);
  }

  lemma Schedule16(m: Block)
    requires IsAbc(m)
    ensures Sched(m, 0) == 0x61626380 && Sched(m, 1) == 0
    ensures Sched(m, 2) == 0 && Sched(m, 3) == 0
    ensures Sched(m, 4) == 0 && Sched(m, 5) == 0
    ensures Sched(m, 6) == 0 && Sched(m, 7) == 0
    ensures Sched(m, 8) == 0 && Sched(m, 9) == 0
    ensures Sched(m, 10) == 0 && Sched(m, 11) == 0
    ensures Sched(m, 12) == 0 && Sched(m, 13) == 0
    ensures Sched(m, 14) == 0 && Sched(m, 15) == 0x00000018
  {
  }

  lemma Schedule24(m: Block)
    requires IsAbc(m)
    ensures Sched(m, 16) == 0x61626380 && Sched(m, 17) == 0x000f0000
    ensures Sched(m, 18) == 0x7da86405 && Sched(m, 19) == 0x600003c6
    ensures Sched(m, 20) == 0x3e9d7b78 && Sched(m, 21) == 0x0183fc00
    ensures Sched(m, 22) == 0x12dcbfdb && Sched(m, 23) == 0xe2e2c38e
  {
    hide Sched, IsAbc;
    Schedule16(m);
    Word(m, 16, 0x00000000, 0x00000000, 0x00000000, 0x61626380, 0x61626380);
    Word(m, 17, 0x00000018, 0x00000000, 0x00000000, 0x00000000, 0x000f0000);
    Word(m, 18, 0x61626380, 0x00000000, 0x00000000, 0x00000000, 0x7da86405);
    Word(m, 19, 0x000f0000, 0x00000000, 0x00000000, 0x00000000, 0x600003c6);
    Word(m, 20, 0x7da86405, 0x00000000, 0x00000000, 0x00000000, 0x3e9d7b78);
    Word(m, 21, 0x600003c6, 0x00000000, 0x00000000, 0x00000000, 0x0183fc00);
    Word(m, 22, 0x3e9d7b78, 0x00000018, 0x00000000, 0x00000000, 0x12dcbfdb);
    Word(m, 23, 0x0183fc00, 0x61626380, 0x00000000, 0x00000000, 0xe2e2c38e);
  }

  lemma Schedule32(m: Block)
    requires IsAbc(m)
    ensures Sched(m, 24) == 0xc8215c1a && Sched(m, 25) == 0xb73679a2
    ensures Sched(m, 26) == 0xe5bc3909 && Sched(m, 27) == 0x32663c5b
    ensures Sched(m, 28) == 0x9d209d67 && Sched(m, 29) == 0xec8726cb
    ensures Sched(m, 30) == 0x702138a4 && Sched(m, 31) == 0xd3b7973b
  {
    hide Sched, IsAbc;
    Schedule16(m);
    Schedule24(m);
    Word(m, 24, 0x12dcbfdb, 0x000f0000, 0x00000000, 0x00000000, 0xc8215c1a);
    Word(m, 25, 0xe2e2c38e, 0x7da86405, 0x00000000, 0x00000000, 0xb73679a2);
    Word(m, 26, 0xc8215c1a, 0x600003c6, 0x00000000, 0x00000000, 0xe5bc3909);
    Word(m, 27, 0xb73679a2, 0x3e9d7b78, 0x00000000, 0x00000000, 0x32663c5b);
    Word(m, 28, 0xe5bc3909, 0x0183fc00, 0x00000000, 0x00000000, 0x9d209d67);
    Word(m, 29, 0x32663c5b, 0x12dcbfdb, 0x00000000, 0x00000000, 0xec8726cb);
    Word(m, 30, 0x9d209d67, 0xe2e2c38e, 0x00000018, 0x00000000, 0x702138a4);
    Word(m, 31, 0xec8726cb, 0xc8215c1a, 0x61626380, 0x00000018, 0xd3b7973b);
  }

  lemma Schedule40(m: Block)
    requires IsAbc(m)
    ensures Sched(m, 32) == 0x93f5997f && Sched(m, 33) == 0x3b68ba73
    ensures Sched(m, 34) == 0xaff4ffc1 && Sched(m, 35) == 0xf10a5c62
    ensures Sched(m, 36) == 0x0a8b3996 && Sched(m, 37) == 0x72af830a
    ensures Sched(m, 38) == 0x9409e33e && Sched(m, 39) == 0x24641522
  {
    hide Sched, IsAbc;
    Schedule24(m);
    Schedule32(m);
    Word(m, 32, 0x702138a4, 0xb73679a2, 0x000f0000, 0x61626380, 0x93f5997f);
    Word(m, 33, 0xd3b7973b, 0xe5bc3909, 0x7da86405, 0x000f0000, 0x3b68ba73);
    Word(m, 34, 0x93f5997f, 0x32663c5b, 0x600003c6, 0x7da86405, 0xaff4ffc1);
    Word(m, 35, 0x3b68ba73, 0x9d209d67, 0x3e9d7b78, 0x600003c6, 0xf10a5c62);
    Word(m, 36, 0xaff4ffc1, 0xec8726cb, 0x0183fc00, 0x3e9d7b78, 0x0a8b3996);
    Word(m, 37, 0xf10a5c62, 0x702138a4, 0x12dcbfdb, 0x0183fc00, 0x72af830a);
    Word(m, 38, 0x0a8b3996, 0xd3b7973b, 0xe2e2c38e, 0x12dcbfdb, 0x9409e33e);
    Word(m, 39, 0x72af830a, 0x93f5997f, 0xc8215c1a, 0xe2e2c38e, 0x24641522);
  }

  lemma Schedule48(m: Block)
    requires IsAbc(m)
    ensures Sched(m, 40) == 0x9f47bf94 && Sched(m, 41) == 0xf0a64f5a
    ensures Sched(m, 42) == 0x3e246a79 && Sched(m, 43) == 0x27333ba3
    ensures Sched(m, 44) == 0x0c4763f2 && Sched(m, 45) == 0x840abf27
    ensures Sched(m, 46) == 0x7a290d5d && Sched(m, 47) == 0x065c43da
  {
    hide Sched, IsAbc;
    Schedule32(m);
    Schedule40(m);
    Word(m, 40, 0x9409e33e, 0x3b68ba73, 0xb73679a2, 0xc8215c1a, 0x9f47bf94);
    Word(m, 41, 0x24641522, 0xaff4ffc1, 0xe5bc3909, 0xb73679a2, 0xf0a64f5a);
    Word(m, 42, 0x9f47bf94, 0xf10a5c62, 0x32663c5b, 0xe5bc3909, 0x3e246a79);
    Word(m, 43, 0xf0a64f5a, 0x0a8b3996, 0x9d209d67, 0x32663c5b, 0x27333ba3);
    Word(m, 44, 0x3e246a79, 0x72af830a, 0xec8726cb, 0x9d209d67, 0x0c4763f2);
    Word(m, 45, 0x27333ba3, 0x9409e33e, 0x702138a4, 0xec8726cb, 0x840abf27);
    Word(m, 46, 0x0c4763f2, 0x24641522, 0xd3b7973b, 0x702138a4, 0x7a290d5d);
    Word(m, 47, 0x840abf27, 0x9f47bf94, 0x93f5997f, 0xd3b7973b, 0x065c43da);
  }

  lemma Schedule56(m: Block)
    requires IsAbc(m)
    ensures Sched(m, 48) == 0xfb3e89cb && Sched(m, 49) == 0xcc7617db
    ensures Sched(m, 50) == 0xb9e66c34 && Sched(m, 51) == 0xa9993667
    ensures Sched(m, 52) == 0x84badedd && Sched(m, 53) == 0xc21462bc
    ensures Sched(m, 54) == 0x1487472c && Sched(m, 55) == 0xb20f7a99
  {
    hide Sched, IsAbc;
    Schedule40(m);
    Schedule48(m);
    Word(m, 48, 0x7a290d5d, 0xf0a64f5a, 0x3b68ba73, 0x93f5997f, 0xfb3e89cb);
    Word(m, 49, 0x065c43da, 0x3e246a79, 0xaff4ffc1, 0x3b68ba73, 0xcc7617db);
    Word(m, 50, 0xfb3e89cb, 0x27333ba3, 0xf10a5c62, 0xaff4ffc1, 0xb9e66c34);
    Word(m, 51, 0xcc7617db, 0x0c4763f2, 0x0a8b3996, 0xf10a5c62, 0xa9993667);
    Word(m, 52, 0xb9e66c34, 0x840abf27, 0x72af830a, 0x0a8b3996, 0x84badedd);
    Word(m, 53, 0xa9993667, 0x7a290d5d, 0x9409e33e, 0x72af830a, 0xc21462bc);
    Word(m, 54, 0x84badedd, 0x065c43da, 0x24641522, 0x9409e33e, 0x1487472c);
    Word(m, 55, 0xc21462bc, 0xfb3e89cb, 0x9f47bf94, 0x24641522, 0xb20f7a99);
  }

  lemma Schedule64(m: Block)
    requires IsAbc(m)
    ensures Sched(m, 56) == 0xef57b9cd && Sched(m, 57) == 0xebe6b238
    ensures Sched(m, 58) == 0x9fe3095e && Sched(m, 59) == 0x78bc8d4b
    ensures Sched(m, 60) == 0xa43fcf15 && Sched(m, 61) == 0x668b2ff8
    ensures Sched(m, 62) == 0xeeaba2cc && Sched(m, 63) == 0x12b1edeb
  {
    hide Sched, IsAbc;
    Schedule48(m);
    Schedule56(m);
    Word(m, 56, 0x1487472c, 0xcc7617db, 0xf0a64f5a, 0x9f47bf94, 0xef57b9cd);
    Word(m, 57, 0xb20f7a99, 0xb9e66c34, 0x3e246a79, 0xf0a64f5a, 0xebe6b238);
    Word(m, 58, 0xef57b9cd, 0xa9993667, 0x27333ba3, 0x3e246a79, 0x9fe3095e);
    Word(m, 59, 0xebe6b238, 0x84badedd, 0x0c4763f2, 0x27333ba3, 0x78bc8d4b);
    Word(m, 60, 0x9fe3095e, 0xc21462bc, 0x840abf27, 0x0c4763f2, 0xa43fcf15);
    Word(m, 61, 0x78bc8d4b, 0x1487472c, 0x7a290d5d, 0x840abf27, 0x668b2ff8);
    Word(m, 62, 0xa43fcf15, 0xb20f7a99, 0x065c43da, 0x7a290d5d, 0xeeaba2cc);
    Word(m, 63, 0x668b2ff8, 0xef57b9cd, 0xfb3e89cb, 0x065c43da, 0x12b1edeb);
  }

  // ----- the rounds -----

  function Regs(a: word, b: word, c: word, d: word, e: word, f: word, g: word, h: word): State {
    [a, b, c, d, e, f, g, h]
  }

  lemma SumsAgree(p: int, q: int, d: word)
    ensures Add(W32(p), W32(q)) == W32(p + q) && Add(d, W32(p)) == W32(d + p)
  {
  }

  lemma RegsRound(a: word, b: word, c: word, d: word, e: word, f: word, g: word, h: word, kw: int)
    ensures var t1 := Temp1(e, f, g, h, kw);
            Round(Regs(a, b, c, d, e, f, g, h), kw) == Regs(Add(t1, Temp2(a, b, c)), a, b, c, Add(d, t1), e, f, g)
  {
    hide Temp1, Temp2, Add;
  }

  lemma TempOne(e: bv32, f: bv32, g: bv32, h: word, kw: int)
    ensures Temp1(OfBits(e), OfBits(f), OfBits(g), h, kw) ==
            W32(h + OfBits(BigSigma1Bits(e)) + OfBits(ChBits(e, f, g)) + kw)
  {
    hide BigSigma1Bits, ChBits, W32;
    ToBits(e);
    ToBits(f);
    ToBits(g);
  }

  lemma TempTwo(a: bv32, b: bv32, c: bv32)
    ensures Temp2(OfBits(a), OfBits(b), OfBits(c)) == W32(OfBits(BigSigma0Bits(a)) + OfBits(MajBits(a, b, c)))
  {
    hide BigSigma0Bits, MajBits, W32;
    ToBits(a);
    ToBits(b);
    ToBits(c);
  }

  lemma RoundsNext(m: Block, n: nat)
    requires n < 64
    ensures Rounds(H0(), m, n + 1) == Round(Rounds(H0(), m, n), K(n) + Sched(m, n))
  {
    hide Round, K, Sched, H0;
  }

  /** Round `n`: the working variables before it, its constant and schedule word, and the new a and e. */
  lemma Step(m: Block, n: nat, a: bv32, b: bv32, c: bv32, d: bv32, e: bv32, f: bv32, g: bv32, h: bv32,
             k: word, w: word, x: bv32, y: bv32)
    requires n < 64 && Rounds(H0(), m, n) ==
             Regs(OfBits(a), OfBits(b), OfBits(c), OfBits(d), OfBits(e), OfBits(f), OfBits(g), OfBits(h))
    requires K(n) == k && Sched(m, n) == w
    requires var t1 := OfBits(h) + OfBits(BigSigma1Bits(e)) + OfBits(ChBits(e, f, g)) + (k + w);
             && OfBits(x) == W32(t1 + (OfBits(BigSigma0Bits(a)) + OfBits(MajBits(a, b, c))))
             && OfBits(y) == W32(OfBits(d) + t1)
    ensures Rounds(H0(), m, n + 1) ==
            Regs(OfBits(x), OfBits(a), OfBits(b), OfBits(c), OfBits(y), OfBits(e), OfBits(f), OfBits(g))
  {
    hide OfBits, BigSigma0Bits, BigSigma1Bits, ChBits, MajBits;
    hide W32, Add, Temp1, Temp2, K, Sched, H0, Regs, Round, Rounds;
    RoundsNext(m, n);
    RegsRound(OfBits(a), OfBits(b), OfBits(c), OfBits(d), OfBits(e), OfBits(f), OfBits(g), OfBits(h), k + w);
    TempOne(e, f, g, OfBits(h), k + w);
    TempTwo(a, b, c);
    var t1 := OfBits(h) + OfBits(BigSigma1Bits(e)) + OfBits(ChBits(e, f, g)) + (k + w);
    SumsAgree(t1, OfBits(BigSigma0Bits(a)) + OfBits(MajBits(a, b, c)), OfBits(d));
  }

  lemma KRow0()
    ensures K(0) == 0x428a2f98 && K(1) == 0x71374491 && K(2) == 0xb5c0fbcf && K(3) == 0xe9b5dba5
    ensures K(4) == 0x3956c25b && K(5) == 0x59f111f1 && K(6) == 0x923f82a4 && K(7) == 0xab1c5ed5
  {
  }

  lemma KRow1()
    ensures K(8) == 0xd807aa98 && K(9) == 0x12835b01 && K(10) == 0x243185be && K(11) == 0x550c7dc3
    ensures K(12) == 0x72be5d74 && K(13) == 0x80deb1fe && K(14) == 0x9bdc06a7 && K(15) == 0xc19bf174
  {
  }

  lemma KRow2()
    ensures K(16) == 0xe49b69c1 && K(17) == 0xefbe4786 && K(18) == 0x0fc19dc6 && K(19) == 0x240ca1cc
    ensures K(20) == 0x2de92c6f && K(21) == 0x4a7484aa && K(22) == 0x5cb0a9dc && K(23) == 0x76f988da
  {
  }

  lemma KRow3()
    ensures K(24) == 0x983e5152 && K(25) == 0xa831c66d && K(26) == 0xb00327c8 && K(27) == 0xbf597fc7
    ensures K(28) == 0xc6e00bf3 && K(29) == 0xd5a79147 && K(30) == 0x06ca6351 && K(31) == 0x14292967
  {
  }

  lemma KRow4()
    ensures K(32) == 0x27b70a85 && K(33) == 0x2e1b2138 && K(34) == 0x4d2c6dfc && K(35) == 0x53380d13
    ensures K(36) == 0x650a7354 && K(37) == 0x766a0abb && K(38) == 0x81c2c92e && K(39) == 0x92722c85
  {
  }

  lemma KRow5()
    ensures K(40) == 0xa2bfe8a1 && K(41) == 0xa81a664b && K(42) == 0xc24b8b70 && K(43) == 0xc76c51a3
    ensures K(44) == 0xd192e819 && K(45) == 0xd6990624 && K(46) == 0xf40e3585 && K(47) == 0x106aa070
  {
  }

  lemma KRow6()
    ensures K(48) == 0x19a4c116 && K(49) == 0x1e376c08 && K(50) == 0x2748774c && K(51) == 0x34b0bcb5
    ensures K(52) == 0x391c0cb3 && K(53) == 0x4ed8aa4a && K(54) == 0x5b9cca4f && K(55) == 0x682e6ff3
  {
  }

  lemma KRow7()
    ensures K(56) == 0x748f82ee && K(57) == 0x78a5636f && K(58) == 0x84c87814 && K(59) == 0x8cc70208
    ensures K(60) == 0x90befffa && K(61) == 0xa4506ceb && K(62) == 0xbef9a3f7 && K(63) == 0xc67178f2
  {
  }

  lemma NoRounds(m: Block)
    ensures Rounds(H0(), m, 0) == Regs(0x6a09e667, 0xbb67ae85, 0x3c6ef372, 0xa54ff53a,
                                       0x510e527f, 0x9b05688c, 0x1f83d9ab, 0x5be0cd19)
  {
  }

  lemma Rounds8(m: Block)
    requires IsAbc(m)
    ensures Rounds(H0(), m, 8) == Regs(0x85a07b5f, 0xe5030380, 0x2b4209f5, 0x04409a6a,
                                       0x0c657a79, 0x9b27a401, 0x714260ad, 0x43ada245)
  {
    hide Rounds, IsAbc, H0, K, Sched, Regs;
    NoRounds(m);
    KRow0();
    Schedule16(m);
    Step(m, 0, 0x6a09e667, 0xbb67ae85, 0x3c6ef372, 0xa54ff53a, 0x510e527f, 0x9b05688c, 0x1f83d9ab, 0x5be0cd19,
         0x428a2f98, 0x61626380, 0x5d6aebcd, 0xfa2a4622);
    Step(m, 1, 0x5d6aebcd, 0x6a09e667, 0xbb67ae85, 0x3c6ef372, 0xfa2a4622, 0x510e527f, 0x9b05688c, 0x1f83d9ab,
         0x71374491, 0, 0x5a6ad9ad, 0x78ce7989);
    Step(m, 2, 0x5a6ad9ad, 0x5d6aebcd, 0x6a09e667, 0xbb67ae85, 0x78ce7989, 0xfa2a4622, 0x510e527f, 0x9b05688c,
         0xb5c0fbcf, 0, 0xc8c347a7, 0xf92939eb);
    Step(m, 3, 0xc8c347a7, 0x5a6ad9ad, 0x5d6aebcd, 0x6a09e667, 0xf92939eb, 0x78ce7989, 0xfa2a4622, 0x510e527f,
         0xe9b5dba5, 0, 0xd550f666, 0x24e00850);
    Step(m, 4, 0xd550f666, 0xc8c347a7, 0x5a6ad9ad, 0x5d6aebcd, 0x24e00850, 0xf92939eb, 0x78ce7989, 0xfa2a4622,
         0x3956c25b, 0, 0x04409a6a, 0x43ada245);
    Step(m, 5, 0x04409a6a, 0xd550f666, 0xc8c347a7, 0x5a6ad9ad, 0x43ada245, 0x24e00850, 0xf92939eb, 0x78ce7989,
         0x59f111f1, 0, 0x2b4209f5, 0x714260ad);
    Step(m, 6, 0x2b4209f5, 0x04409a6a, 0xd550f666, 0xc8c347a7, 0x714260ad, 0x43ada245, 0x24e00850, 0xf92939eb,
         0x923f82a4, 0, 0xe5030380, 0x9b27a401);
    Step(m, 7, 0xe5030380, 0x2b4209f5, 0x04409a6a, 0xd550f666, 0x9b27a401, 0x714260ad, 0x43ada245, 0x24e00850,
         0xab1c5ed5, 0, 0x85a07b5f, 0x0c657a79);
  }

  lemma Rounds16(m: Block)
    requires IsAbc(m)
    ensures Rounds(H0(), m, 16) == Regs(0xb0fa238e, 0xc0645fde, 0xd932eb16, 0x87912990,
                                        0x07590dcd, 0x0b92f20c, 0x745a48de, 0x1e578218)
  {
    hide Rounds, IsAbc, H0, K, Sched, Regs;
    Rounds8(m);
    KRow1();
    Schedule16(m);
    Step(m, 8, 0x85a07b5f, 0xe5030380, 0x2b4209f5, 0x04409a6a, 0x0c657a79, 0x9b27a401, 0x714260ad, 0x43ada245,
         0xd807aa98, 0, 0x8e04ecb9, 0x32ca2d8c);
    Step(m, 9, 0x8e04ecb9, 0x85a07b5f, 0xe5030380, 0x2b4209f5, 0x32ca2d8c, 0x0c657a79, 0x9b27a401, 0x714260ad,
         0x12835b01, 0, 0x8c87346b, 0x1cc92596);
    Step(m, 10, 0x8c87346b, 0x8e04ecb9, 0x85a07b5f, 0xe5030380, 0x1cc92596, 0x32ca2d8c, 0x0c657a79, 0x9b27a401,
         0x243185be, 0, 0x4798a3f4, 0x436b23e8);
    Step(m, 11, 0x4798a3f4, 0x8c87346b, 0x8e04ecb9, 0x85a07b5f, 0x436b23e8, 0x1cc92596, 0x32ca2d8c, 0x0c657a79,
         0x550c7dc3, 0, 0xf71fc5a9, 0x816fd6e9);
    Step(m, 12, 0xf71fc5a9, 0x4798a3f4, 0x8c87346b, 0x8e04ecb9, 0x816fd6e9, 0x436b23e8, 0x1cc92596, 0x32ca2d8c,
         0x72be5d74, 0, 0x87912990, 0x1e578218);
    Step(m, 13, 0x87912990, 0xf71fc5a9, 0x4798a3f4, 0x8c87346b, 0x1e578218, 0x816fd6e9, 0x436b23e8, 0x1cc92596,
         0x80deb1fe, 0, 0xd932eb16, 0x745a48de);
    Step(m, 14, 0xd932eb16, 0x87912990, 0xf71fc5a9, 0x4798a3f4, 0x745a48de, 0x1e578218, 0x816fd6e9, 0x436b23e8,
         0x9bdc06a7, 0, 0xc0645fde, 0x0b92f20c);
    Step(m, 15, 0xc0645fde, 0xd932eb16, 0x87912990, 0xf71fc5a9, 0x0b92f20c, 0x745a48de, 0x1e578218, 0x816fd6e9,
         0xc19bf174, 0x00000018, 0xb0fa238e, 0x07590dcd);
  }

  lemma Rounds24(m: Block)
    requires IsAbc(m)
    ensures Rounds(H0(), m, 24) == Regs(0xc5d53d8d, 0xa7a3623f, 0xc2606d6d, 0x9dc68b63,
                                        0xaa47c347, 0x49f5114a, 0xe1257970, 0x8ada8930)
  {
    hide Rounds, IsAbc, H0, K, Sched, Regs;
    Rounds16(m);
    KRow2();
    Schedule24(m);
    Step(m, 16, 0xb0fa238e, 0xc0645fde, 0xd932eb16, 0x87912990, 0x07590dcd, 0x0b92f20c, 0x745a48de, 0x1e578218,
         0xe49b69c1, 0x61626380, 0x21da9a9b, 0x8034229c);
    Step(m, 17, 0x21da9a9b, 0xb0fa238e, 0xc0645fde, 0xd932eb16, 0x8034229c, 0x07590dcd, 0x0b92f20c, 0x745a48de,
         0xefbe4786, 0x000f0000, 0xc2fbd9d1, 0x846ee454);
    Step(m, 18, 0xc2fbd9d1, 0x21da9a9b, 0xb0fa238e, 0xc0645fde, 0x846ee454, 0x8034229c, 0x07590dcd, 0x0b92f20c,
         0x0fc19dc6, 0x7da86405, 0xfe777bbf, 0xcc899961);
    Step(m, 19, 0xfe777bbf, 0xc2fbd9d1, 0x21da9a9b, 0xb0fa238e, 0xcc899961, 0x846ee454, 0x8034229c, 0x07590dcd,
         0x240ca1cc, 0x600003c6, 0xe1f20c33, 0xb0638179);
    Step(m, 20, 0xe1f20c33, 0xfe777bbf, 0xc2fbd9d1, 0x21da9a9b, 0xb0638179, 0xcc899961, 0x846ee454, 0x8034229c,
         0x2de92c6f, 0x3e9d7b78, 0x9dc68b63, 0x8ada8930);
    Step(m, 21, 0x9dc68b63, 0xe1f20c33, 0xfe777bbf, 0xc2fbd9d1, 0x8ada8930, 0xb0638179, 0xcc899961, 0x846ee454,
         0x4a7484aa, 0x0183fc00, 0xc2606d6d, 0xe1257970);
    Step(m, 22, 0xc2606d6d, 0x9dc68b63, 0xe1f20c33, 0xfe777bbf, 0xe1257970, 0x8ada8930, 0xb0638179, 0xcc899961,
         0x5cb0a9dc, 0x12dcbfdb, 0xa7a3623f, 0x49f5114a);
    Step(m, 23, 0xa7a3623f, 0xc2606d6d, 0x9dc68b63, 0xe1f20c33, 0x49f5114a, 0xe1257970, 0x8ada8930, 0xb0638179,
         0x76f988da, 0xe2e2c38e, 0xc5d53d8d, 0xaa47c347);
  }

  lemma Rounds32(m: Block)
    requires IsAbc(m)
    ensures Rounds(H0(), m, 32) == Regs(0x73b33bf5, 0xea992a22, 0xa0060b30, 0x363482c9,
                                        0xba591112, 0x0109ab3a, 0xade79437, 0x6112a3b7)
  {
    hide Rounds, IsAbc, H0, K, Sched, Regs;
    Rounds24(m);
    KRow3();
    Schedule32(m);
    Step(m, 24, 0xc5d53d8d, 0xa7a3623f, 0xc2606d6d, 0x9dc68b63, 0xaa47c347, 0x49f5114a, 0xe1257970, 0x8ada8930,
         0x983e5152, 0xc8215c1a, 0x1c2c2838, 0x2823ef91);
    Step(m, 25, 0x1c2c2838, 0xc5d53d8d, 0xa7a3623f, 0xc2606d6d, 0x2823ef91, 0xaa47c347, 0x49f5114a, 0xe1257970,
         0xa831c66d, 0xb73679a2, 0xcde8037d, 0x14383d8e);
    Step(m, 26, 0xcde8037d, 0x1c2c2838, 0xc5d53d8d, 0xa7a3623f, 0x14383d8e, 0x2823ef91, 0xaa47c347, 0x49f5114a,
         0xb00327c8, 0xe5bc3909, 0xb62ec4bc, 0xc74c6516);
    Step(m, 27, 0xb62ec4bc, 0xcde8037d, 0x1c2c2838, 0xc5d53d8d, 0xc74c6516, 0x14383d8e, 0x2823ef91, 0xaa47c347,
         0xbf597fc7, 0x32663c5b, 0x77d37528, 0xedffbff8);
    Step(m, 28, 0x77d37528, 0xb62ec4bc, 0xcde8037d, 0x1c2c2838, 0xedffbff8, 0xc74c6516, 0x14383d8e, 0x2823ef91,
         0xc6e00bf3, 0x9d209d67, 0x363482c9, 0x6112a3b7);
    Step(m, 29, 0x363482c9, 0x77d37528, 0xb62ec4bc, 0xcde8037d, 0x6112a3b7, 0xedffbff8, 0xc74c6516, 0x14383d8e,
         0xd5a79147, 0xec8726cb, 0xa0060b30, 0xade79437);
    Step(m, 30, 0xa0060b30, 0x363482c9, 0x77d37528, 0xb62ec4bc, 0xade79437, 0x6112a3b7, 0xedffbff8, 0xc74c6516,
         0x06ca6351, 0x702138a4, 0xea992a22, 0x0109ab3a);
    Step(m, 31, 0xea992a22, 0xa0060b30, 0x363482c9, 0x77d37528, 0x0109ab3a, 0xade79437, 0x6112a3b7, 0xedffbff8,
         0x14292967, 0xd3b7973b, 0x73b33bf5, 0xba591112);
  }

  lemma Rounds40(m: Block)
    requires IsAbc(m)
    ensures Rounds(H0(), m, 40) == Regs(0x79ea687a, 0x6dc57a8a, 0x34df1604, 0x41a65cb1,
                                        0x1efbc0a0, 0xf0781bc8, 0xa507a53d, 0x0772a26b)
  {
    hide Rounds, IsAbc, H0, K, Sched, Regs;
    Rounds32(m);
    KRow4();
    Schedule40(m);
    Step(m, 32, 0x73b33bf5, 0xea992a22, 0xa0060b30, 0x363482c9, 0xba591112, 0x0109ab3a, 0xade79437, 0x6112a3b7,
         0x27b70a85, 0x93f5997f, 0x98e12507, 0x9cd9f5f6);
    Step(m, 33, 0x98e12507, 0x73b33bf5, 0xea992a22, 0xa0060b30, 0x9cd9f5f6, 0xba591112, 0x0109ab3a, 0xade79437,
         0x2e1b2138, 0x3b68ba73, 0xfe604df5, 0x59249dd3);
    Step(m, 34, 0xfe604df5, 0x98e12507, 0x73b33bf5, 0xea992a22, 0x59249dd3, 0x9cd9f5f6, 0xba591112, 0x0109ab3a,
         0x4d2c6dfc, 0xaff4ffc1, 0xa9a7738c, 0x085f3833);
    Step(m, 35, 0xa9a7738c, 0xfe604df5, 0x98e12507, 0x73b33bf5, 0x085f3833, 0x59249dd3, 0x9cd9f5f6, 0xba591112,
         0x53380d13, 0xf10a5c62, 0x65a0cfe4, 0xf4b002d6);
    Step(m, 36, 0x65a0cfe4, 0xa9a7738c, 0xfe604df5, 0x98e12507, 0xf4b002d6, 0x085f3833, 0x59249dd3, 0x9cd9f5f6,
         0x650a7354, 0x0a8b3996, 0x41a65cb1, 0x0772a26b);
    Step(m, 37, 0x41a65cb1, 0x65a0cfe4, 0xa9a7738c, 0xfe604df5, 0x0772a26b, 0xf4b002d6, 0x085f3833, 0x59249dd3,
         0x766a0abb, 0x72af830a, 0x34df1604, 0xa507a53d);
    Step(m, 38, 0x34df1604, 0x41a65cb1, 0x65a0cfe4, 0xa9a7738c, 0xa507a53d, 0x0772a26b, 0xf4b002d6, 0x085f3833,
         0x81c2c92e, 0x9409e33e, 0x6dc57a8a, 0xf0781bc8);
    Step(m, 39, 0x6dc57a8a, 0x34df1604, 0x41a65cb1, 0x65a0cfe4, 0xf0781bc8, 0xa507a53d, 0x0772a26b, 0xf4b002d6,
         0x92722c85, 0x24641522, 0x79ea687a, 0x1efbc0a0);
  }

  lemma Rounds48(m: Block)
    requires IsAbc(m)
    ensures Rounds(H0(), m, 48) == Regs(0x4172328d, 0xa14c14b0, 0x72ab4b91, 0x26628815,
                                        0xfecf0bc6, 0xd57b94a9, 0xb7755da1, 0xa80f11f0)
  {
    hide Rounds, IsAbc, H0, K, Sched, Regs;
    Rounds40(m);
    KRow5();
    Schedule48(m);
    Step(m, 40, 0x79ea687a, 0x6dc57a8a, 0x34df1604, 0x41a65cb1, 0x1efbc0a0, 0xf0781bc8, 0xa507a53d, 0x0772a26b,
         0xa2bfe8a1, 0x9f47bf94, 0xd6670766, 0x26352d63);
    Step(m, 41, 0xd6670766, 0x79ea687a, 0x6dc57a8a, 0x34df1604, 0x26352d63, 0x1efbc0a0, 0xf0781bc8, 0xa507a53d,
         0xa81a664b, 0xf0a64f5a, 0xdf46652f, 0x838b2711);
    Step(m, 42, 0xdf46652f, 0xd6670766, 0x79ea687a, 0x6dc57a8a, 0x838b2711, 0x26352d63, 0x1efbc0a0, 0xf0781bc8,
         0xc24b8b70, 0x3e246a79, 0x17aa0dfe, 0xdecd4715);
    Step(m, 43, 0x17aa0dfe, 0xdf46652f, 0xd6670766, 0x79ea687a, 0xdecd4715, 0x838b2711, 0x26352d63, 0x1efbc0a0,
         0xc76c51a3, 0x27333ba3, 0x9d4baf93, 0xfda24c2e);
    Step(m, 44, 0x9d4baf93, 0x17aa0dfe, 0xdf46652f, 0xd6670766, 0xfda24c2e, 0xdecd4715, 0x838b2711, 0x26352d63,
         0xd192e819, 0x0c4763f2, 0x26628815, 0xa80f11f0);
    Step(m, 45, 0x26628815, 0x9d4baf93, 0x17aa0dfe, 0xdf46652f, 0xa80f11f0, 0xfda24c2e, 0xdecd4715, 0x838b2711,
         0xd6990624, 0x840abf27, 0x72ab4b91, 0xb7755da1);
    Step(m, 46, 0x72ab4b91, 0x26628815, 0x9d4baf93, 0x17aa0dfe, 0xb7755da1, 0xa80f11f0, 0xfda24c2e, 0xdecd4715,
         0xf40e3585, 0x7a290d5d, 0xa14c14b0, 0xd57b94a9);
    Step(m, 47, 0xa14c14b0, 0x72ab4b91, 0x26628815, 0x9d4baf93, 0xd57b94a9, 0xb7755da1, 0xa80f11f0, 0xfda24c2e,
         0x106aa070, 0x065c43da, 0x4172328d, 0xfecf0bc6);
  }

  lemma Rounds56(m: Block)
    requires IsAbc(m)
    ensures Rounds(H0(), m, 56) == Regs(0x38cc9913, 0x3ec45cdb, 0xf5702fdb, 0x101fd28f,
                                        0x54cb266b, 0xe50e1b4f, 0x9f4787c3, 0x529e7d00)
  {
    hide Rounds, IsAbc, H0, K, Sched, Regs;
    Rounds48(m);
    KRow6();
    Schedule56(m);
    Step(m, 48, 0x4172328d, 0xa14c14b0, 0x72ab4b91, 0x26628815, 0xfecf0bc6, 0xd57b94a9, 0xb7755da1, 0xa80f11f0,
         0x19a4c116, 0xfb3e89cb, 0x05757ceb, 0xbd714038);
    Step(m, 49, 0x05757ceb, 0x4172328d, 0xa14c14b0, 0x72ab4b91, 0xbd714038, 0xfecf0bc6, 0xd57b94a9, 0xb7755da1,
         0x1e376c08, 0xcc7617db, 0xf11bfaa8, 0x6e5c390c);
    Step(m, 50, 0xf11bfaa8, 0x05757ceb, 0x4172328d, 0xa14c14b0, 0x6e5c390c, 0xbd714038, 0xfecf0bc6, 0xd57b94a9,
         0x2748774c, 0xb9e66c34, 0x7a0508a1, 0x52f1ccf7);
    Step(m, 51, 0x7a0508a1, 0xf11bfaa8, 0x05757ceb, 0x4172328d, 0x52f1ccf7, 0x6e5c390c, 0xbd714038, 0xfecf0bc6,
         0x34b0bcb5, 0xa9993667, 0x886e7a22, 0x49231c1e);
    Step(m, 52, 0x886e7a22, 0x7a0508a1, 0xf11bfaa8, 0x05757ceb, 0x49231c1e, 0x52f1ccf7, 0x6e5c390c, 0xbd714038,
         0x391c0cb3, 0x84badedd, 0x101fd28f, 0x529e7d00);
    Step(m, 53, 0x101fd28f, 0x886e7a22, 0x7a0508a1, 0xf11bfaa8, 0x529e7d00, 0x49231c1e, 0x52f1ccf7, 0x6e5c390c,
         0x4ed8aa4a, 0xc21462bc, 0xf5702fdb, 0x9f4787c3);
    Step(m, 54, 0xf5702fdb, 0x101fd28f, 0x886e7a22, 0x7a0508a1, 0x9f4787c3, 0x529e7d00, 0x49231c1e, 0x52f1ccf7,
         0x5b9cca4f, 0x1487472c, 0x3ec45cdb, 0xe50e1b4f);
    Step(m, 55, 0x3ec45cdb, 0xf5702fdb, 0x101fd28f, 0x886e7a22, 0xe50e1b4f, 0x9f4787c3, 0x529e7d00, 0x49231c1e,
         0x682e6ff3, 0xb20f7a99, 0x38cc9913, 0x54cb266b);
  }

  lemma Rounds64(m: Block)
    requires IsAbc(m)
    ensures Rounds(H0(), m, 64) == Regs(0x506e3058, 0xd39a2165, 0x04d24d6c, 0xb85e2ce9,
                                        0x5ef50f24, 0xfb121210, 0x948d25b6, 0x961f4894)
  {
    hide Rounds, IsAbc, H0, K, Sched, Regs;
    Rounds56(m);
    KRow7();
    Schedule64(m);
    Step(m, 56, 0x38cc9913, 0x3ec45cdb, 0xf5702fdb, 0x101fd28f, 0x54cb266b, 0xe50e1b4f, 0x9f4787c3, 0x529e7d00,
         0x748f82ee, 0xef57b9cd, 0xfcd1887b, 0x9b5e906c);
    Step(m, 57, 0xfcd1887b, 0x38cc9913, 0x3ec45cdb, 0xf5702fdb, 0x9b5e906c, 0x54cb266b, 0xe50e1b4f, 0x9f4787c3,
         0x78a5636f, 0xebe6b238, 0xc062d46f, 0x7e44008e);
    Step(m, 58, 0xc062d46f, 0xfcd1887b, 0x38cc9913, 0x3ec45cdb, 0x7e44008e, 0x9b5e906c, 0x54cb266b, 0xe50e1b4f,
         0x84c87814, 0x9fe3095e, 0xffb70472, 0x6d83bfc6);
    Step(m, 59, 0xffb70472, 0xc062d46f, 0xfcd1887b, 0x38cc9913, 0x6d83bfc6, 0x7e44008e, 0x9b5e906c, 0x54cb266b,
         0x8cc70208, 0x78bc8d4b, 0xb6ae8fff, 0xb21bad3d);
    Step(m, 60, 0xb6ae8fff, 0xffb70472, 0xc062d46f, 0xfcd1887b, 0xb21bad3d, 0x6d83bfc6, 0x7e44008e, 0x9b5e906c,
         0x90befffa, 0xa43fcf15, 0xb85e2ce9, 0x961f4894);
    Step(m, 61, 0xb85e2ce9, 0xb6ae8fff, 0xffb70472, 0xc062d46f, 0x961f4894, 0xb21bad3d, 0x6d83bfc6, 0x7e44008e,
         0xa4506ceb, 0x668b2ff8, 0x04d24d6c, 0x948d25b6);
    Step(m, 62, 0x04d24d6c, 0xb85e2ce9, 0xb6ae8fff, 0xffb70472, 0x948d25b6, 0x961f4894, 0xb21bad3d, 0x6d83bfc6,
         0xbef9a3f7, 0xeeaba2cc, 0xd39a2165, 0xfb121210);
    Step(m, 63, 0xd39a2165, 0x04d24d6c, 0xb85e2ce9, 0xb6ae8fff, 0xfb121210, 0x948d25b6, 0x961f4894, 0xb21bad3d,
         0xc67178f2, 0x12b1edeb, 0x506e3058, 0x5ef50f24);
  }

  // ----- the digest -----

  lemma AbcPadded()
    ensures Pad([0x61, 0x62, 0x63]) == [0x61, 0x62, 0x63, 0x80] + Zeros(59) + [0x18]
  {
  }

  lemma AbcBlock(p: seq<byte>)
    requires p == [0x61, 0x62, 0x63, 0x80] + Zeros(59) + [0x18]
    ensures |p| == 64 && IsAbc(BlockWords(p))
  {
  }

  lemma AbcState(m: Block)
    requires IsAbc(m)
    ensures Compress(H0(), m) == Regs(0xba7816bf, 0x8f01cfea, 0x414140de, 0x5dae2223,
                                      0xb00361a3, 0x96177a9c, 0xb410ff61, 0xf20015ad)
  {
    hide Rounds, IsAbc;
    Rounds64(m);
  }

  lemma OneBlock(p: seq<byte>)
    requires |p| == 64
    ensures CompressBlocks(H0(), p, 1) == Compress(H0(), BlockWords(p))
  {
    hide Compress, H0, BlockWords;
    assert p[0..64] == p && CompressBlocks(H0(), p, 0) == H0();
  }

  lemma DigestBytes(s: State)
    requires s == Regs(0xba7816bf, 0x8f01cfea, 0x414140de, 0x5dae2223,
                       0xb00361a3, 0x96177a9c, 0xb410ff61, 0xf20015ad)
    ensures StateBytes(s) ==
            [0xba, 0x78, 0x16, 0xbf] + [0x8f, 0x01, 0xcf, 0xea] + [0x41, 0x41, 0x40, 0xde] + [0x5d, 0xae, 0x22, 0x23]
            + [0xb0, 0x03, 0x61, 0xa3] + [0x96, 0x17, 0x7a, 0x9c] + [0xb4, 0x10, 0xff, 0x61] + [0xf2, 0x00, 0x15, 0xad]
  {
    hide StateBytes, BE32Enc;
    ByteValues();
    var b := StateBytes(s);
    StateBytesAt(s, 0); StateBytesAt(s, 1); StateBytesAt(s, 2); StateBytesAt(s, 3);
    StateBytesAt(s, 4); StateBytesAt(s, 5); StateBytesAt(s, 6); StateBytesAt(s, 7);
    assert b == b[0..4] + b[4..8] + b[8..12] + b[12..16] + b[16..20] + b[20..24] + b[24..28] + b[28..32];
  }

  lemma ByteValues()
    ensures BE32Enc(0xba7816bf) == [0xba, 0x78, 0x16, 0xbf] && BE32Enc(0x8f01cfea) == [0x8f, 0x01, 0xcf, 0xea]
    ensures BE32Enc(0x414140de) == [0x41, 0x41, 0x40, 0xde] && BE32Enc(0x5dae2223) == [0x5d, 0xae, 0x22, 0x23]
    ensures BE32Enc(0xb00361a3) == [0xb0, 0x03, 0x61, 0xa3] && BE32Enc(0x96177a9c) == [0x96, 0x17, 0x7a, 0x9c]
    ensures BE32Enc(0xb410ff61) == [0xb4, 0x10, 0xff, 0x61] && BE32Enc(0xf20015ad) == [0xf2, 0x00, 0x15, 0xad]
  {
  }

  /** SHA-256 of "abc". */
  lemma AbcDigest()
    ensures Sha256([0x61, 0x62, 0x63]) ==
            [0xba, 0x78, 0x16, 0xbf] + [0x8f, 0x01, 0xcf, 0xea] + [0x41, 0x41, 0x40, 0xde] + [0x5d, 0xae, 0x22, 0x23]
            + [0xb0, 0x03, 0x61, 0xa3] + [0x96, 0x17, 0x7a, 0x9c] + [0xb4, 0x10, 0xff, 0x61] + [0xf2, 0x00, 0x15, 0xad]
  {
    hide Compress, H0, IsAbc, BlockWords, Pad, CompressBlocks, StateBytes, Regs;
    var p := Pad([0x61, 0x62, 0x63]);
    AbcPadded();
    AbcBlock(p);
    OneBlock(p);
    AbcState(BlockWords(p));
    DigestBytes(Compress(H0(), BlockWords(p)));
  }
}
