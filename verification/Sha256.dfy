/** sha2.c, portable path: the block transform and the double hash over byte buffers. */
module Sha256Code {
  import opened Words
  import opened Sha256Spec

  // ----- the macros of sha2.c lines 54 to 60 -----

  /** The C macros Ch and Maj, which compute the standard's functions with fewer operations. */
  function ChMacro(x: word, y: word, z: word): word {
    var a, b, c := x as bv32, y as bv32, z as bv32;
    ((a & (b ^ c)) ^ c) as word
  }

  function MajMacro(x: word, y: word, z: word): word {
    var a, b, c := x as bv32, y as bv32, z as bv32;
    ((a & (b | c)) | (b & c)) as word
  }

  lemma AndDistributesOverXor(x: bv32, y: bv32, z: bv32)
    ensures x & (y ^ z) == (x & y) ^ (x & z)
  {
  }

  lemma XorCancelsMask(x: bv32, z: bv32)
    ensures (x & z) ^ z == !x & z
  {
  }

  lemma XorAssociative(x: bv32, y: bv32, z: bv32)
    ensures (x ^ y) ^ z == x ^ (y ^ z)
  {
  }

  lemma ChMacroIsCh(x: word, y: word, z: word)
    ensures ChMacro(x, y, z) == Ch(x, y, z)
  {
    var a, b, c := x as bv32, y as bv32, z as bv32;
    AndDistributesOverXor(a, b, c);
    XorCancelsMask(a, c);
    XorAssociative(a & b, a & c, c);
  }

  lemma MajAgrees(a: bv32, b: bv32, c: bv32)
    ensures ((a & (b | c)) | (b & c)) == (a & b) ^ (a & c) ^ (b & c)
  {
  }

  lemma MajMacroIsMaj(x: word, y: word, z: word)
    ensures MajMacro(x, y, z) == Maj(x, y, z)
  {
    MajAgrees(x as bv32, y as bv32, z as bv32);
  }

  // ----- rounds on a rotating state -----

  /** The slot of the state array that plays working variable `j` (0 for a, 7 for h) in round `i`. */
  function Slot(i: nat, j: nat): (k: nat)
    requires i <= 64 && j < 8
    ensures k < 8
  {
    (64 - i + j) % 8
  }

  lemma SlotsDiffer(i: nat, j: nat, k: nat)
    requires i <= 64 && j < 8 && k < 8 && j != k
    ensures Slot(i, j) != Slot(i, k)
  {
  }

  /** Between rounds every name moves one slot down: the old g becomes h, and h becomes a. */
  lemma SlotNext(i: nat, j: nat)
    requires i < 64 && j < 8
    ensures Slot(i + 1, j) == if j == 0 then Slot(i, 7) else Slot(i, j - 1)
  {
  }

  /** The working variables a..h as round `i` finds them: the code renames instead of moving them. */
  function View(s: seq<word>, i: nat): State
    requires |s| >= 8 && i <= 64
  {
    [s[Slot(i, 0)], s[Slot(i, 1)], s[Slot(i, 2)], s[Slot(i, 3)],
     s[Slot(i, 4)], s[Slot(i, 5)], s[Slot(i, 6)], s[Slot(i, 7)]]
  }

  lemma ViewAligned(s: seq<word>)
    requires |s| >= 8
    ensures View(s, 0) == s[..8] && View(s, 64) == s[..8]
  {
  }

  /** Two slots written, and the renaming of all eight. */
  lemma ViewStep(s: seq<word>, i: nat, d: word, h: word)
    requires |s| >= 8 && i < 64
    ensures var v := View(s, i);
            View(s[Slot(i, 3) := d][Slot(i, 7) := h], i + 1) == [h, v[0], v[1], v[2], d, v[4], v[5], v[6]]
  {
    hide Slot;
    SlotNext(i, 0); SlotNext(i, 1); SlotNext(i, 2); SlotNext(i, 3);
    SlotNext(i, 4); SlotNext(i, 5); SlotNext(i, 6); SlotNext(i, 7);
    forall j, k | 0 <= j < 8 && 0 <= k < 8 && j != k ensures Slot(i, j) != Slot(i, k) {
      SlotsDiffer(i, j, k);
    }
  }

  /** A round, as the macros compute it. */
  lemma RoundByMacros(v: State, k: int, w: int)
    ensures var t0 := W32(v[7] + BigSigma1(v[4]) + ChMacro(v[4], v[5], v[6]) + (w + k));
            var t1 := W32(BigSigma0(v[0]) + MajMacro(v[0], v[1], v[2]));
            Round(v, k + w) == [Add(t0, t1), v[0], v[1], v[2], Add(v[3], t0), v[4], v[5], v[6]]
  {
    hide BigSigma0, BigSigma1, Ch, Maj, ChMacro, MajMacro, W32, Add;
    ChMacroIsCh(v[4], v[5], v[6]);
    MajMacroIsMaj(v[0], v[1], v[2]);
  }

  lemma ViewAt(s: seq<word>, i: nat, j: nat)
    requires |s| >= 8 && i <= 64 && j < 8
    ensures View(s, i)[j] == s[Slot(i, j)]
  {
    hide Slot;
  }

  /** RNDr: one round in place, on the slots that play a..h in round `i`. */
  method RNDr(S: array<word>, W: array<word>, off: nat, i: nat)
    requires S.Length >= 8 && i < 64 && off + i < W.Length && S != W
    modifies S
    ensures View(S[..], i + 1) == Round(View(old(S[..]), i), K(i) + W[off + i])
    ensures S[8..] == old(S[8..])
  {
    hide BigSigma0, BigSigma1, Ch, Maj, K, ChMacro, MajMacro, Slot, View, Round, W32, Add;
    var a, b, c, d := Slot(i, 0), Slot(i, 1), Slot(i, 2), Slot(i, 3);
    var e, f, g, h := Slot(i, 4), Slot(i, 5), Slot(i, 6), Slot(i, 7);
    ghost var s: seq<word> := S[..];
    ghost var v := View(s, i);
    ViewAt(s, i, 0); ViewAt(s, i, 1); ViewAt(s, i, 2); ViewAt(s, i, 3);
    ViewAt(s, i, 4); ViewAt(s, i, 5); ViewAt(s, i, 6); ViewAt(s, i, 7);
    SlotsDiffer(i, 3, 7);
    var t0 := W32(S[h] + BigSigma1(S[e]) + ChMacro(S[e], S[f], S[g]) + (W[off + i] + K(i)));
    var t1 := W32(BigSigma0(S[a]) + MajMacro(S[a], S[b], S[c]));
    RoundByMacros(v, K(i), W[off + i]);
    var nd: word, nh: word := Add(S[d], t0), Add(t0, t1);
    S[d] := nd;
    S[h] := nh;
    ViewStep(s, i, nd, nh);
    assert S[..] == s[d := nd][h := nh];
  }

  /** A run of consecutive RNDr lines. The block `m` and the start `s0` say what the run means. */
  method MixRounds(S: array<word>, W: array<word>, from: nat, to: nat, ghost s0: State, ghost m: Block)
    requires S.Length >= 8 && from <= to <= 64 && to <= W.Length && S != W
    requires View(S[..], from) == Rounds(s0, m, from)
    requires forall t | from <= t < to :: W[t] == Sched(m, t)
    modifies S
    ensures View(S[..], to) == Rounds(s0, m, to)
    ensures S[8..] == old(S[8..])
  {
    hide View, Round, Sched, K;
    for i := from to to
      invariant View(S[..], i) == Rounds(s0, m, i)
      invariant S[8..] == old(S[8..])
    {
      RNDr(S, W, 0, i);
    }
  }

  /** The tail of the message schedule loop, which fills W[from..64] two words a turn. */
  method ExtendSchedule(W: array<word>, from: nat, to: nat, ghost m: Block)
    requires 16 <= from <= to <= W.Length && (to - from) % 2 == 0
    requires forall t | from - 16 <= t < from :: W[t] == Sched(m, t)
    modifies W
    ensures forall t | from - 16 <= t < to :: W[t] == Sched(m, t)
    ensures forall t | 0 <= t < from || to <= t < W.Length :: W[t] == old(W[t])
  {
    hide Extend, Sched;
    var i := from;
    while i < to
      invariant from <= i <= to && (to - i) % 2 == 0
      invariant forall t | from - 16 <= t < i :: W[t] == Sched(m, t)
      invariant forall t | 0 <= t < from || to <= t < W.Length :: W[t] == old(W[t])
    {
      SchedStep(m, i);
      SchedStep(m, i + 1);
      W[i] := Extend(W[i - 2], W[i - 7], W[i - 15], W[i - 16]);
      W[i + 1] := Extend(W[i - 1], W[i - 6], W[i - 14], W[i - 15]);
      i := i + 2;
    }
  }

  lemma SchedStep(m: Block, t: nat)
    requires t >= 16
    ensures Sched(m, t) == Extend(Sched(m, t - 2), Sched(m, t - 7), Sched(m, t - 15), Sched(m, t - 16))
  {
    hide Extend;
  }

  function LoadWord(w: word, swap: bool): word {
    if swap then Swab32(w) else w
  }

  /** The sixteen words at `off`, each byte-swapped when `swap` is set. */
  function LoadBlock(block: seq<word>, off: nat, swap: bool): Block
    requires off + 16 <= |block|
  {
    var b := block[off..off + 16];
    seq(16, i requires 0 <= i < 16 => LoadWord(b[i], swap))
  }

  /** Step 1 of the transform: the whole message schedule. */
  method PrepareSchedule(W: array<word>, block: array<word>, off: nat, swap: bool)
    requires W.Length == 64 && off + 16 <= block.Length && W != block
    modifies W
    ensures forall t | 0 <= t < 64 :: W[t] == Sched(LoadBlock(block[..], off, swap), t)
  {
    hide LoadWord, Extend;
    ghost var m := LoadBlock(block[..], off, swap);
    for i := 0 to 16
      invariant forall t | 0 <= t < i :: W[t] == m[t]
    {
      W[i] := LoadWord(block[off + i], swap);
    }
    ExtendSchedule(W, 16, 64, m);
  }

  /** The copy of eight words that memcpy(dst, src, 32) makes. */
  method CopyState(dst: array<word>, src: array<word>)
    requires dst.Length >= 8 && src.Length >= 8 && dst != src
    modifies dst
    ensures dst[..8] == src[..8]
    ensures dst[8..] == old(dst[8..])
  {
    for i := 0 to 8
      invariant forall j | 0 <= j < i :: dst[j] == src[j]
      invariant forall j | i <= j < dst.Length :: dst[j] == old(dst[j])
    {
      dst[i] := src[i];
    }
  }

  /** The final loop of the transform: mixes `src` into `dst`. */
  method AddInto(dst: array<word>, src: array<word>)
    requires dst.Length >= 8 && src.Length >= 8 && dst != src
    modifies dst
    ensures dst[..8] == AddState(old(dst[..8]), src[..8])
    ensures dst[8..] == old(dst[8..])
  {
    for i := 0 to 8
      invariant forall j | 0 <= j < i :: dst[j] == Add(old(dst[j]), src[j])
      invariant forall j | i <= j < dst.Length :: dst[j] == old(dst[j])
    {
      dst[i] := Add(dst[i], src[i]);
    }
  }

  /** sha256_transform: the compression function, in place on `state`. */
  method Sha256Transform(state: array<word>, block: array<word>, off: nat, swap: bool)
    requires state.Length >= 8 && off + 16 <= block.Length && state != block
    modifies state
    ensures state[..8] == Compress(old(state[..8]), LoadBlock(old(block[..]), off, swap))
    ensures state[8..] == old(state[8..])
  {
    hide Round, View, LoadBlock, Sched, AddState;
    var W := new word[64](_ => 0);
    PrepareSchedule(W, block, off, swap);
    var S := new word[8](_ => 0);
    CopyState(S, state);
    ViewAligned(S[..]);
    MixRounds(S, W, 0, 64, state[..8], LoadBlock(block[..], off, swap));
    ViewAligned(S[..]);
    AddInto(state, S);
  }
}
