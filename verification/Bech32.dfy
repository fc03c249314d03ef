/** util.c: bech32_decode, and why it catches every short burst of errors (BIP 173, section "Bech32"). */
module Bech32 {
  import opened Words
  import opened Radix

  // ----- the checksum -----

  const G0: bv32 := 0x3b6a57b2
  const G1: bv32 := 0x26508e6d
  const G2: bv32 := 0x1ea119fa
  const G3: bv32 := 0x3d4233dd
  const G4: bv32 := 0x2a1462b3

  function Xor(x: bv32, y: bv32): bv32 {
    x ^ y
  }

  function LowBit(b: bv32): bv32 {
    b & 1
  }

  /** `g` if `bit` is one, nothing if it is zero. */
  function Mask(bit: bv32, g: bv32): bv32 {
    (0 - bit) & g
  }

  /** The lower 25 bits, moved up by one symbol. */
  function Shifted(pre: bv32): bv32 {
    (pre & 0x1FF_FFFF) << 5
  }

  /** bech32_polymod_step. */
  function Step(pre: bv32): bv32 {
    var b := pre >> 25;
    Xor(Xor(Xor(Xor(Xor(Shifted(pre),
      Mask(LowBit(b), G0)),
      Mask(LowBit(b >> 1), G1)),
      Mask(LowBit(b >> 2), G2)),
      Mask(LowBit(b >> 3), G3)),
      Mask(LowBit(b >> 4), G4))
  }

  lemma XorIs(x: bv32, y: bv32)
    ensures Xor(x, y) == x ^ y
  {
  }

  lemma XorSwap(a: bv32, b: bv32, c: bv32, d: bv32)
    ensures Xor(Xor(a, b), Xor(c, d)) == Xor(Xor(a, c), Xor(b, d))
  {
    hide Xor;
    XorLaws(a, b, Xor(c, d));
    XorLaws(b, c, d);
    XorLaws(c, b, d);
    XorLaws(a, c, Xor(b, d));
  }

  lemma XorLaws(a: bv32, b: bv32, c: bv32)
    ensures Xor(Xor(a, b), c) == Xor(a, Xor(b, c)) && Xor(a, b) == Xor(b, a)
  {
  }

  lemma ShiftedLinear(x: bv32, y: bv32)
    ensures Shifted(Xor(x, y)) == Xor(Shifted(x), Shifted(y))
  {
  }

  lemma Shift25Linear(x: bv32, y: bv32)
    ensures Xor(x, y) >> 25 == Xor(x >> 25, y >> 25)
  {
    hide Xor;
    XorIs(x, y);
    XorIs(x >> 25, y >> 25);
  }

  lemma Shift1Linear(x: bv32, y: bv32)
    ensures Xor(x, y) >> 1 == Xor(x >> 1, y >> 1)
  {
    hide Xor;
    XorIs(x, y);
    XorIs(x >> 1, y >> 1);
  }

  lemma Shift2Linear(x: bv32, y: bv32)
    ensures Xor(x, y) >> 2 == Xor(x >> 2, y >> 2)
  {
    hide Xor;
    XorIs(x, y);
    XorIs(x >> 2, y >> 2);
  }

  lemma Shift3Linear(x: bv32, y: bv32)
    ensures Xor(x, y) >> 3 == Xor(x >> 3, y >> 3)
  {
    hide Xor;
    XorIs(x, y);
    XorIs(x >> 3, y >> 3);
  }

  lemma Shift4Linear(x: bv32, y: bv32)
    ensures Xor(x, y) >> 4 == Xor(x >> 4, y >> 4)
  {
    hide Xor;
    XorIs(x, y);
    XorIs(x >> 4, y >> 4);
  }

  lemma BitLinear(x: bv32, y: bv32)
    ensures LowBit(Xor(x, y)) == Xor(LowBit(x), LowBit(y)) && LowBit(x) <= 1
  {
  }

  lemma MaskLinear(x: bv32, y: bv32, g: bv32)
    requires x <= 1 && y <= 1
    ensures Mask(Xor(x, y), g) == Xor(Mask(x, g), Mask(y, g))
  {
  }

  lemma TermLinear(x: bv32, y: bv32, g: bv32)
    ensures Mask(LowBit(Xor(x, y)), g) == Xor(Mask(LowBit(x), g), Mask(LowBit(y), g))
  {
    hide Xor, LowBit, Mask;
    BitLinear(x, y);
    BitLinear(y, x);
    MaskLinear(LowBit(x), LowBit(y), g);
  }

  /** The step is linear over GF(2). */
  lemma StepLinear(x: bv32, y: bv32)
    ensures Step(Xor(x, y)) == Xor(Step(x), Step(y))
  {
    hide Xor, LowBit, Mask, Shifted;
    ShiftedLinear(x, y);
    var b, c := x >> 25, y >> 25;
    Shift25Linear(x, y);
    Shift1Linear(b, c); Shift2Linear(b, c); Shift3Linear(b, c); Shift4Linear(b, c);
    TermLinear(b, c, G0); TermLinear(b >> 1, c >> 1, G1); TermLinear(b >> 2, c >> 2, G2);
    TermLinear(b >> 3, c >> 3, G3); TermLinear(b >> 4, c >> 4, G4);
    var p0, q0 := Xor(Shifted(x), Mask(LowBit(b), G0)), Xor(Shifted(y), Mask(LowBit(c), G0));
    var p1, q1 := Xor(p0, Mask(LowBit(b >> 1), G1)), Xor(q0, Mask(LowBit(c >> 1), G1));
    var p2, q2 := Xor(p1, Mask(LowBit(b >> 2), G2)), Xor(q1, Mask(LowBit(c >> 2), G2));
    var p3, q3 := Xor(p2, Mask(LowBit(b >> 3), G3)), Xor(q2, Mask(LowBit(c >> 3), G3));
    XorSwap(Shifted(x), Mask(LowBit(b), G0), Shifted(y), Mask(LowBit(c), G0));
    XorSwap(p0, Mask(LowBit(b >> 1), G1), q0, Mask(LowBit(c >> 1), G1));
    XorSwap(p1, Mask(LowBit(b >> 2), G2), q1, Mask(LowBit(c >> 2), G2));
    XorSwap(p2, Mask(LowBit(b >> 3), G3), q2, Mask(LowBit(c >> 3), G3));
    XorSwap(p3, Mask(LowBit(b >> 4), G4), q3, Mask(LowBit(c >> 4), G4));
  }

  /** It stays within 30 bits, and there only zero goes to zero. */
  lemma StepInjective(d: bv32)
    requires d < 0x4000_0000
    ensures Step(d) < 0x4000_0000 && (Step(d) == 0 <==> d == 0)
  {
  }

  /** Below 25 bits there is no reduction. */
  lemma StepShifts(d: bv32)
    requires d < 0x200_0000
    ensures Step(d) == d << 5
  {
    hide Mask;
    MaskZero(G0); MaskZero(G1); MaskZero(G2); MaskZero(G3); MaskZero(G4);
    var z := d >> 25;
    assert z == 0 && LowBit(z) == 0 && LowBit(z >> 1) == 0 && LowBit(z >> 2) == 0 && LowBit(z >> 3) == 0
           && LowBit(z >> 4) == 0;
  }

  lemma MaskZero(g: bv32)
    ensures Mask(0, g) == 0
  {
  }

  // ----- words of symbols -----

  /** The checksum register after the symbols `es`, started from `chk`. */
  function Fold(chk: bv32, es: seq<bv32>): bv32 {
    if es == [] then chk else Xor(Step(Fold(chk, es[..|es| - 1])), es[|es| - 1])
  }

  /** Binary digit `i` of `v`. */
  function Digit(v: nat, i: nat): nat {
    if i == 0 then v % 2 else Digit(v / 2, i - 1)
  }

  function Weigh(digit: nat, w: bv32): bv32 {
    if digit == 1 then w else 0
  }

  /** A five-bit value as bits of the register. */
  function Symbol(v: byte): bv32 {
    Weigh(Digit(v, 0), 1) | Weigh(Digit(v, 1), 2) | Weigh(Digit(v, 2), 4) |
    Weigh(Digit(v, 3), 8) | Weigh(Digit(v, 4), 16)
  }

  function Symbols(vs: seq<byte>): (es: seq<bv32>)
    ensures |es| == |vs|
  {
    seq(|vs|, i requires 0 <= i < |vs| => Symbol(vs[i]))
  }

  function Xors(es: seq<bv32>, fs: seq<bv32>): (r: seq<bv32>)
    requires |es| == |fs|
    ensures |r| == |es|
  {
    seq(|es|, i requires 0 <= i < |es| => Xor(es[i], fs[i]))
  }

  lemma {:induction false} FoldConcat(chk: bv32, a: seq<bv32>, b: seq<bv32>)
    ensures Fold(chk, a + b) == Fold(Fold(chk, a), b)
  {
    hide Xor, Step;
    if b == [] {
      assert a + b == a;
    } else {
      FoldConcat(chk, a, b[..|b| - 1]);
      assert (a + b)[..|a + b| - 1] == a + b[..|b| - 1];
    }
  }

  /** The difference of two checksums is the checksum of the difference. */
  lemma {:induction false} FoldLinear(x: bv32, y: bv32, es: seq<bv32>, fs: seq<bv32>)
    requires |es| == |fs|
    ensures Xor(Fold(x, es), Fold(y, fs)) == Fold(Xor(x, y), Xors(es, fs))
  {
    hide Xor, Step;
    if es != [] {
      var n := |es| - 1;
      FoldLinear(x, y, es[..n], fs[..n]);
      assert Xors(es, fs)[..n] == Xors(es[..n], fs[..n]);
      var p, q := Fold(x, es[..n]), Fold(y, fs[..n]);
      StepLinear(p, q);
      XorSwap(Step(p), es[n], Step(q), fs[n]);
    }
  }

  /** The room that `k` symbols of five bits take. */
  function Room(k: nat): bv32
    requires k <= 6
  {
    if k == 0 then 1 else if k == 1 then 0x20 else if k == 2 then 0x400 else if k == 3 then 0x8000
    else if k == 4 then 0x10_0000 else if k == 5 then 0x200_0000 else 0x4000_0000
  }

  lemma Append(d: bv32, e: bv32, k: nat)
    requires k < 6 && d < Room(k) && e < 32
    ensures (d << 5) ^ e < Room(k + 1) && ((d << 5) ^ e == 0 <==> d == 0 && e == 0) && d < 0x200_0000
  {
    if k == 0 {} else if k == 1 {} else if k == 2 {} else if k == 3 {} else if k == 4 {} else {}
  }

  predicate AllZero(es: seq<bv32>) {
    forall i | 0 <= i < |es| :: es[i] == 0
  }

  predicate FiveBits(es: seq<bv32>) {
    forall i | 0 <= i < |es| :: es[i] < 32
  }

  /** Up to six symbols fit the register side by side: only the zero symbols leave it zero. */
  lemma {:induction false} BurstShows(es: seq<bv32>)
    requires |es| <= 6 && FiveBits(es)
    ensures Fold(0, es) < Room(|es|) && (Fold(0, es) == 0 <==> AllZero(es))
  {
    hide Step, Xor;
    if es != [] {
      var n := |es| - 1;
      BurstShows(es[..n]);
      var d := Fold(0, es[..n]);
      Append(d, es[n], n);
      StepShifts(d);
      XorIs(d << 5, es[n]);
      assert AllZero(es) <==> AllZero(es[..n]) && es[n] == 0;
    }
  }

  /** A difference, once there, is never lost. */
  lemma {:induction false} DifferenceStays(d: bv32, es: seq<bv32>)
    requires d < 0x4000_0000 && d != 0 && AllZero(es)
    ensures Fold(d, es) != 0 && Fold(d, es) < 0x4000_0000
  {
    hide Step, Xor;
    if es != [] {
      var n := |es| - 1;
      DifferenceStays(d, es[..n]);
      StepInjective(Fold(d, es[..n]));
      XorIs(Step(Fold(d, es[..n])), 0);
    }
  }

  lemma WindowShows(c: bv32, u: seq<bv32>, v: seq<bv32>)
    requires |u| == |v| <= 6 && FiveBits(u) && FiveBits(v) && u != v
    ensures Xor(Fold(c, u), Fold(c, v)) != 0 && Xor(Fold(c, u), Fold(c, v)) < 0x4000_0000
  {
    hide Xor, Fold, Room, FiveBits, AllZero, Xors;
    FoldLinear(c, c, u, v);
    SameXor(c);
    XorsFacts(u, v);
    BurstShows(Xors(u, v));
    RoomBound(|u|);
  }

  lemma TailKeeps(d: bv32, d': bv32, b: seq<bv32>)
    requires Xor(d, d') != 0 && Xor(d, d') < 0x4000_0000 && FiveBits(b)
    ensures Fold(d, b) != Fold(d', b)
  {
    hide Xor, Fold, FiveBits, AllZero, Xors;
    FoldLinear(d, d', b, b);
    XorsFacts(b, b);
    DifferenceStays(Xor(d, d'), Xors(b, b));
    SameXor(Fold(d, b));
  }

  /** Two symbol strings that differ only in a window of six have different checksums. */
  lemma BurstChangesChecksum(chk: bv32, a: seq<bv32>, u: seq<bv32>, v: seq<bv32>, b: seq<bv32>)
    requires |u| == |v| <= 6 && FiveBits(u) && FiveBits(v) && FiveBits(b) && u != v
    ensures Fold(chk, a + u + b) != Fold(chk, a + v + b)
  {
    hide Xor, Fold, FiveBits;
    FoldConcat(chk, a + u, b);
    FoldConcat(chk, a, u);
    FoldConcat(chk, a + v, b);
    FoldConcat(chk, a, v);
    WindowShows(Fold(chk, a), u, v);
    TailKeeps(Fold(Fold(chk, a), u), Fold(Fold(chk, a), v), b);
  }

  lemma RoomBound(k: nat)
    requires k <= 6
    ensures Room(k) <= 0x4000_0000
  {
  }

  lemma SameXor(x: bv32)
    ensures Xor(x, x) == 0
  {
  }

  lemma XorZeroWhenSame(x: bv32, y: bv32)
    ensures x ^ y == 0 <==> x == y
  {
  }

  lemma XorSmall(x: bv32, y: bv32)
    requires x < 32 && y < 32
    ensures x ^ y < 32
  {
  }

  lemma XorFacts(x: bv32, y: bv32)
    requires x < 32 && y < 32
    ensures (Xor(x, y) == 0 <==> x == y) && Xor(x, y) < 32
  {
    hide Xor;
    XorIs(x, y);
    XorZeroWhenSame(x, y);
    XorSmall(x, y);
  }

  lemma XorsFacts(es: seq<bv32>, fs: seq<bv32>)
    requires |es| == |fs| && FiveBits(es) && FiveBits(fs)
    ensures FiveBits(Xors(es, fs)) && (AllZero(Xors(es, fs)) <==> es == fs)
  {
    hide Xor;
    forall i | 0 <= i < |es|
      ensures Xors(es, fs)[i] < 32 && (Xors(es, fs)[i] == 0 <==> es[i] == fs[i])
    {
      XorFacts(es[i], fs[i]);
    }
  }

  lemma SymbolDigits(v: byte)
    requires v < 32
    ensures var s := Symbol(v);
            && s < 32 && (s & 1 == 0 <==> Digit(v, 0) != 1) && (s & 2 == 0 <==> Digit(v, 1) != 1)
            && (s & 4 == 0 <==> Digit(v, 2) != 1) && (s & 8 == 0 <==> Digit(v, 3) != 1)
            && (s & 16 == 0 <==> Digit(v, 4) != 1)
  {
    hide Digit;
  }

  lemma {:induction false} SameDigits(v: nat, w: nat, k: nat)
    requires v < Power(2, k) && w < Power(2, k)
    requires forall i | 0 <= i < k :: Digit(v, i) == 1 <==> Digit(w, i) == 1
    ensures v == w
  {
    if k > 0 {
      assert Digit(v, 0) == 1 <==> Digit(w, 0) == 1;
      forall i | 0 <= i < k - 1 ensures Digit(v / 2, i) == 1 <==> Digit(w / 2, i) == 1 {
        assert Digit(v, i + 1) == 1 <==> Digit(w, i + 1) == 1;
      }
      SameDigits(v / 2, w / 2, k - 1);
    }
  }

  /** Different values are different symbols, and all fit five bits. */
  lemma SymbolBits(v: byte, w: byte)
    requires v < 32 && w < 32
    ensures Symbol(v) < 32 && (Symbol(v) == Symbol(w) <==> v == w)
  {
    hide Digit, Symbol;
    SymbolDigits(v);
    SymbolDigits(w);
    if Symbol(v) == Symbol(w) {
      assert Power(2, 5) == 32;
      SameDigits(v, w, 5);
    }
  }
}
