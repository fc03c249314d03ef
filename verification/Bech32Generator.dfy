/** The generator of the Bech32 code (BIP 173, section "Checksum design"), and an example of BIP 173. */
module Bech32Generator {
  import opened Words
  import opened Bech32
  import Bech32Decoder

  // ----- the field of 32 elements -----

  /** Multiplication by the generator a of the field, where a^5 = a^3 + 1. */
  function Double(c: bv32): bv32 {
    ((c << 1) & 31) ^ (if c & 16 == 0 then 0 else 9)
  }

  function When(b: bool, c: bv32): bv32 {
    if b then c else 0
  }

  /** The product of two elements, bit by bit of the second. */
  function Times(c: bv32, d: bv32): bv32 {
    var c1 := Double(c);
    var c2 := Double(c1);
    var c3 := Double(c2);
    var c4 := Double(c3);
    When(d & 1 != 0, c) ^ When(d & 2 != 0, c1) ^ When(d & 4 != 0, c2) ^ When(d & 8 != 0, c3) ^ When(d & 16 != 0, c4)
  }

  /** `c` times the generator polynomial x^6 + 29 x^5 + 22 x^4 + 20 x^3 + 21 x^2 + 29 x + 18, without its first
      term; coefficients take five bits each. */
  function Multiple(c: bv32): bv32 {
    (Times(c, 29) << 25) ^ (Times(c, 22) << 20) ^ (Times(c, 20) << 15)
    ^ (Times(c, 21) << 10) ^ (Times(c, 29) << 5) ^ Times(c, 18)
  }

  // ----- the step is one step of polynomial division -----

  /** What the step adds for the symbol that leaves the register. */
  function Reduction(b: bv32): bv32 {
    Xor(Xor(Xor(Xor(Mask(LowBit(b), G0), Mask(LowBit(b >> 1), G1)), Mask(LowBit(b >> 2), G2)),
      Mask(LowBit(b >> 3), G3)), Mask(LowBit(b >> 4), G4))
  }

  predicate IsMultiple(b: bv32) {
    Reduction(b) == Multiple(b)
  }

  lemma Multiples0()
    ensures IsMultiple(0) && IsMultiple(1) && IsMultiple(2) && IsMultiple(3)
    ensures IsMultiple(4) && IsMultiple(5) && IsMultiple(6) && IsMultiple(7)
  {
  }

  lemma Multiples8()
    ensures IsMultiple(8) && IsMultiple(9) && IsMultiple(10) && IsMultiple(11)
    ensures IsMultiple(12) && IsMultiple(13) && IsMultiple(14) && IsMultiple(15)
  {
  }

  lemma Multiples16()
    ensures IsMultiple(16) && IsMultiple(17) && IsMultiple(18) && IsMultiple(19)
    ensures IsMultiple(20) && IsMultiple(21) && IsMultiple(22) && IsMultiple(23)
  {
  }

  lemma Multiples24()
    ensures IsMultiple(24) && IsMultiple(25) && IsMultiple(26) && IsMultiple(27)
    ensures IsMultiple(28) && IsMultiple(29) && IsMultiple(30) && IsMultiple(31)
  {
  }

  lemma FiveBitCases(b: bv32)
    requires b < 32
    ensures b in {0, 1, 2, 3, 4, 5, 6, 7, 8, 9, 10, 11, 12, 13, 14, 15}
            || b in {16, 17, 18, 19, 20, 21, 22, 23, 24, 25, 26, 27, 28, 29, 30, 31}
  {
  }

  lemma ReductionIsMultiple(b: bv32)
    requires b < 32
    ensures IsMultiple(b)
  {
    hide IsMultiple;
    Multiples0();
    Multiples8();
    Multiples16();
    Multiples24();
    FiveBitCases(b);
  }

  lemma Regroup5(s: bv32, a: bv32, b: bv32, c: bv32, d: bv32, e: bv32)
    ensures Xor(Xor(Xor(Xor(Xor(s, a), b), c), d), e) == Xor(s, Xor(Xor(Xor(Xor(a, b), c), d), e))
  {
    hide Xor;
    XorLaws(s, a, b);
    XorLaws(s, Xor(a, b), c);
    XorLaws(s, Xor(Xor(a, b), c), d);
    XorLaws(s, Xor(Xor(Xor(a, b), c), d), e);
  }

  lemma TopSymbol(pre: bv32)
    requires pre < 0x4000_0000
    ensures pre >> 25 < 32
  {
  }

  /** One step multiplies the register by x, and takes away the multiple of the generator that brings the degree
      down to five again: the remainder modulo the generator of BIP 173. */
  lemma StepDivides(pre: bv32)
    requires pre < 0x4000_0000
    ensures Step(pre) == Xor(Shifted(pre), Multiple(pre >> 25))
  {
    hide Xor, LowBit, Mask, Shifted, Multiple;
    var b := pre >> 25;
    TopSymbol(pre);
    ReductionIsMultiple(b);
    Regroup5(Shifted(pre), Mask(LowBit(b), G0), Mask(LowBit(b >> 1), G1), Mask(LowBit(b >> 2), G2),
             Mask(LowBit(b >> 3), G3), Mask(LowBit(b >> 4), G4));
  }

  // ----- the character set, and one string -----

  /** The character set as BIP 173 writes it. */
  lemma CharacterSet(v: byte)
    requires v < 32
    ensures Bech32Decoder.CharOf(v) == "qpzry9x8gf2tvdw0s3jn54khce6mua7l"[v] as int
  {
  }

  /** One more symbol with the value `v`, which is `e` in the register. */
  lemma Taken(vs: seq<byte>, v: byte, e: bv32, chk: bv32, next: bv32)
    requires Fold(1, Symbols(vs)) == chk && Symbol(v) == e && Xor(Step(chk), e) == next
    ensures Fold(1, Symbols(vs + [v])) == next
  {
    hide Fold, Xor, Step, Symbol;
    Bech32Decoder.OneMore(vs, v);
  }

  lemma ExampleSymbols()
    ensures Symbol(0) == 0 && Symbol(1) == 1 && Symbol(3) == 3 && Symbol(10) == 10
    ensures Symbol(20) == 20 && Symbol(25) == 25 && Symbol(28) == 28 && Symbol(31) == 31
  {
  }

  lemma ExampleChecksum(vs: seq<byte>)
    requires vs == [3, 0, 1, 10, 28, 25, 31, 20, 31]
    ensures Fold(1, Symbols(vs)) == 1
  {
    hide Fold, Symbol;
    Bech32Decoder.FoldNone();
    ExampleSymbols();
    Taken([], 3, 3, 0x00000001, 0x00000023);
    assert [] + [3] == vs[..1];
    Taken(vs[..1], 0, 0, 0x00000023, 0x00000460);
    assert vs[..1] + [0] == vs[..2];
    Taken(vs[..2], 1, 1, 0x00000460, 0x00008c01);
    assert vs[..2] + [1] == vs[..3];
    Taken(vs[..3], 10, 10, 0x00008c01, 0x0011802a);
    assert vs[..3] + [10] == vs[..4];
    Taken(vs[..4], 28, 28, 0x0011802a, 0x0230055c);
    assert vs[..4] + [28] == vs[..5];
    Taken(vs[..5], 25, 25, 0x0230055c, 0x3d6afc2b);
    assert vs[..5] + [25] == vs[..6];
    Taken(vs[..6], 31, 31, 0x3d6afc2b, 0x02f84386);
    assert vs[..6] + [31] == vs[..7];
    Taken(vs[..7], 20, 20, 0x02f84386, 0x24622766);
    assert vs[..7] + [20] == vs[..8];
    Taken(vs[..8], 31, 31, 0x24622766, 0x00000001);
    assert vs[..8] + [31] == vs[..9];
    assert vs[..9] == vs;
  }

  /** "A12UEL5L", the first valid string that BIP 173 lists: prefix "a" and no data. */
  lemma ExampleDecodes(s: seq<byte>)
    requires s == [65, 49, 50, 85, 69, 76, 53, 76]
    ensures Bech32Decoder.Decode(s) == Bech32Decoder.Accepted([97], [])
  {
    hide Fold, Symbols, Bech32Decoder.MixedCase, Bech32Decoder.Separator;
    ExamplePlaces(s);
    assert Bech32Decoder.Prefix(s) == [97];
    var vs := Bech32Decoder.Values(s);
    assert vs == [10, 28, 25, 31, 20, 31];
    var all := Bech32Decoder.Expand([97]) + vs;
    assert all == [3, 0, 1, 10, 28, 25, 31, 20, 31];
    ExampleChecksum(all);
    assert vs[..0] == [];
  }

  lemma ExamplePlaces(s: seq<byte>)
    requires s == [65, 49, 50, 85, 69, 76, 53, 76]
    ensures Bech32Decoder.Separator(s) == 1 && !Bech32Decoder.MixedCase(s)
    ensures Bech32Decoder.WellPlaced(s) && Bech32Decoder.Legible(s)
  {
    hide Bech32Decoder.Separator;
    assert forall i | 1 < i < 8 :: s[i] != Bech32Decoder.ONE;
    assert s[1] == Bech32Decoder.ONE;
    assert forall i | 0 <= i < 8 :: !Bech32Decoder.IsLower(s[i]);
  }
}
