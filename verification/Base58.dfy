/** util.c: b58dec, radix conversion over an array of 32-bit words, and b58check. */
module Base58 {
  import opened Words
  import opened Radix
  import opened Sha256Spec
  import opened Sha256Bytes

  const B: nat := 0x1_0000_0000

  /** b58digits: the character of each value, "123456789ABCDEFGHJKLMNPQRSTUVWXYZabcdefghijkmnopqrstuvwxyz",
      in its six runs of consecutive ASCII characters. */
  function CharOf(d: nat): byte
    requires d < 58
  {
    if d < 9 then 49 + d else if d < 17 then 65 + (d - 9) else if d < 22 then 74 + (d - 17)
    else if d < 33 then 80 + (d - 22) else if d < 44 then 97 + (d - 33) else 109 + (d - 44)
  }

  const ONE: byte := 49

  /** The value of a base-58 character; 58 if it is none. */
  function DigitOf(ch: byte): (d: nat)
    ensures d <= 58 && (d < 58 ==> CharOf(d) == ch)
  {
    if 49 <= ch <= 57 then ch - 49 else if 65 <= ch <= 72 then ch - 65 + 9 else if 74 <= ch <= 78 then ch - 74 + 17
    else if 80 <= ch <= 90 then ch - 80 + 22 else if 97 <= ch <= 107 then ch - 97 + 33
    else if 109 <= ch <= 122 then ch - 109 + 44 else 58
  }

  lemma DigitOfChar(d: nat)
    requires d < 58
    ensures DigitOf(CharOf(d)) == d
  {
  }

  predicate IsAlphanumeric(ch: byte) {
    '0' as int <= ch <= '9' as int || 'A' as int <= ch <= 'Z' as int || 'a' as int <= ch <= 'z' as int
  }

  /** The characters that can be mistaken for others. */
  predicate IsAmbiguous(ch: byte) {
    ch in {'0' as int, 'O' as int, 'I' as int, 'l' as int}
  }

  /** The digits are the letters and numerals but the ambiguous ones. */
  lemma Alphabet(ch: byte)
    ensures DigitOf(ch) < 58 <==> IsAlphanumeric(ch) && !IsAmbiguous(ch)
  {
  }

  /** Their values follow the order of the ASCII codes, and so are 0 to 57 in that order. */
  lemma AlphabetOrder(ch: byte, other: byte)
    requires DigitOf(ch) < 58 && DigitOf(other) < 58
    ensures ch < other <==> DigitOf(ch) < DigitOf(other)
  {
  }

  predicate Legible(s: seq<byte>) {
    forall i | 0 <= i < |s| :: DigitOf(s[i]) < 58
  }

  function Digits(s: seq<byte>): (d: seq<nat>)
    ensures |d| == |s|
  {
    seq(|s|, i requires 0 <= i < |s| => DigitOf(s[i]))
  }

  /** The number a base-58 string stands for. */
  function ValueOf(s: seq<byte>): nat {
    Number(Digits(s), 58)
  }

  /** The first number that no longer fits: 256^binsz, but a top word that would be whole must stay zero. */
  function Capacity(binsz: nat): nat {
    if binsz % 4 != 0 then Power(0x100, binsz) else if binsz == 0 then 1 else Power(0x100, binsz - 4)
  }

  // ----- one digit -----

  /** Searches the characters in turn. */
  method FindDigit(ch: byte) returns (found: bool, c: nat)
    ensures found == (DigitOf(ch) < 58) && (found ==> c == DigitOf(ch))
  {
    hide CharOf, DigitOf;
    c := 0;
    while c < 58 && CharOf(c) != ch
      invariant c <= 58 && forall j | 0 <= j < c :: CharOf(j) != ch
    {
      c := c + 1;
    }
    found := c < 58;
    if found {
      DigitOfChar(c);
    }
  }

  lemma {:induction false} NumberOfCons(x: nat, s: seq<nat>, base: nat)
    ensures Number([x] + s, base) == x * Power(base, |s|) + Number(s, base)
  {
    NumberOfSum([x], s, base);
    assert [x][..0] == [];
  }

  lemma NumberFromIndex(w: seq<word>, j: nat)
    requires j < |w|
    ensures Number(w[j..], B) == w[j] * Power(B, |w| - j - 1) + Number(w[j + 1..], B)
  {
    assert w[j..] == [w[j]] + w[j + 1..];
    NumberOfCons(w[j], w[j + 1..], B);
  }

  /** One word of the multiplication, in 64 bits: the carry stays below 58. */
  lemma CarryStep(x: word, c: nat)
    requires c < 58
    ensures var t := x * 58 + c; t < 0x1_0000_0000_0000_0000 && t / B < 58 && t == t / B * B + t % B
  {
  }

  lemma CarryMoves(c: nat, x: nat, c': nat, x': nat, p: nat, low: nat, oldLow: nat, d: nat)
    requires c * p + low == oldLow * 58 + d && x * 58 + c == c' * B + x'
    ensures c' * (B * p) + (x' * p + low) == (x * p + oldLow) * 58 + d
  {
    Distribute(x * 58, c, p);
    Distribute(c' * B, x', p);
    Regroup(c', B, p);
    Regroup(x, 58, p);
    Regroup(x, p, 58);
    Distribute(x * p, oldLow, 58);
  }

  /** Multiplies the words by 58 and adds a digit, from the last word to the first. */
  method MultiplyAdd(outi: array<word>, digit: nat) returns (c: nat)
    requires digit < 58
    modifies outi
    ensures c * Power(B, outi.Length) + Number(outi[..], B) == Number(old(outi[..]), B) * 58 + digit
    ensures c < 58
  {
    hide Number, Power;
    c := digit;
    var j := outi.Length;
    ghost var w := outi[..];
    NumberEmpty();
    assert outi[j..] == [] && w[j..] == [];
    while j > 0
      invariant 0 <= j <= outi.Length && c < 58
      invariant outi[..j] == w[..j]
      invariant c * Power(B, outi.Length - j) + Number(outi[j..], B) == Number(w[j..], B) * 58 + digit
    {
      j := j - 1;
      ghost var low, p := Number(outi[j + 1..], B), Power(B, outi.Length - j - 1);
      ghost var c0 := c;
      assert outi[j] == w[j];
      CarryStep(outi[j], c);
      var t: int := outi[j] * 58 + c;
      c := t / B;
      ghost var rest := outi[j + 1..];
      outi[j] := t % B;
      assert outi[j + 1..] == rest;
      NumberFromIndex(outi[..], j);
      assert outi[..][j..] == outi[j..] && outi[..][j + 1..] == outi[j + 1..];
      NumberFromIndex(w, j);
      CarryMoves(c0, w[j], c, outi[j], p, low, Number(w[j + 1..], B), digit);
      PowerStep(outi.Length - j - 1);
    }
    assert outi[0..] == outi[..] && w[0..] == w;
  }

  lemma PowerStep(k: nat)
    ensures Power(B, k + 1) == B * Power(B, k)
  {
  }

  lemma NumberEmpty()
    ensures Number([], B) == 0 && Power(B, 0) == 1
  {
  }

  // ----- the decoder -----

  lemma {:induction false} WordsArePowers(k: nat)
    ensures Power(B, k) == Power(0x100, 4 * k)
  {
    if k > 0 {
      WordsArePowers(k - 1);
      PowerAdds(0x100, 4, 4 * (k - 1));
      FourBytes();
    }
  }

  lemma FourBytes()
    ensures Power(0x100, 4) == B
  {
    assert Power(0x100, 2) == 0x1_0000;
    PowerAdds(0x100, 2, 2);
  }

  lemma BytePowers(rem: nat)
    requires rem < 4
    ensures Power(0x100, rem) <= B
  {
    FourBytes();
    PowerAdds(0x100, rem, 4 - rem);
    Monotone(1, Power(0x100, 4 - rem), Power(0x100, rem));
  }

  /** The words used, and the bytes of the top word that are allowed. */
  lemma CapacityInWords(binsz: nat)
    requires binsz > 0
    ensures var n, rem := (binsz + 3) / 4, binsz % 4;
            && n > 0 && Capacity(binsz) == Power(0x100, rem) * Power(B, n - 1) <= Power(B, n)
  {
    hide Power;
    var n, rem := (binsz + 3) / 4, binsz % 4;
    WordsArePowers(n - 1);
    PowerAdds(0x100, rem, 4 * (n - 1));
    PowerStep(n - 1);
    BytePowers(rem);
    Monotone(Power(0x100, rem), B, Power(B, n - 1));
    if rem == 0 {
      assert Power(0x100, 0) == 1 by { OnePower(); }
    }
  }

  lemma OnePower()
    ensures Power(0x100, 0) == 1
  {
  }

  /** The top word alone decides whether the number fits. */
  lemma TopWordDecides(w: seq<word>, p: nat)
    requires |w| > 0
    ensures Number(w, B) < p * Power(B, |w| - 1) <==> w[0] < p
  {
    hide Number, Power;
    assert w[0..] == w;
    NumberFromIndex(w, 0);
    NumberBound(w[1..], B);
    var q := Power(B, |w| - 1);
    if w[0] < p {
      var top: int := w[0];
      Monotone(top + 1, p, q);
      Distribute(top, 1, q);
    } else {
      Monotone(p, w[0], q);
    }
  }

  lemma {:induction false} PrefixIsLess(s: seq<nat>, i: nat, base: nat)
    requires i <= |s| && base > 0
    ensures Number(s[..i], base) <= Number(s, base)
  {
    if i < |s| {
      PrefixIsLess(s[..|s| - 1], i, base);
      assert s[..|s| - 1][..i] == s[..i];
      Monotone(1, base, Number(s[..|s| - 1], base));
    } else {
      assert s[..i] == s;
    }
  }

  lemma ValueOfPrefix(s: seq<byte>, i: nat)
    requires i < |s|
    ensures ValueOf(s[..i + 1]) == ValueOf(s[..i]) * 58 + DigitOf(s[i])
    ensures ValueOf(s[..i + 1]) <= ValueOf(s)
  {
    hide DigitOf;
    assert Digits(s[..i + 1])[..i] == Digits(s[..i]);
    PrefixIsLess(Digits(s), i + 1, 58);
    assert Digits(s[..i + 1]) == Digits(s)[..i + 1];
  }

  /** The radix conversion: fills the words, or reports a bad character or an overflow. `outi[0] & remmask`
      is nonzero exactly when the word has a bit from 2^(8 * rem) up. */
  method Accumulate(outi: array<word>, binsz: nat, b58: seq<byte>) returns (ok: bool)
    requires binsz > 0 && outi.Length == (binsz + 3) / 4 && forall j | 0 <= j < outi.Length :: outi[j] == 0
    modifies outi
    ensures ok <==> Legible(b58) && ValueOf(b58) < Capacity(binsz)
    ensures ok ==> Number(outi[..], B) == ValueOf(b58) && outi[0] < Power(0x100, binsz % 4)
  {
    hide Number, Power, DigitOf, ValueOf, Capacity;
    CapacityInWords(binsz);
    ZeroNumber(outi[..]);
    ValueOfNothing(b58[..0], outi.Length);
    CapacityPositive(binsz);
    TopWordDecides(outi[..], Power(0x100, binsz % 4));
    for i := 0 to |b58|
      invariant Legible(b58[..i])
      invariant Number(outi[..], B) == ValueOf(b58[..i]) < Capacity(binsz)
      invariant outi[0] < Power(0x100, binsz % 4)
    {
      var found, c := FindDigit(b58[i]);
      if !found {
        return false;
      }
      ValueOfPrefix(b58, i);
      c := MultiplyAdd(outi, c);
      TopWordDecides(outi[..], Power(0x100, binsz % 4));
      ZeroTimes(c, Power(B, outi.Length));
      if c != 0 || outi[0] >= Power(0x100, binsz % 4) {
        return false;
      }
    }
    assert b58[..|b58|] == b58;
    ok := true;
  }

  lemma ZeroTimes(c: nat, p: nat)
    ensures c == 0 ==> c * p == 0
    ensures c != 0 ==> c * p >= p
  {
    if c != 0 {
      Monotone(1, c, p);
    }
  }

  lemma CapacityPositive(binsz: nat)
    ensures Capacity(binsz) > 0
  {
  }

  lemma ValueOfNothing(s: seq<byte>, n: nat)
    requires s == []
    ensures ValueOf(s) == 0
  {
  }

  lemma {:induction false} ZeroNumber(w: seq<word>)
    requires forall j | 0 <= j < |w| :: w[j] == 0
    ensures Number(w, B) == 0
  {
    if w != [] {
      ZeroNumber(w[..|w| - 1]);
    }
  }

  // ----- the output -----

  lemma NumberMore(s: seq<nat>, x: nat, base: nat)
    ensures Number(s + [x], base) == Number(s, base) * base + x
  {
    assert (s + [x])[..|s|] == s;
  }

  lemma FourBytesNumber(e: seq<byte>)
    requires |e| == 4
    ensures Number(e, 0x100) == BE32Dec(e)
  {
    NumberMore([], e[0], 0x100);
    NumberMore([e[0]], e[1], 0x100);
    NumberMore([e[0], e[1]], e[2], 0x100);
    NumberMore([e[0], e[1], e[2]], e[3], 0x100);
    assert [] + [e[0]] == [e[0]] && [e[0]] + [e[1]] == [e[0], e[1]];
    assert [e[0], e[1]] + [e[2]] == [e[0], e[1], e[2]] && [e[0], e[1], e[2]] + [e[3]] == e;
  }

  lemma LeadingZero(x: word, k: nat)
    requires k < 4 && x < Power(0x100, k)
    ensures BE32Enc(x)[3 - k] == 0
  {
    assert Power(0x100, 1) == 0x100 && Power(0x100, 2) == 0x1_0000;
    assert Power(0x100, 3) == 0x100 * Power(0x100, 2);
  }

  /** The last `k` bytes of a word hold it, if it needs no more. */
  lemma {:induction false} WordBytes(x: word, k: nat)
    requires k <= 4 && x < Power(0x100, k)
    ensures Number(BE32Enc(x)[4 - k..], 0x100) == x
    decreases 4 - k
  {
    hide Number, Power, BE32Enc, BE32Dec;
    var f := BE32Enc(x);
    if k == 4 {
      FourBytesNumber(f);
      assert f[0..] == f;
      BE32RoundTrip(x);
    } else {
      PowerGrows(k);
      WordBytes(x, k + 1);
      LeadingZero(x, k);
      assert f[3 - k..] == [f[3 - k]] + f[4 - k..];
      NumberOfCons(f[3 - k], f[4 - k..], 0x100);
    }
  }

  lemma PowerGrows(k: nat)
    ensures Power(0x100, k) <= Power(0x100, k + 1)
  {
  }

  /** Writes the top word in `rem` bytes, or nothing. */
  method StoreTop(bin: array<byte>, rem: nat, x: word) returns (p: nat)
    requires rem < 4 && rem <= bin.Length && x < Power(0x100, rem)
    modifies bin
    ensures p == rem && bin[rem..] == old(bin[rem..])
    ensures Number(bin[..rem], 0x100) == x
  {
    hide Number, Power, BE32Enc;
    p := 0;
    var e := BE32Enc(x);
    WordBytes(x, rem);
    if rem == 3 {
      bin[p] := e[1];
      p := p + 1;
    }
    if rem >= 2 {
      bin[p] := e[2];
      p := p + 1;
    }
    if rem >= 1 {
      bin[p] := e[3];
      p := p + 1;
    }
    assert bin[..rem] == e[4 - rem..];
  }

  method StoreWord(bin: array<byte>, p: nat, x: word)
    requires p + 4 <= bin.Length
    modifies bin
    ensures Number(bin[..p + 4], 0x100) == Number(old(bin[..p]), 0x100) * B + x
    ensures bin[p + 4..] == old(bin[p + 4..])
  {
    hide Number, Power, BE32Enc;
    var e := BE32Enc(x);
    ghost var front := bin[..p];
    bin[p], bin[p + 1], bin[p + 2], bin[p + 3] := e[0], e[1], e[2], e[3];
    assert bin[..p + 4] == front + e;
    NumberOfSum(front, e, 0x100);
    FourBytes();
    WordBytes(x, 4);
    assert e[0..] == e;
  }

  /** Writes the words most significant byte first, the top one in `rem` bytes only unless that is zero. */
  method StoreBytes(bin: array<byte>, binsz: nat, outi: array<word>)
    requires 0 < binsz <= bin.Length && outi.Length == (binsz + 3) / 4
    requires outi[0] < Power(0x100, binsz % 4)
    modifies bin
    ensures Number(bin[..binsz], 0x100) == Number(outi[..], B)
    ensures bin[binsz..] == old(bin[binsz..])
  {
    hide Number, Power;
    NumberEmpty();
    var p := StoreTop(bin, binsz % 4, outi[0]);
    var j := if p > 0 then 1 else 0;
    NumberMore([], outi[0], B);
    assert [] + [outi[0]] == [outi[0]] == outi[..1];
    assert p == 0 ==> bin[..p] == [] == outi[..j];
    NumberEmptyBytes();
    while j < outi.Length
      invariant j <= outi.Length && p + 4 * (outi.Length - j) == binsz
      invariant Number(bin[..p], 0x100) == Number(outi[..j], B)
      invariant bin[binsz..] == old(bin[binsz..])
    {
      ghost var q := p + 4;
      StoreWord(bin, p, outi[j]);
      assert outi[..j + 1] == outi[..j] + [outi[j]];
      NumberMore(outi[..j], outi[j], B);
      assert bin[binsz..] == bin[q..][binsz - q..];
      p := p + 4;
      j := j + 1;
    }
    assert outi[..outi.Length] == outi[..];
  }

  lemma NumberEmptyBytes()
    ensures Number([], 0x100) == 0
  {
  }

  /** b58dec: decodes into exactly `binsz` bytes, most significant first. */
  method B58Dec(bin: array<byte>, binsz: nat, b58: seq<byte>) returns (ok: bool)
    requires 0 < binsz <= bin.Length
    modifies bin
    ensures ok <==> Legible(b58) && ValueOf(b58) < Capacity(binsz)
    ensures ok ==> Number(bin[..binsz], 0x100) == ValueOf(b58)
    ensures !ok ==> bin[..] == old(bin[..])
    ensures bin[binsz..] == old(bin[binsz..])
  {
    hide Number, Power, DigitOf, ValueOf, Capacity;
    var outi := new word[(binsz + 3) / 4](_ => 0);
    ok := Accumulate(outi, binsz, b58);
    if ok {
      StoreBytes(bin, binsz, outi);
    }
  }
}
