/** util.c: bech32_decode against BIP 173, and the burst errors it must reject. */
module Bech32Decoder {
  import opened Words
  import opened Bech32

  const ONE: byte := 49

  type Rev = x: int | -1 <= x < 32

  predicate IsLower(c: byte) {
    97 <= c <= 122
  }

  predicate IsUpper(c: byte) {
    65 <= c <= 90
  }

  function Lower(c: byte): byte {
    if IsUpper(c) then c + 32 else c
  }

  /** bech32_charset_rev: the value of a data character, or -1. Bytes from 0x80 have none. */
  function ValueOf(c: byte): (v: Rev) {
    match c
    case 48 => 15 case 50 => 10 case 51 => 17 case 52 => 21 case 53 => 20 case 54 => 26 case 55 => 30
        case 56 => 7 case 57 => 5
    case 65 => 29 case 67 => 24 case 68 => 13 case 69 => 25 case 70 => 9 case 71 => 8 case 72 => 23 case 74 => 18
    case 75 => 22 case 76 => 31 case 77 => 27 case 78 => 19 case 80 => 1 case 81 => 0 case 82 => 3 case 83 => 16
    case 84 => 11 case 85 => 28 case 86 => 12 case 87 => 14 case 88 => 6 case 89 => 4 case 90 => 2
    case 97 => 29 case 99 => 24 case 100 => 13 case 101 => 25 case 102 => 9 case 103 => 8 case 104 => 23 case 106 => 18
    case 107 => 22 case 108 => 31 case 109 => 27 case 110 => 19 case 112 => 1 case 113 => 0 case 114 => 3 case 115 => 16
    case 116 => 11 case 117 => 28 case 118 => 12 case 119 => 14 case 120 => 6 case 121 => 4 case 122 => 2
    case _ => -1
  }

  /** The data character for a value, in lower case: BIP 173 lists them as "qpzry9x8gf2tvdw0s3jn54khce6mua7l". */
  function CharOf(v: byte): byte
    requires v < 32
  {
    match v
    case 0 => 113 case 1 => 112 case 2 => 122 case 3 => 114 case 4 => 121 case 5 => 57 case 6 => 120 case 7 => 56
    case 8 => 103 case 9 => 102 case 10 => 50 case 11 => 116 case 12 => 118 case 13 => 100 case 14 => 119 case 15 => 48
    case 16 => 115 case 17 => 51 case 18 => 106 case 19 => 110 case 20 => 53 case 21 => 52 case 22 => 107 case 23 => 104
    case 24 => 99 case 25 => 101 case 26 => 54 case 27 => 109 case 28 => 117 case 29 => 97 case 30 => 55 case _ => 108
  }

  /** The table is the inverse of the character set, for both cases. */
  lemma CharsetInverse(c: byte, v: byte)
    requires v < 32
    ensures ValueOf(c) == v <==> Lower(c) == CharOf(v)
  {
  }

  // ----- what a Bech32 string means -----

  datatype Decoded = Accepted(hrp: seq<byte>, data: seq<byte>) | Rejected

  /** The place of the last '1', or -1. */
  function Separator(s: seq<byte>): (p: int)
    ensures -1 <= p < |s| && (p >= 0 ==> s[p] == ONE)
    ensures forall i | p < i < |s| :: s[i] != ONE
  {
    if s == [] then -1 else if s[|s| - 1] == ONE then |s| - 1 else Separator(s[..|s| - 1])
  }

  /** The lengths are right: 8 to 90 characters, a prefix, a separator, at least the six checksum characters. */
  predicate WellPlaced(s: seq<byte>) {
    8 <= |s| <= 90 && 1 <= Separator(s) && Separator(s) + 7 <= |s|
  }

  /** Prefix characters print, data characters are in the character set. */
  predicate Legible(s: seq<byte>)
    requires WellPlaced(s)
  {
    && (forall i | 0 <= i < Separator(s) :: 33 <= s[i] <= 126)
    && (forall i | Separator(s) < i < |s| :: ValueOf(s[i]) != -1)
  }

  predicate MixedCase(s: seq<byte>) {
    (exists i | 0 <= i < |s| :: IsLower(s[i])) && (exists i | 0 <= i < |s| :: IsUpper(s[i]))
  }

  function Prefix(s: seq<byte>): (h: seq<byte>)
    requires WellPlaced(s)
    ensures |h| == Separator(s)
  {
    seq(Separator(s), i requires 0 <= i < Separator(s) => Lower(s[i]))
  }

  /** The values of all data characters, the checksum's included. */
  function Values(s: seq<byte>): (vs: seq<byte>)
    requires WellPlaced(s) && Legible(s)
    ensures |vs| == |s| - Separator(s) - 1 && forall i | 0 <= i < |vs| :: vs[i] == ValueOf(s[Separator(s) + 1 + i]) < 32
  {
    var p := Separator(s);
    seq(|s| - p - 1, i requires 0 <= i < |s| - p - 1 => ValueOf(s[p + 1 + i]))
  }

  function HighBits(h: seq<byte>): (r: seq<byte>)
    ensures |r| == |h|
  {
    seq(|h|, i requires 0 <= i < |h| => h[i] / 32)
  }

  function LowBits(h: seq<byte>): (r: seq<byte>)
    ensures |r| == |h|
  {
    seq(|h|, i requires 0 <= i < |h| => h[i] % 32)
  }

  /** The symbols that stand for the prefix in the checksum. */
  function Expand(h: seq<byte>): (r: seq<byte>) {
    HighBits(h) + [0] + LowBits(h)
  }

  predicate ChecksumHolds(h: seq<byte>, vs: seq<byte>) {
    Fold(1, Symbols(Expand(h) + vs)) == 1
  }

  /** The string's meaning by BIP 173. */
  function Decode(s: seq<byte>): Decoded {
    if WellPlaced(s) && Legible(s) && !MixedCase(s) && ChecksumHolds(Prefix(s), Values(s)) then
      Accepted(Prefix(s), Values(s)[..|Values(s)| - 6])
    else
      Rejected
  }

  // ----- the decoder -----

  lemma FoldStep(es: seq<bv32>, e: bv32)
    ensures Fold(1, es + [e]) == Xor(Step(Fold(1, es)), e)
  {
    assert (es + [e])[..|es|] == es;
  }

  /** Reading one more symbol. */
  lemma OneMore(vs: seq<byte>, v: byte)
    ensures Fold(1, Symbols(vs + [v])) == Xor(Step(Fold(1, Symbols(vs))), Symbol(v))
  {
    hide Fold, Xor, Step, Symbol;
    assert Symbols(vs + [v]) == Symbols(vs) + [Symbol(v)];
    FoldStep(Symbols(vs), Symbol(v));
  }

  /** The first pass over the prefix: its high bits, in lower case. */
  method ReadPrefix(hrp: array<byte>, s: seq<byte>, n: nat) returns (ok: bool, chk: bv32, lower: bool, upper: bool)
    requires n <= |s| && n < hrp.Length
    modifies hrp
    ensures ok <==> forall i | 0 <= i < n :: 33 <= s[i] <= 126
    ensures ok ==> hrp[..n] == seq(n, i requires 0 <= i < n => Lower(s[i])) && hrp[n] == 0
    ensures ok ==> chk == Fold(1, Symbols(HighBits(hrp[..n])))
    ensures ok ==> (lower <==> exists i | 0 <= i < n :: IsLower(s[i]))
    ensures ok ==> (upper <==> exists i | 0 <= i < n :: IsUpper(s[i]))
  {
    hide Fold, Xor, Step, Symbol;
    chk, lower, upper := 1, false, false;
    assert Symbols(HighBits(hrp[..0])) == [];
    FoldNone();
    for i := 0 to n
      invariant forall j | 0 <= j < i :: 33 <= s[j] <= 126
      invariant forall j | 0 <= j < i :: hrp[j] == Lower(s[j])
      invariant chk == Fold(1, Symbols(HighBits(hrp[..i])))
      invariant lower <==> exists j | 0 <= j < i :: IsLower(s[j])
      invariant upper <==> exists j | 0 <= j < i :: IsUpper(s[j])
    {
      var ch := s[i];
      if ch < 33 || ch > 126 {
        return false, chk, lower, upper;
      }
      if IsLower(ch) {
        lower := true;
      } else if IsUpper(ch) {
        upper := true;
        ch := ch + 32;
      }
      ghost var before := hrp[..i];
      hrp[i] := ch;
      assert hrp[..i + 1] == before + [ch];
      OneMore(HighBits(before), ch / 32);
      assert HighBits(hrp[..i + 1]) == HighBits(before) + [ch / 32];
      chk := Xor(Step(chk), Symbol(ch / 32));
    }
    hrp[n] := 0;
    ok := true;
  }

  lemma FoldNone()
    ensures Fold(1, Symbols([])) == 1
  {
  }

  /** The second pass over the prefix: a zero, then its low bits; case does not matter to them. */
  method ReadPrefixAgain(s: seq<byte>, n: nat, ghost h: seq<byte>, before: bv32) returns (chk: bv32)
    requires n <= |s| && h == seq(n, i requires 0 <= i < n => Lower(s[i]))
    requires before == Fold(1, Symbols(HighBits(h)))
    ensures chk == Fold(1, Symbols(Expand(h)))
  {
    hide Fold, Xor, Step, Symbol;
    chk := Step(before);
    OneMore(HighBits(h), 0);
    XorZero(chk);
    assert HighBits(h) + [0] + LowBits(h[..0]) == HighBits(h) + [0];
    for i := 0 to n
      invariant chk == Fold(1, Symbols(HighBits(h) + [0] + LowBits(h[..i])))
    {
      OneMore(HighBits(h) + [0] + LowBits(h[..i]), s[i] % 32);
      assert h[i] % 32 == s[i] % 32;
      assert HighBits(h) + [0] + LowBits(h[..i + 1]) == HighBits(h) + [0] + LowBits(h[..i]) + [s[i] % 32];
      chk := Xor(Step(chk), Symbol(s[i] % 32));
    }
    assert h[..n] == h;
  }

  lemma XorZero(x: bv32)
    ensures Xor(x, Symbol(0)) == x
  {
  }

  /** The pass over the data part after the separator at `p`; the last six values are not stored. */
  method ReadData(data: array<byte>, s: seq<byte>, p: nat, before: bv32, lower0: bool, upper0: bool,
                  ghost h: seq<byte>)
    returns (ok: bool, chk: bv32, lower: bool, upper: bool)
    requires p + 7 <= |s| && |s| - p - 7 <= data.Length
    requires before == Fold(1, Symbols(Expand(h)))
    modifies data
    ensures ok <==> forall i | p < i < |s| :: ValueOf(s[i]) != -1
    ensures ok ==> forall vs: seq<byte> | |vs| == |s| - p - 1
        && (forall i | 0 <= i < |vs| :: vs[i] == ValueOf(s[p + 1 + i])) ::
              chk == Fold(1, Symbols(Expand(h) + vs)) && data[..|s| - p - 7] == vs[..|vs| - 6]
    ensures ok ==> (lower <==> lower0 || exists i | p < i < |s| :: IsLower(s[i]))
    ensures ok ==> (upper <==> upper0 || exists i | p < i < |s| :: IsUpper(s[i]))
  {
    hide Fold, Xor, Step, Symbol, Expand, ValueOf;
    chk, lower, upper := before, lower0, upper0;
    ghost var vs: seq<byte> := [];
    assert Expand(h) + vs == Expand(h);
    var i := p + 1;
    while i < |s|
      invariant p < i <= |s|
      invariant forall j | p < j < i :: ValueOf(s[j]) != -1
      invariant |vs| == i - p - 1 && forall j | 0 <= j < |vs| :: vs[j] == ValueOf(s[p + 1 + j])
      invariant chk == Fold(1, Symbols(Expand(h) + vs))
      invariant forall j | 0 <= j < |vs| && j < |s| - p - 7 :: data[j] == vs[j]
      invariant lower <==> lower0 || exists j | p < j < i :: IsLower(s[j])
      invariant upper <==> upper0 || exists j | p < j < i :: IsUpper(s[j])
    {
      var v := ValueOf(s[i]);
      if IsLower(s[i]) {
        lower := true;
      }
      if IsUpper(s[i]) {
        upper := true;
      }
      if v == -1 {
        return false, chk, lower, upper;
      }
      OneMore(Expand(h) + vs, v);
      assert Expand(h) + vs + [v] == Expand(h) + (vs + [v]);
      chk := Xor(Step(chk), Symbol(v));
      if i + 6 < |s| {
        data[i - (1 + p)] := v;
      }
      vs := vs + [v];
      i := i + 1;
    }
    ok := true;
    forall ws: seq<byte> | |ws| == |s| - p - 1 && forall i | 0 <= i < |ws| :: ws[i] == ValueOf(s[p + 1 + i])
      ensures ws == vs
    {
    }
    assert data[..|s| - p - 7] == vs[..|vs| - 6];
  }

  /** Counts the characters after the last '1'. */
  method MeasureData(s: seq<byte>) returns (n: nat)
    ensures n == |s| - 1 - Separator(s)
  {
    n := 0;
    assert s[..|s|] == s;
    while n < |s| && s[|s| - 1 - n] != ONE
      invariant n <= |s| && Separator(s) == Separator(s[..|s| - n])
    {
      assert s[..|s| - n][..|s| - n - 1] == s[..|s| - n - 1];
      n := n + 1;
    }
  }

  /** bech32_decode: the buffers hold any prefix and any data part that pass the length checks. */
  method Bech32Decode(hrp: array<byte>, data: array<byte>, s: seq<byte>) returns (ok: bool, dataLen: nat)
    requires hrp.Length == 84 && data.Length == 84 && hrp != data
    modifies hrp, data
    ensures ok <==> Decode(s).Accepted?
    ensures ok ==> dataLen <= 82 && data[..dataLen] == Decode(s).data
    ensures ok ==> var h := Decode(s).hrp; |h| < 84 && hrp[..|h|] == h && hrp[|h|] == 0
  {
    hide Fold, Expand, Symbols, ValueOf, IsLower, IsUpper, Lower;
    ok, dataLen := false, 0;
    if |s| < 8 || |s| > 90 {
      return;
    }
    dataLen := MeasureData(s);
    if 1 + dataLen >= |s| || dataLen < 6 {
      return;
    }
    var n: nat := |s| - (1 + dataLen);
    dataLen := dataLen - 6;
    var fine, chk, lower, upper := ReadPrefix(hrp, s, n);
    if !fine {
      return;
    }
    ghost var h := hrp[..n];
    chk := ReadPrefixAgain(s, n, h, chk);
    fine, chk, lower, upper := ReadData(data, s, n, chk, lower, upper, h);
    if !fine {
      return;
    }
    assert Legible(s) && h == Prefix(s);
    assert chk == Fold(1, Symbols(Expand(h) + Values(s)));
    ModestCase(s, lower, upper);
    if lower && upper {
      return;
    }
    ok := chk == 1;
  }

  /** The separator is no letter, so the two parts tell the case of the whole. */
  lemma ModestCase(s: seq<byte>, lower: bool, upper: bool)
    requires WellPlaced(s)
    requires lower <==> (exists i | 0 <= i < Separator(s) :: IsLower(s[i])) || (exists i | Separator(s) < i < |s| ::
        IsLower(s[i]))
    requires upper <==> (exists i | 0 <= i < Separator(s) :: IsUpper(s[i])) || (exists i | Separator(s) < i < |s| ::
        IsUpper(s[i]))
    ensures lower && upper <==> MixedCase(s)
  {
  }

  // ----- errors -----

  lemma SymbolsFacts(vs: seq<byte>, ws: seq<byte>)
    requires |vs| == |ws| && forall i | 0 <= i < |vs| :: vs[i] < 32 && ws[i] < 32
    ensures FiveBits(Symbols(vs)) && (Symbols(vs) == Symbols(ws) <==> vs == ws)
  {
    hide Symbol;
    forall i | 0 <= i < |vs|
      ensures Symbols(vs)[i] < 32 && (Symbols(vs)[i] == Symbols(ws)[i] <==> vs[i] == ws[i])
    {
      SymbolBits(vs[i], ws[i]);
    }
  }

  /** Two value strings that differ in a window of six do not both have a right checksum. */
  lemma WindowRejected(h: seq<byte>, a: seq<byte>, u: seq<byte>, w: seq<byte>, b: seq<byte>)
    requires |u| == |w| <= 6 && u != w
    requires (forall i | 0 <= i < |u| :: u[i] < 32 && w[i] < 32) && forall i | 0 <= i < |b| :: b[i] < 32
    ensures !(ChecksumHolds(h, a + u + b) && ChecksumHolds(h, a + w + b))
  {
    hide Fold, Expand, Symbol, FiveBits;
    SymbolsFacts(u, w);
    SymbolsFacts(w, u);
    SymbolsFacts(b, b);
    var e := Symbols(Expand(h) + a);
    assert Symbols(Expand(h) + (a + u + b)) == e + Symbols(u) + Symbols(b);
    assert Symbols(Expand(h) + (a + w + b)) == e + Symbols(w) + Symbols(b);
    BurstChangesChecksum(1, e, Symbols(u), Symbols(w), Symbols(b));
  }

  lemma SameSeparator(s: seq<byte>, t: seq<byte>, k: nat)
    requires |t| == |s| && WellPlaced(s) && Separator(s) < k
    requires forall i | 0 <= i < |s| :: if k <= i < k + 6 then t[i] != ONE else t[i] == s[i]
    ensures Separator(t) == Separator(s) && WellPlaced(t)
  {
    assert t[Separator(s)] == ONE;
  }

  /** The values of two strings that agree outside a window agree outside it too. */
  lemma ValuesAgree(s: seq<byte>, t: seq<byte>, k: nat)
    requires WellPlaced(s) && Legible(s) && WellPlaced(t) && Legible(t) && |t| == |s|
        && Separator(t) == Separator(s) < k
    requires forall i | 0 <= i < |s| && !(k <= i < k + 6) :: t[i] == s[i]
    ensures Prefix(t) == Prefix(s)
    ensures forall i | 0 <= i < |Values(s)| && !(k <= i + Separator(s) + 1 < k + 6) :: Values(t)[i] == Values(s)[i]
  {
    hide ValueOf, Lower, Values, Separator, WellPlaced, Legible;
    var p := Separator(s);
    assert forall i | 0 <= i < p :: t[i] == s[i];
    forall i | 0 <= i < |Values(s)| && !(k <= i + p + 1 < k + 6)
      ensures Values(t)[i] == Values(s)[i]
    {
      assert t[p + 1 + i] == s[p + 1 + i];
    }
  }

  lemma WindowsRejected(h: seq<byte>, vs: seq<byte>, ws: seq<byte>, d: nat)
    requires |vs| == |ws| && vs != ws && forall i | 0 <= i < |vs| :: vs[i] < 32 && ws[i] < 32
    requires forall i | 0 <= i < |vs| && !(d <= i < d + 6) :: ws[i] == vs[i]
    ensures !(ChecksumHolds(h, vs) && ChecksumHolds(h, ws))
  {
    hide ChecksumHolds;
    var p := if d <= |vs| then d else |vs|;
    var q := if d + 6 <= |vs| then d + 6 else |vs|;
    assert vs == vs[..p] + vs[p..q] + vs[q..] && ws == ws[..p] + ws[p..q] + ws[q..];
    assert ws[..p] == vs[..p] && ws[q..] == vs[q..];
    WindowRejected(h, vs[..p], vs[p..q], ws[p..q], vs[q..]);
  }

  /** Burst errors: in a string that decodes, overwrite data characters within any six consecutive places by
      any characters but '1'. If some value changes, the result does not decode. */
  lemma BurstRejected(s: seq<byte>, t: seq<byte>, k: nat)
    requires Decode(s).Accepted? && |t| == |s| && Separator(s) < k
    requires forall i | 0 <= i < |s| :: if k <= i < k + 6 then t[i] != ONE else t[i] == s[i]
    requires exists i | 0 <= i < |s| :: ValueOf(t[i]) != ValueOf(s[i])
    ensures Decode(t).Rejected?
  {
    hide ValueOf, ChecksumHolds, MixedCase, Prefix;
    SameSeparator(s, t, k);
    if WellPlaced(t) && Legible(t) {
      ValuesAgree(s, t, k);
      var p := Separator(s);
      var i :| 0 <= i < |s| && ValueOf(t[i]) != ValueOf(s[i]);
      assert Values(s)[i - p - 1] != Values(t)[i - p - 1];
      WindowsRejected(Prefix(s), Values(s), Values(t), k - p - 1);
    }
  }
}
