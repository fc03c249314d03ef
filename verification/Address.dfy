/** util.c: from a payout address to the script that pays it. */
module Address {
  import opened Words
  import opened Radix
  import opened Sha256Spec
  import opened Sha256Bytes
  import opened ConvertBits
  import Bech32Decoder
  import opened Base58
  import opened Script

  // ----- Base58Check -----

  /** How often `x` stands at the front of `s`. */
  function Lead(s: seq<byte>, x: byte): (n: nat)
    ensures n <= |s| && (forall i | 0 <= i < n :: s[i] == x) && (n < |s| ==> s[n] != x)
  {
    if s == [] || s[0] != x then 0 else 1 + Lead(s[1..], x)
  }

  /** The last four bytes are the start of the double hash of the others. */
  predicate ChecksumMatches(bin: seq<byte>)
    requires |bin| >= 4
  {
    bin[|bin| - 4..] == Sha256d(bin[..|bin| - 4])[..4]
  }

  /** The string has as many leading '1's as the number has leading zero bytes. */
  predicate LeadsAgree(bin: seq<byte>, b58: seq<byte>) {
    Lead(bin, 0) == Lead(b58, ONE) && Lead(bin, 0) < |bin|
  }

  /** b58check: -1 for a bad checksum, -3 for the wrong number of leading zeros, or else the version byte.
      The scan stops at the end of `bin`. */
  method B58Check(bin: array<byte>, binsz: nat, b58: seq<byte>) returns (r: int)
    requires 4 < binsz <= bin.Length && binsz < 0x1000_0000
    ensures r == if !ChecksumMatches(bin[..binsz]) then -1 else if !LeadsAgree(bin[..binsz], b58) then -3 else bin[0]
  {
    hide Sha256Spec.Sha256d, Lead;
    var buf := new byte[32](_ => 0);
    Sha256dBuffer(buf, 0, bin, 0, binsz - 4);
    ghost var s := bin[..binsz];
    assert bin[0..0 + (binsz - 4)] == s[..|s| - 4];
    assert buf[..4] == buf[0..32][..4];
    assert bin[binsz - 4..binsz] == s[|s| - 4..];
    if bin[binsz - 4..binsz] != buf[..4] {
      return -1;
    }
    var i := 0;
    while i < binsz && bin[i] == 0 && i < |b58| && b58[i] == ONE
      invariant i <= Lead(s, 0) && i <= Lead(b58, ONE)
    {
      LeadReaches(s, 0, i);
      LeadReaches(b58, ONE, i);
      i := i + 1;
    }
    if i == binsz || bin[i] == 0 || (i < |b58| && b58[i] == ONE) {
      return -3;
    }
    r := bin[0];
  }

  lemma LeadReaches(s: seq<byte>, x: byte, i: nat)
    requires i < |s| && i <= Lead(s, x) && s[i] == x
    ensures i < Lead(s, x)
  {
  }

  /** Leading zeros do not count. */
  lemma {:induction false} SkipZeros(s: seq<nat>, k: nat, base: nat)
    requires k <= |s| && forall i | 0 <= i < k :: s[i] == 0
    ensures Number(s, base) == Number(s[k..], base)
  {
    if k > 0 {
      assert s == [0] + s[1..];
      NumberOfCons(0, s[1..], base);
      SkipZeros(s[1..], k - 1, base);
      assert s[1..][k - 1..] == s[k..];
    } else {
      assert s[0..] == s;
    }
  }

  /** A numeral that starts with a nonzero digit is at least the power of its place. */
  lemma LeadingDigit(s: seq<nat>, base: nat)
    requires s != [] && s[0] > 0
    ensures Number(s, base) >= Power(base, |s| - 1)
  {
    assert s == [s[0]] + s[1..];
    NumberOfCons(s[0], s[1..], base);
    Monotone(1, s[0], Power(base, |s| - 1));
  }

  lemma {:induction false} PowerMonotone(base: nat, j: nat, k: nat)
    requires j <= k && base > 0
    ensures Power(base, j) <= Power(base, k)
  {
    PowerAdds(base, j, k - j);
    Monotone(1, Power(base, k - j), Power(base, j));
  }

  /** Numerals without leading zeros have the same length if they are the same number. */
  lemma SameLength(s: seq<nat>, t: seq<nat>, base: nat)
    requires base > 0 && Number(s, base) == Number(t, base)
    requires (s != [] ==> s[0] > 0) && (t != [] ==> t[0] > 0)
    requires (forall i | 0 <= i < |s| :: s[i] < base) && forall i | 0 <= i < |t| :: t[i] < base
    ensures |s| == |t|
  {
    hide Number, Power;
    NumberBound(s, base);
    NumberBound(t, base);
    if |s| < |t| {
      LeadingDigit(t, base);
      PowerMonotone(base, |s|, |t| - 1);
    } else if |t| < |s| {
      LeadingDigit(s, base);
      PowerMonotone(base, |t|, |s| - 1);
    }
  }

  lemma OneIsZero(ch: byte)
    ensures DigitOf(ch) == 0 <==> ch == ONE
  {
  }

  lemma SignificantDigits(s: seq<byte>)
    requires Legible(s)
    ensures var d := Digits(s)[Lead(s, ONE)..];
            && Number(d, 58) == ValueOf(s) && (d != [] ==> d[0] > 0)
            && forall i | 0 <= i < |d| :: d[i] < 58
  {
    hide DigitOf, Number;
    var k := Lead(s, ONE);
    forall i | 0 <= i < |s|
      ensures Digits(s)[i] == 0 <==> s[i] == ONE
    {
      OneIsZero(s[i]);
    }
    SkipZeros(Digits(s), k, 58);
  }

  /** The check on leading zeros makes addresses unique: two strings with the same value and the same number
      of leading '1's are the same. */
  lemma Base58Unique(s: seq<byte>, t: seq<byte>)
    requires Legible(s) && Legible(t) && ValueOf(s) == ValueOf(t) && Lead(s, ONE) == Lead(t, ONE)
    ensures s == t
  {
    hide DigitOf, Number, ValueOf, Power;
    var k := Lead(s, ONE);
    SignificantDigits(s);
    SignificantDigits(t);
    var d, e := Digits(s)[k..], Digits(t)[k..];
    SameLength(d, e, 58);
    NumeralUnique(d, e, 58);
    forall i | 0 <= i < |s|
      ensures s[i] == t[i]
    {
      if i >= k {
        assert d[i - k] == DigitOf(s[i]) && e[i - k] == DigitOf(t[i]);
        SameDigit(s[i], t[i]);
      }
    }
  }

  lemma SameDigit(a: byte, b: byte)
    requires DigitOf(a) == DigitOf(b) < 58
    ensures a == b
  {
  }

  // ----- Bech32 addresses -----

  /** `addr` is a segwit address for version `ver` and program `prog`. The prefix is not looked at. */
  predicate IsWitness(addr: seq<byte>, ver: byte, prog: seq<byte>) {
    match Bech32Decoder.Decode(addr)
    case Rejected => false
    case Accepted(_, d) =>
      && 1 <= |d| <= 65 && d[0] <= 16 && ver == d[0]
      && Regrouped(d[1..], 5, 8, false, prog, true)
      && 2 <= |prog| <= 40 && (ver == 0 ==> |prog| == 20 || |prog| == 32)
  }

  lemma RegroupedOnce(s: seq<byte>, t: seq<byte>, u: seq<byte>, okT: bool, okU: bool)
    requires Regrouped(s, 5, 8, false, t, okT) && Regrouped(s, 5, 8, false, u, okU)
    ensures t == u && okT == okU
  {
    hide BitsOf, Power;
    SameBits(t, u, 8);
  }

  lemma DecodedFits(addr: seq<byte>)
    requires Bech32Decoder.Decode(addr).Accepted?
    ensures Fits(Bech32Decoder.Decode(addr).data, 5)
  {
    assert Power(2, 5) == 32;
  }

  /** segwit_addr_decode. */
  method SegwitAddrDecode(witdata: array<byte>, addr: seq<byte>) returns (ok: bool, witver: byte, len: nat)
    requires witdata.Length == 40
    modifies witdata
    ensures ok ==> len <= 40 && IsWitness(addr, witver, witdata[..len])
    ensures !ok ==> forall v, prog :: !IsWitness(addr, v, prog)
  {
    hide Regrouped, Fits, Bech32Decoder.Decode;
    ok, witver, len := false, 0, 0;
    var data, hrp := new byte[84](_ => 0), new byte[84](_ => 0);
    var fine, dataLen := Bech32Decoder.Bech32Decode(hrp, data, addr);
    if !fine {
      return;
    }
    ghost var d := data[..dataLen];
    if dataLen == 0 || dataLen > 65 || data[0] > 16 {
      return;
    }
    DecodedFits(addr);
    FitsRest(d);
    assert data[1..dataLen] == d[1..];
    fine, len := Convert(witdata, 0, 8, data[1..dataLen], 5, false);
    ghost var t := witdata[0..len];
    assert witdata[..len] == t;
    forall v, prog | IsWitness(addr, v, prog)
      ensures fine && prog == t && v == d[0]
    {
      RegroupedOnce(d[1..], t, prog, fine, true);
    }
    if !fine || len < 2 || len > 40 || (data[0] == 0 && len != 20 && len != 32) {
      return;
    }
    ok, witver := true, data[0];
  }

  lemma FitsRest(d: seq<byte>)
    requires d != [] && Fits(d, 5)
    ensures Fits(d[1..], 5)
  {
  }

  /** The script that pays to a witness program: its version opcode, then the program as one push. */
  function WitnessScript(ver: byte, prog: seq<byte>): seq<byte>
    requires ver <= 16 && |prog| <= 40
  {
    [if ver == 0 then 0 else 0x50 + ver, |prog|] + prog
  }

  /** The network reads that version and program from it. */
  lemma WitnessScriptReads(ver: byte, prog: seq<byte>)
    requires ver <= 16 && 2 <= |prog| <= 40
    ensures WitnessOf(WitnessScript(ver, prog)) == Program(ver, prog)
  {
    assert WitnessScript(ver, prog)[2..] == prog;
  }

  /** `script` pays to the witness program of a segwit address: it is read as that program. */
  ghost predicate PaysWitness(addr: seq<byte>, script: seq<byte>) {
    exists ver: byte, prog :: IsWitness(addr, ver, prog) && ver <= 16 && |prog| <= 40
        && script == WitnessScript(ver, prog) && WitnessOf(script) == Program(ver, prog)
  }

  /** No witness program of the address leaves a script that fits. */
  ghost predicate NoWitnessFits(addr: seq<byte>, outsz: nat) {
    forall ver: byte, prog :: IsWitness(addr, ver, prog) ==> outsz < |prog| + 2
  }

  /** memcpy. */
  method CopyBytes(out: array<byte>, at: nat, src: array<byte>, from: nat, len: nat)
    requires at + len <= out.Length && from + len <= src.Length && out != src
    modifies out
    ensures out[at..at + len] == src[from..from + len]
    ensures out[..at] == old(out[..at]) && out[at + len..] == old(out[at + len..])
  {
    for i := 0 to len
      modifies out
      invariant out[at..at + i] == src[from..from + i]
      invariant out[..at] == old(out[..at]) && out[at + len..] == old(out[at + len..])
    {
      ghost var done := out[at..at + i];
      out[at + i] := src[from + i];
      assert out[at..at + i + 1] == done + [src[from + i]];
    }
  }

  /** bech32_to_script: 0 if the address is none or the script does not fit. */
  method Bech32ToScript(out: array<byte>, outsz: nat, addr: seq<byte>) returns (n: nat)
    requires outsz <= out.Length
    modifies out
    ensures n > 0 ==> n <= outsz && PaysWitness(addr, out[..n])
    ensures n == 0 ==> NoWitnessFits(addr, outsz)
    ensures n <= outsz && out[n..] == old(out[n..])
  {
    hide IsWitness;
    var witprog := new byte[40](_ => 0);
    var ok, ver, len := SegwitAddrDecode(witprog, addr);
    if !ok {
      return 0;
    }
    ghost var prog := witprog[..len];
    WitnessBounds(addr, ver, prog);
    forall v, p | IsWitness(addr, v, p) ensures p == prog {
      WitnessOnce(addr, ver, prog, v, p);
    }
    if outsz < len + 2 {
      return 0;
    }
    out[0] := if ver == 0 then 0 else 0x50 + ver;
    out[1] := len;
    ghost var head := out[..2];
    CopyBytes(out, 2, witprog, 0, len);
    n := len + 2;
    assert out[..n] == head + out[2..2 + len] == WitnessScript(ver, prog);
    WitnessScriptReads(ver, prog);
  }

  lemma WitnessBounds(addr: seq<byte>, ver: byte, prog: seq<byte>)
    requires IsWitness(addr, ver, prog)
    ensures ver <= 16 && 2 <= |prog| <= 40
  {
  }

  lemma WitnessOnce(addr: seq<byte>, v: byte, p: seq<byte>, w: byte, q: seq<byte>)
    requires IsWitness(addr, v, p) && IsWitness(addr, w, q)
    ensures v == w && p == q
  {
    hide Regrouped, Bech32Decoder.Decode;
    RegroupedOnce(Bech32Decoder.Decode(addr).data[1..], p, q, true, true);
  }

  // ----- any address -----

  /** The 25 bytes a Base58 address stands for: version, hash and checksum. */
  predicate IsPayload(addr: seq<byte>, bin: seq<byte>) {
    |bin| == 25 && Legible(addr) && Number(bin, 0x100) == ValueOf(addr)
  }

  predicate IsBase58(addr: seq<byte>) {
    Legible(addr) && ValueOf(addr) < Power(0x100, 25)
  }

  /** Pays to a script hash for versions 5 and 196, to a key hash for every other version. */
  function HashScript(bin: seq<byte>): seq<byte>
    requires |bin| == 25
  {
    if bin[0] == 5 || bin[0] == 196 then [0xa9, 0x14] + bin[1..21] + [0x87]
    else [0x76, 0xa9, 0x14] + bin[1..21] + [0x88, 0xac]
  }

  /** What a script must do to pay to an address with these 25 bytes. */
  ghost predicate PaysTo(script: seq<byte>, bin: seq<byte>)
    requires |bin| == 25
  {
    if bin[0] == 5 || bin[0] == 196 then OpensByPreimage(script, bin[1..21]) else OpensByKey(script, bin[1..21])
  }

  lemma HashScriptPays(bin: seq<byte>)
    requires |bin| == 25
    ensures PaysTo(HashScript(bin), bin)
  {
    hide OpensByPreimage, OpensByKey;
    PreimageScript(bin[1..21]);
    KeyScript(bin[1..21]);
  }

  lemma PayloadOnce(addr: seq<byte>, p: seq<byte>, q: seq<byte>)
    requires IsPayload(addr, p) && IsPayload(addr, q)
    ensures p == q
  {
    hide Number, Legible, ValueOf;
    NumeralUnique(p, q, 0x100);
  }

  /** The script for a script hash: 23 bytes. */
  method WriteToScriptHash(out: array<byte>, bin: array<byte>)
    requires 23 <= out.Length && bin.Length == 25 && out != bin
    modifies out
    ensures out[..23] == [0xa9, 0x14] + bin[1..21] + [0x87] && out[23..] == old(out[23..])
  {
    ghost var rest := out[23..];
    out[0], out[1] := 0xa9, 0x14;
    CopyBytes(out, 2, bin, 1, 20);
    ghost var front := out[..22];
    assert front == out[..2] + out[2..2 + 20];
    out[22] := 0x87;
    assert out[..23] == front + [0x87] && out[23..] == rest;
  }

  /** The script for a key hash: 25 bytes. */
  method WriteToKeyHash(out: array<byte>, bin: array<byte>)
    requires 25 <= out.Length && bin.Length == 25 && out != bin
    modifies out
    ensures out[..25] == [0x76, 0xa9, 0x14] + bin[1..21] + [0x88, 0xac] && out[25..] == old(out[25..])
  {
    ghost var rest := out[25..];
    out[0], out[1], out[2] := 0x76, 0xa9, 0x14;
    CopyBytes(out, 3, bin, 1, 20);
    ghost var front := out[..23];
    assert front == out[..3] + out[3..3 + 20];
    out[23], out[24] := 0x88, 0xac;
    assert out[..25] == front + [0x88, 0xac] && out[25..] == rest;
  }

  /** The scripts address_to_script writes for the 25 bytes; the length needed if they do not fit. */
  method WriteHashScript(out: array<byte>, outsz: nat, bin: array<byte>) returns (n: nat)
    requires outsz <= out.Length && bin.Length == 25 && out != bin
    modifies out
    ensures n == |HashScript(bin[..])| && (n <= outsz ==> out[..n] == HashScript(bin[..]))
    ensures if n <= outsz then out[n..] == old(out[n..]) else out[..] == old(out[..])
  {
    assert bin[1..21] == bin[..][1..21];
    if bin[0] == 5 || bin[0] == 196 {
      n := 23;
      if outsz < n {
        return;
      }
      WriteToScriptHash(out, bin);
    } else {
      n := 25;
      if outsz < n {
        return;
      }
      WriteToKeyHash(out, bin);
    }
  }

  /** What a Base58 address gives: the script of its payload, or the length of it if that is more than
      `outsz`; nothing if the checksum or the leading zeros are wrong. */
  ghost predicate PaysHash(addr: seq<byte>, outsz: nat, n: nat, out: seq<byte>)
    requires outsz <= |out|
  {
    forall bin | IsPayload(addr, bin) ::
      if ChecksumMatches(bin) && LeadsAgree(bin, addr)
      then n == |HashScript(bin)| && (n <= outsz ==> out[..n] == HashScript(bin) && PaysTo(out[..n], bin))
      else n == 0
  }

  /** address_to_script: tries Base58 first, and Bech32 only if that cannot be read. */
  method AddressToScript(out: array<byte>, outsz: nat, addr: seq<byte>) returns (n: nat)
    requires outsz <= out.Length
    modifies out
    ensures IsBase58(addr) ==> PaysHash(addr, outsz, n, out[..])
    ensures !IsBase58(addr) ==> n <= outsz && if n > 0 then PaysWitness(addr, out[..n]) else NoWitnessFits(addr, outsz)
    ensures if n <= outsz then out[n..] == old(out[n..]) else out[..] == old(out[..])
  {
    hide Number, Power, Legible, ValueOf, PaysWitness, NoWitnessFits, ChecksumMatches, LeadsAgree, HashScript, PaysTo;
    var addrbin := new byte[25](_ => 0);
    var ok := B58Dec(addrbin, 25, addr);
    assert ok <==> IsBase58(addr);
    if !ok {
      n := Bech32ToScript(out, outsz, addr);
      return;
    }
    ghost var payload := addrbin[..25];
    assert addrbin[..] == payload;
    forall bin | IsPayload(addr, bin) ensures bin == payload {
      PayloadOnce(addr, bin, payload);
    }
    var addrver := B58Check(addrbin, 25, addr);
    if addrver < 0 {
      return 0;
    }
    n := WriteHashScript(out, outsz, addrbin);
    HashScriptPays(payload);
  }

  /** Two Base58 addresses that pass with the same bytes are the same string. */
  lemma AddressUnique(s: seq<byte>, t: seq<byte>, bin: seq<byte>)
    requires IsPayload(s, bin) && IsPayload(t, bin) && LeadsAgree(bin, s) && LeadsAgree(bin, t)
    ensures s == t
  {
    hide Number, Legible, ValueOf, Lead;
    Base58Unique(s, t);
  }
}
