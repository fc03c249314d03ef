/** util.c: convert_bits, which regroups a bit string from `inbits` to `outbits` bits per element. */
module ConvertBits {
  import opened Words
  import opened Radix

  /** Elements of `bits` bits each. */
  predicate Fits(s: seq<byte>, bits: nat) {
    forall i | 0 <= i < |s| :: s[i] < Power(2, bits)
  }

  /** The bit string of `s` as a number. */
  function BitsOf(s: seq<byte>, bits: nat): nat {
    Number(s, Power(2, bits))
  }

  /** How many bits are left over when `n` elements are regrouped. */
  function Leftover(n: nat, inbits: nat, outbits: nat): nat
    requires outbits > 0
  {
    inbits * n % outbits
  }

  /** `t` is the regrouping of `s`: the same bits from the front in elements of the other width. With padding
      the leftover bits fill one more element from the top; without it they are dropped, and the conversion
      succeeds exactly when there are fewer of them than one input element has and they are all zero. */
  predicate Regrouped(s: seq<byte>, inbits: nat, outbits: nat, pad: bool, t: seq<byte>, ok: bool)
    requires inbits > 0 && outbits > 0
  {
    var r := Leftover(|s|, inbits, outbits);
    var more := pad && r > 0;
    && |t| == inbits * |s| / outbits + (if more then 1 else 0)
    && Fits(t, outbits)
    && BitsOf(t, outbits)
        == (if more then BitsOf(s, inbits) * Power(2, outbits - r) else BitsOf(s, inbits) / Power(2, r))
    && (ok <==> pad || (r < inbits && BitsOf(s, inbits) % Power(2, r) == 0))
  }

  // ----- arithmetic of shifts -----

  /** The remainder by a product, in two parts. */
  lemma SplitMod(v: nat, a: nat, b: nat)
    requires a > 0 && b > 0
    ensures a * b > 0 && v % (a * b) == (v / b % a) * b + v % b
  {
    var q, d, m := v / b / a, v / b % a, v % b;
    assert v / b == q * a + d;
    assert v == (q * a + d) * b + m;
    Distribute(q * a, d, b);
    Regroup(q, a, b);
    Monotone(d + 1, a, b);
    Distribute(d, 1, b);
    DivModUnique(v, a * b, q, d * b + m);
  }

  /** Shifting in a 32-bit register keeps the lower bits. */
  lemma ShiftMod(v: nat, x: nat, a: nat, s: nat, c: nat)
    requires a > 0 && s > 0 && x < s && a * s * c == 0x1_0000_0000
    ensures a * s > 0 && (W32(v * s) + x) % (a * s) == (v % a) * s + x
  {
    var w, k := W32(v * s), v * s / 0x1_0000_0000;
    var q, m := v / a, v % a;
    assert v * s == k * 0x1_0000_0000 + w;
    assert v == q * a + m;
    Distribute(q * a, m, s);
    Regroup(q, a, s);
    Regroup(k, a * s, c);
    assert k * (a * s * c) == (k * c) * (a * s) by { Regroup(k, c, a * s); }
    Distribute(q, 0 - k * c, a * s);
    assert w + x == (q - k * c) * (a * s) + (m * s + x);
    Monotone(m + 1, a, s);
    Distribute(m, 1, s);
    ModOfSum(q - k * c, a * s, m * s + x);
  }

  lemma ModOfSum(q: int, b: nat, m: nat)
    requires m < b
    ensures (q * b + m) % b == m
  {
    var n := q * b + m;
    var q', m' := n / b, n % b;
    assert q' * b + m' == n;
    if q < q' {
      Monotone(q + 1, q', b);
      Distribute(q, 1, b);
    } else if q' < q {
      Monotone(q' + 1, q, b);
      Distribute(q', 1, b);
    }
  }

  lemma Power32()
    ensures Power(2, 32) == 0x1_0000_0000
  {
    assert Power(2, 8) == 0x100;
    PowerAdds(2, 8, 8);
    PowerAdds(2, 16, 16);
  }

  lemma RegisterSplit(a: nat, b: nat)
    requires a + b <= 32
    ensures Power(2, a) * Power(2, b) * Power(2, 32 - a - b) == 0x1_0000_0000
  {
    PowerAdds(2, a, b);
    PowerAdds(2, a + b, 32 - a - b);
    Power32();
  }

  // ----- the conversion -----

  /** Halfway: the elements written and the `bits` low bits of `val` make up all bits read. */
  predicate Halfway(read: seq<byte>, inbits: nat, written: seq<byte>, outbits: nat, val: word, bits: nat) {
    && Fits(written, outbits)
    && inbits * |read| == outbits * |written| + bits
    && BitsOf(read, inbits) == BitsOf(written, outbits) * Power(2, bits) + val % Power(2, bits)
  }

  /** val = (val << inbits) | x, in 32 bits. */
  function ShiftIn(val: word, inbits: nat, x: byte): nat {
    W32(val * Power(2, inbits)) + x
  }

  lemma ShiftInIs(val: word, bits: nat, inbits: nat, x: byte)
    requires bits + inbits <= 32 && x < Power(2, inbits)
    ensures ShiftIn(val, inbits, x) < 0x1_0000_0000
    ensures ShiftIn(val, inbits, x) % Power(2, bits + inbits) == val % Power(2, bits) * Power(2, inbits) + x
  {
    hide Power, W32;
    var s, a, c := Power(2, inbits), Power(2, bits), Power(2, 32 - bits - inbits);
    RegisterSplit(bits, inbits);
    ShiftMod(val, x, a, s, c);
    PowerAdds(2, bits, inbits);
    Regroup(s, a, c);
    StaysInRegister(val, x, s, a * c);
  }

  lemma ReadOne(read: seq<byte>, inbits: nat, written: seq<byte>, outbits: nat, val: word, bits: nat, x: byte)
    requires Halfway(read, inbits, written, outbits, val, bits)
    requires bits + inbits <= 32 && x < Power(2, inbits)
    ensures ShiftIn(val, inbits, x) < 0x1_0000_0000
    ensures Halfway(read + [x], inbits, written, outbits, ShiftIn(val, inbits, x), bits + inbits)
  {
    hide Power, ShiftIn, BitsOf, Fits;
    ShiftInIs(val, bits, inbits, x);
    PowerAdds(2, bits, inbits);
    BitsOfMore(read, x, inbits);
    ShiftSum(BitsOf(written, outbits), Power(2, bits), val % Power(2, bits), Power(2, inbits));
    NextMultiple(inbits, |read|);
  }

  lemma BitsOfMore(s: seq<byte>, x: byte, bits: nat)
    ensures BitsOf(s + [x], bits) == BitsOf(s, bits) * Power(2, bits) + x
  {
    hide Power;
    assert (s + [x])[..|s|] == s;
  }

  lemma ShiftSum(o: int, a: int, m: int, s: int)
    ensures (o * a + m) * s == o * (a * s) + m * s
  {
    Distribute(o * a, m, s);
    Regroup(o, a, s);
  }

  lemma NextMultiple(b: nat, n: nat)
    ensures b * (n + 1) == b * n + b
  {
  }

  lemma StaysInRegister(v: nat, x: nat, s: nat, d: nat)
    requires s > 0 && x < s && s * d == 0x1_0000_0000
    ensures W32(v * s) + x < 0x1_0000_0000
  {
    var w, k := W32(v * s), v * s / 0x1_0000_0000;
    assert v * s == k * 0x1_0000_0000 + w;
    Regroup(k, s, d);
    Regroup(k, d, s);
    Distribute(v, 0 - k * d, s);
    assert w == (v - k * d) * s;
    if v - k * d >= d {
      Monotone(d, v - k * d, s);
    } else {
      Monotone(v - k * d + 1, d, s);
      Distribute(v - k * d, 1, s);
    }
  }

  lemma WriteOne(read: seq<byte>, inbits: nat, written: seq<byte>, outbits: nat, val: word, bits: nat)
    requires Halfway(read, inbits, written, outbits, val, bits)
    requires 0 < outbits <= 8 && outbits <= bits
    ensures var o := val / Power(2, bits - outbits) % Power(2, outbits);
            o < 0x100 && Halfway(read, inbits, written + [o], outbits, val, bits - outbits)
  {
    hide Power, BitsOf;
    var b, a := Power(2, bits - outbits), Power(2, outbits);
    PowerAdds(2, outbits, bits - outbits);
    SplitMod(val, a, b);
    var o := val / b % a;
    ByteRoom(outbits);
    BitsOfMore(written, o, outbits);
    ShiftSum(BitsOf(written, outbits), a, o, b);
    NextMultiple(outbits, |written|);
    FitsMore(written, o, outbits);
  }

  lemma ByteRoom(bits: nat)
    requires bits <= 8
    ensures Power(2, bits) <= 0x100
  {
    PowerAdds(2, bits, 8 - bits);
    assert Power(2, 8) == 0x100;
    Monotone(1, Power(2, 8 - bits), Power(2, bits));
  }

  /** The last element that padding adds. */
  function Last(val: word, bits: nat, outbits: nat): nat
    requires bits < outbits
  {
    W32(val * Power(2, outbits - bits)) % Power(2, outbits)
  }

  lemma LastIs(val: word, bits: nat, outbits: nat)
    requires bits < outbits <= 8
    ensures Last(val, bits, outbits) == val % Power(2, bits) * Power(2, outbits - bits)
    ensures Last(val, bits, outbits) < Power(2, outbits) <= 0x100
    ensures Last(val, bits, outbits) == 0 <==> val % Power(2, bits) == 0
  {
    hide Power, W32;
    RegisterSplit(bits, outbits - bits);
    ShiftMod(val, 0, Power(2, bits), Power(2, outbits - bits), Power(2, 32 - outbits));
    PowerAdds(2, bits, outbits - bits);
    ZeroProduct(val % Power(2, bits), Power(2, outbits - bits));
    ByteRoom(outbits);
  }

  lemma FinishPadded(s: seq<byte>, inbits: nat, written: seq<byte>, outbits: nat, val: word, bits: nat)
    requires Halfway(s, inbits, written, outbits, val, bits)
    requires 0 < inbits && bits < outbits <= 8
    ensures Last(val, bits, outbits) < 0x100
    ensures bits == 0 ==> Regrouped(s, inbits, outbits, true, written, true)
    ensures bits > 0 ==> Regrouped(s, inbits, outbits, true, written + [Last(val, bits, outbits)], true)
  {
    hide Power, W32, Fits, Last, BitsOf;
    DivModUnique(inbits * |s|, outbits, |written|, bits);
    LastIs(val, bits, outbits);
    if bits == 0 {
      PowerZero();
    } else {
      var last := Last(val, bits, outbits);
      BitsOfMore(written, last, outbits);
      PowerAdds(2, bits, outbits - bits);
      ShiftSum(BitsOf(written, outbits), Power(2, bits), val % Power(2, bits), Power(2, outbits - bits));
      FitsMore(written, last, outbits);
    }
  }

  lemma FinishUnpadded(s: seq<byte>, inbits: nat, written: seq<byte>, outbits: nat, val: word, bits: nat)
    requires Halfway(s, inbits, written, outbits, val, bits)
    requires 0 < inbits && bits < outbits <= 8
    ensures Regrouped(s, inbits, outbits, false, written, Last(val, bits, outbits) == 0 && bits < inbits)
  {
    hide Power, W32, Fits, Last;
    DivModUnique(inbits * |s|, outbits, |written|, bits);
    DivModUnique(BitsOf(s, inbits), Power(2, bits), BitsOf(written, outbits), val % Power(2, bits));
    LastIs(val, bits, outbits);
  }

  lemma FitsMore(s: seq<byte>, x: byte, bits: nat)
    requires Fits(s, bits) && x < Power(2, bits)
    ensures Fits(s + [x], bits)
  {
  }

  lemma PowerZero()
    ensures Power(2, 0) == 1
  {
  }

  lemma ZeroProduct(a: nat, b: nat)
    requires b > 0
    ensures a * b == 0 <==> a == 0
  {
    Monotone(1, b, a);
  }

  /** convert_bits. `val` loses its high bits as it goes, `val << n` being taken in 32 bits; an element that
      is or-ed in has its bits where the shift left zeros, so it is added here. */
  method Convert(out: array<byte>, outlen0: nat, outbits: nat, ins: seq<byte>, inbits: nat, pad: bool)
    returns (ok: bool, outlen: nat)
    requires 0 < inbits <= 8 && 0 < outbits <= 8 && Fits(ins, inbits)
    requires outlen0 + inbits * |ins| / outbits + (if pad then 1 else 0) <= out.Length
    modifies out
    ensures outlen0 <= outlen <= out.Length && out[..outlen0] == old(out[..outlen0])
    ensures Regrouped(ins, inbits, outbits, pad, out[outlen0..outlen], ok)
  {
    hide Power, W32, Halfway, Regrouped, Last, ShiftIn;
    var val: word, bits: nat := 0, 0;
    outlen := outlen0;
    HalfwayStart(inbits, outbits, ins, out[outlen0..outlen0]);
    for i := 0 to |ins|
      invariant bits < outbits && outlen0 <= outlen <= out.Length
      invariant out[..outlen0] == old(out[..outlen0])
      invariant Halfway(ins[..i], inbits, out[outlen0..outlen], outbits, val, bits)
    {
      ReadOne(ins[..i], inbits, out[outlen0..outlen], outbits, val, bits, ins[i]);
      assert ins[..i + 1] == ins[..i] + [ins[i]];
      val := ShiftIn(val, inbits, ins[i]);
      bits := bits + inbits;
      while bits >= outbits
        invariant bits < outbits + inbits && outlen0 <= outlen <= out.Length
        invariant out[..outlen0] == old(out[..outlen0])
        invariant Halfway(ins[..i + 1], inbits, out[outlen0..outlen], outbits, val, bits)
      {
        bits := bits - outbits;
        HasRoom(ins, i + 1, inbits, out[outlen0..outlen], outbits, val, bits + outbits);
        WriteOne(ins[..i + 1], inbits, out[outlen0..outlen], outbits, val, bits + outbits);
        ghost var written := out[outlen0..outlen];
        out[outlen] := val / Power(2, bits) % Power(2, outbits);
        outlen := outlen + 1;
        assert out[outlen0..outlen] == written + [out[outlen - 1]];
      }
    }
    assert ins[..|ins|] == ins;
    ghost var written := out[outlen0..outlen];
    FinishPadded(ins, inbits, written, outbits, val, bits);
    FinishUnpadded(ins, inbits, written, outbits, val, bits);
    var last := Last(val, bits, outbits);
    if pad {
      if bits > 0 {
        HasRoomForLast(ins, inbits, written, outbits, val, bits);
        out[outlen] := last;
        outlen := outlen + 1;
        assert out[outlen0..outlen] == written + [last];
      }
    } else if last != 0 || bits >= inbits {
      return false, outlen;
    }
    ok := true;
  }

  lemma HalfwayStart(inbits: nat, outbits: nat, ins: seq<byte>, written: seq<byte>)
    requires written == []
    ensures Halfway(ins[..0], inbits, written, outbits, 0, 0)
  {
  }

  lemma HasRoom(ins: seq<byte>, i: nat, inbits: nat, written: seq<byte>, outbits: nat, val: word, bits: nat)
    requires i <= |ins| && Halfway(ins[..i], inbits, written, outbits, val, bits) && 0 < outbits <= bits
    ensures |written| < inbits * |ins| / outbits
  {
    hide BitsOf, Fits, Power;
    var n, w := inbits * |ins|, |written|;
    Monotone(i, |ins|, inbits);
    assert outbits * w + outbits <= n;
    var q, m := n / outbits, n % outbits;
    assert n == outbits * q + m;
    if w >= q {
      Monotone(q, w, outbits);
    }
  }

  lemma HasRoomForLast(ins: seq<byte>, inbits: nat, written: seq<byte>, outbits: nat, val: word, bits: nat)
    requires Halfway(ins, inbits, written, outbits, val, bits) && bits < outbits
    ensures |written| == inbits * |ins| / outbits
  {
    DivModUnique(inbits * |ins|, outbits, |written|, bits);
  }

  // ----- what the address code needs of it -----

  lemma BytesFit(s: seq<byte>)
    ensures Fits(s, 8)
  {
    assert Power(2, 8) == 0x100;
  }

  lemma SameBits(s: seq<byte>, t: seq<byte>, bits: nat)
    requires |s| == |t| && Fits(s, bits) && Fits(t, bits) && BitsOf(s, bits) == BitsOf(t, bits)
    ensures s == t
  {
    hide Power, Number;
    NumeralUnique(s, t, Power(2, bits));
  }

  lemma TimesThenDivided(n: nat, p: nat)
    requires p > 0
    ensures n * p / p == n && n * p % p == 0
  {
    DivModUnique(n * p, p, n, 0);
  }

  lemma PaddedLength(n: nat, m: nat)
    requires m == 8 * n / 5 + (if 8 * n % 5 > 0 then 1 else 0)
    ensures 5 * m / 8 == n && 5 * m % 8 == if 8 * n % 5 > 0 then 5 - 8 * n % 5 else 0
  {
    var p := if 8 * n % 5 > 0 then 5 - 8 * n % 5 else 0;
    assert 5 * m == n * 8 + p;
    DivModUnique(5 * m, 8, n, p);
  }

  /** Bytes regrouped to five bits with padding come back whole when regrouped without. */
  lemma RoundTrip(b: seq<byte>, t: seq<byte>, u: seq<byte>, ok1: bool, ok2: bool)
    requires Regrouped(b, 8, 5, true, t, ok1) && Regrouped(t, 5, 8, false, u, ok2)
    ensures ok1 && ok2 && u == b
  {
    hide Power, BitsOf, Fits;
    var r := 8 * |b| % 5;
    var p: nat := if r > 0 then 5 - r else 0;
    PaddedLength(|b|, |t|);
    TimesThenDivided(BitsOf(b, 8), Power(2, p));
    PowerZero();
    BytesFit(b);
    SameBits(u, b, 8);
  }

  /** And five-bit values accepted without padding are the only ones that give their bytes. */
  lemma Canonical(t: seq<byte>, u: seq<byte>, v: seq<byte>, ok: bool)
    requires Fits(t, 5) && Regrouped(t, 5, 8, false, u, true) && Regrouped(u, 8, 5, true, v, ok)
    ensures v == t
  {
    hide Power, BitsOf, Fits;
    var r := 5 * |t| % 8;
    assert 5 * |t| == 8 * |u| + r && r < 5;
    assert r > 0 ==> 8 * |u| % 5 == 5 - r;
    assert r == 0 ==> 8 * |u| % 5 == 0;
    assert BitsOf(t, 5) == BitsOf(u, 8) * Power(2, r);
    PowerZero();
    assert |v| == |t|;
    SameBits(v, t, 5);
  }
}
