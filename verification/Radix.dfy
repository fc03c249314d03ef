/** Numbers written as digit sequences. */
module Radix {
  /** The number whose base-`base` digits, most significant first, are `s`. */
  function Number(s: seq<nat>, base: nat): nat {
    if s == [] then 0 else Number(s[..|s| - 1], base) * base + s[|s| - 1]
  }

  function Power(base: nat, k: nat): (p: nat)
    ensures base > 0 ==> p > 0
  {
    if k == 0 then 1 else base * Power(base, k - 1)
  }

  function Reversed<T>(s: seq<T>): (r: seq<T>)
    ensures |r| == |s| && forall i | 0 <= i < |s| :: r[i] == s[|s| - 1 - i]
  {
    seq(|s|, i requires 0 <= i < |s| => s[|s| - 1 - i])
  }

  lemma Associate<T>(a: seq<T>, b: seq<T>, c: seq<T>)
    ensures a + (b + c) == (a + b) + c
  {
  }

  lemma Regroup(a: int, b: int, c: int)
    ensures (a * b) * c == a * (b * c) == a * (c * b)
  {
  }

  lemma Monotone(a: int, b: int, c: nat)
    requires a <= b
    ensures a * c <= b * c
  {
  }

  lemma Distribute(a: int, b: int, c: int)
    ensures (a + b) * c == a * c + b * c
  {
  }

  /** Quotient and remainder are determined. */
  lemma DivModUnique(n: nat, b: nat, q: nat, m: nat)
    requires n == q * b + m && m < b
    ensures n / b == q && n % b == m
  {
    var q', m' := n / b, n % b;
    assert q' * b + m' == n;
    if q < q' {
      Monotone(q + 1, q', b);
      Distribute(q, 1, b);
    } else if q' < q {
      Monotone(q' + 1, q, b);
      Distribute(q', 1, b);
    }
  }

  lemma {:induction false} PowerAdds(base: nat, j: nat, k: nat)
    ensures Power(base, j + k) == Power(base, j) * Power(base, k)
  {
    if j > 0 {
      PowerAdds(base, j - 1, k);
      Regroup(base, Power(base, j - 1), Power(base, k));
    }
  }

  /** Appending a number shifts what stands before it. */
  lemma {:induction false} NumberOfSum(s: seq<nat>, t: seq<nat>, base: nat)
    ensures Number(s + t, base) == Number(s, base) * Power(base, |t|) + Number(t, base)
  {
    if t == [] {
      assert s + t == s;
    } else {
      var t' := t[..|t| - 1];
      NumberOfSum(s, t', base);
      assert (s + t)[..|s + t| - 1] == s + t';
      var a, p, b := Number(s, base), Power(base, |t'|), Number(t', base);
      Distribute(a * p, b, base);
      Regroup(a, p, base);
    }
  }

  lemma {:induction false} NumberBound(s: seq<nat>, base: nat)
    requires forall i | 0 <= i < |s| :: s[i] < base
    ensures Number(s, base) < Power(base, |s|)
  {
    if s != [] {
      var s' := s[..|s| - 1];
      NumberBound(s', base);
      Monotone(Number(s', base) + 1, Power(base, |s'|), base);
      Distribute(Number(s', base), 1, base);
    }
  }

  /** The same number has only one numeral of a given length. */
  lemma {:induction false} NumeralUnique(s: seq<nat>, t: seq<nat>, base: nat)
    requires |s| == |t| && Number(s, base) == Number(t, base)
    requires forall i | 0 <= i < |s| :: s[i] < base && t[i] < base
    ensures s == t
  {
    if s != [] {
      var n := |s| - 1;
      var a: int, b: int := Number(s[..n], base), Number(t[..n], base);
      if a < b {
        Monotone(a + 1, b, base);
        Distribute(a, 1, base);
      } else if b < a {
        Monotone(b + 1, a, base);
        Distribute(b, 1, base);
      }
      NumeralUnique(s[..n], t[..n], base);
      assert s == s[..n] + [s[n]] && t == t[..n] + [t[n]];
    }
  }
}
