/** Where strtol and strtod stop (sections 7.22.1.3 and 7.22.1.4 of ISO C, decimal forms), and that the texts which
    the lexer hands to them are read to the end. */
module NumberText {
  import opened Words
  import opened JsonText

  predicate IsSpace(c: byte) { c == SPACE || 0x09 <= c <= 0x0D }
  predicate IsSign(c: byte) { c == PLUS || c == MINUS }

  function SpaceLen(s: seq<byte>): (n: nat)
    ensures n <= |s|
  {
    if s != [] && IsSpace(s[0]) then 1 + SpaceLen(s[1..]) else 0
  }

  /** Where white space and a sign end. */
  function SignEnd(s: seq<byte>): (i: nat)
    ensures i <= |s|
  {
    if IsSign(At(s, SpaceLen(s))) then SpaceLen(s) + 1 else SpaceLen(s)
  }

  /** Where strtol stops with base 10; without a digit it reads nothing. */
  function StrtolEnd(s: seq<byte>): (e: nat)
    ensures e <= |s|
  {
    var i := SignEnd(s);
    if DigitsEnd(s, i) == i then 0 else DigitsEnd(s, i)
  }

  /** What strtol reads, before it is cut to the range of long. */
  function StrtolValue(s: seq<byte>): int {
    var i := SignEnd(s);
    var n := DecValue(s[i..DigitsEnd(s, i)]);
    if At(s, SpaceLen(s)) == MINUS then 0 - n else n
  }

  /** What follows the sign is neither hexadecimal nor a name (inf, nan). */
  predicate IsDecimal(s: seq<byte>) {
    var i := SignEnd(s);
    !IsAlpha(At(s, i)) && (At(s, i) == ZERO ==> At(s, i + 1) != 0x78 && At(s, i + 1) != 0x58)
  }

  /** Where the digits of a decimal number with or without a dot end. */
  function MantissaEnd(s: seq<byte>, i: nat): (e: nat)
    requires i <= |s|
    ensures i <= e <= |s|
  {
    var j := DigitsEnd(s, i);
    if At(s, j) == DOT then DigitsEnd(s, j + 1) else j
  }

  /** Where strtod stops on a decimal text: an exponent without a digit is not read, and without a digit
      before the exponent nothing is. */
  function StrtodEnd(s: seq<byte>): (e: nat)
    requires IsDecimal(s)
    ensures e <= |s|
  {
    var i := SignEnd(s);
    var k := MantissaEnd(s, i);
    if !IsDigit(At(s, i)) && !(At(s, i) == DOT && IsDigit(At(s, i + 1))) then 0
    else if IsExp(At(s, k)) && ExpEnd(s, k).Some? then ExpEnd(s, k).value
    else k
  }

  method SkipSpace(s: seq<byte>) returns (i: nat)
    ensures i == SpaceLen(s)
  {
    i := 0;
    assert s[0..] == s;
    while i < |s| && IsSpace(s[i])
      invariant i <= |s| && i + SpaceLen(s[i..]) == SpaceLen(s)
    {
      assert s[i..][1..] == s[i + 1..];
      i := i + 1;
    }
  }

  method ReadDigits(s: seq<byte>, i: nat) returns (end: nat, value: nat)
    requires i <= |s|
    ensures end == DigitsEnd(s, i) && value == DecValue(s[i..end])
  {
    end, value := i, 0;
    while end < |s| && IsDigit(s[end])
      invariant i <= end <= |s| && DigitsEnd(s, end) == DigitsEnd(s, i)
      invariant value == DecValue(s[i..end])
    {
      ghost var t := s[i..end + 1];
      assert s[end..][1..] == s[end + 1..] && t[..|t| - 1] == s[i..end];
      value := value * 10 + (s[end] - 0x30);
      end := end + 1;
    }
  }

  /** strtol: the number, and where it stops. */
  method Strtol(s: seq<byte>) returns (value: int, end: nat)
    ensures end == StrtolEnd(s) && value == StrtolValue(s)
  {
    hide DigitsEnd, SpaceLen, DecValue;
    var i := SkipSpace(s);
    var negative := i < |s| && s[i] == MINUS;
    if i < |s| && IsSign(s[i]) {
      i := i + 1;
    }
    end, value := ReadDigits(s, i);
    if end == i {
      end := 0;
    }
    if negative {
      value := 0 - value;
    }
  }

  // ----- cutting a text where its number ends -----

  lemma {:induction false} DigitsCut(u: seq<byte>, n: nat)
    requires n <= |u|
    ensures DigitsLen(u[..n]) == if DigitsLen(u) <= n then DigitsLen(u) else n
  {
    if n > 0 && IsDigit(u[0]) {
      DigitsCut(u[1..], n - 1);
      assert u[..n][1..] == u[1..][..n - 1];
    }
  }

  lemma DigitsEndCut(u: seq<byte>, i: nat, e: nat)
    requires i <= e <= |u|
    ensures DigitsEnd(u[..e], i) == if DigitsEnd(u, i) <= e then DigitsEnd(u, i) else e
  {
    DigitsCut(u[i..], e - i);
    assert u[..e][i..] == u[i..][..e - i];
  }

  /** The digits end at a character that is none. */
  lemma {:induction false} DigitsStop(u: seq<byte>, i: nat)
    requires i <= |u|
    ensures !IsDigit(At(u, DigitsEnd(u, i)))
    ensures IsDigit(At(u, i)) ==> i < DigitsEnd(u, i)
    decreases |u| - i
  {
    if IsDigit(At(u, i)) {
      assert u[i..][1..] == u[i + 1..];
      DigitsStop(u, i + 1);
    }
  }

  /** strtol reads the text of an integer to its end, and its value is that of the text. */
  lemma IntRead(u: seq<byte>)
    ensures var n := IntEnd(u);
            n.Some? ==>
              && n.value <= |u| && StrtolEnd(u[..n.value]) == n.value
              && StrtolValue(u[..n.value]) == IntValue(u[..n.value])
  {
    if IntEnd(u).Some? {
      var e := IntEnd(u).value;
      var s := u[..e];
      var i := if At(u, 0) == MINUS then 1 else 0;
      DigitsStop(u, i);
      assert SignEnd(s) == i;
      DigitsEndCut(u, i, e);
      DigitsStop(u, i + 1);
      assert DigitsEnd(s, i) == e;
      assert s[i..e] == s[i..] && s[0..] == s;
    }
  }

  lemma ExpCut(u: seq<byte>, m: nat)
    requires m <= |u| && IsExp(At(u, m)) && ExpEnd(u, m).Some?
    ensures var e := ExpEnd(u, m).value;
            m < e <= |u| && ExpEnd(u[..e], m) == Some(e) && IsExp(At(u[..e], m))
  {
    var e := ExpEnd(u, m).value;
    var j := if IsSign(At(u, m + 1)) then m + 2 else m + 1;
    DigitsStop(u, j);
    DigitsEndCut(u, j, e);
  }

  /** The mantissa of a real is read up to its exponent, or up to the end of the text. */
  lemma MantissaCut(u: seq<byte>, i: nat, e: nat)
    requires i <= e <= |u| && MantissaEnd(u, i) <= e
    ensures MantissaEnd(u[..e], i) == MantissaEnd(u, i)
  {
    hide DigitsEnd;
    DigitsEndCut(u, i, e);
    if At(u, DigitsEnd(u, i)) == DOT {
      DigitsEndCut(u, DigitsEnd(u, i) + 1, e);
    }
  }

  lemma IntIsDigits(u: seq<byte>)
    requires IntEnd(u).Some?
    ensures var i := if At(u, 0) == MINUS then 1 else 0;
            && i < IntEnd(u).value == DigitsEnd(u, i) && IsDigit(At(u, i))
            && (At(u, i) == ZERO ==> IntEnd(u).value == i + 1)
  {
    var i := if At(u, 0) == MINUS then 1 else 0;
    DigitsStop(u, i);
    if At(u, i) == ZERO {
      assert u[i..][1..] == u[i + 1..] && DigitsLen(u[i + 1..]) == 0;
    }
  }

  /** strtod reads the text of a real to its end. */
  lemma RealRead(u: seq<byte>, d: nat)
    ensures IntEnd(u) == Some(d) && d <= |u| && (At(u, d) == DOT || IsExp(At(u, d))) && RealEnd(u, d).Some? ==>
              var e := RealEnd(u, d).value;
              e <= |u| && IsDecimal(u[..e]) && StrtodEnd(u[..e]) == e
  {
    hide IntEnd, DigitsEnd, ExpEnd;
    if IntEnd(u) == Some(d) && d <= |u| && (At(u, d) == DOT || IsExp(At(u, d))) && RealEnd(u, d).Some? {
      var i := if At(u, 0) == MINUS then 1 else 0;
      IntIsDigits(u);
      var e, m := RealEnd(u, d).value, MantissaEnd(u, i);
      if IsExp(At(u, m)) {
        ExpCut(u, m);
      }
      assert m <= e <= |u| && d < e;
      MantissaCut(u, i, e);
      assert SignEnd(u[..e]) == i;
      assert At(u[..e], i) == At(u, i) && At(u[..e], d) == At(u, d);
      if !IsExp(At(u, m)) {
        assert e == m && At(u[..e], m) == EOF;
      }
    }
  }
}
