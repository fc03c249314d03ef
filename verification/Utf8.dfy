/** compat/jansson/utf.c: encoding and checking UTF-8 (section 3 of RFC 3629). */
module Utf8 {
  import opened Words

  /** The code points UTF-8 may carry: no UTF-16 surrogate halves, nothing beyond 0x10FFFF. */
  predicate Scalar(cp: int) {
    0 <= cp <= 0x10FFFF && !(0xD800 <= cp <= 0xDFFF)
  }

  /** The bytes utf8_encode writes. It does not object to surrogates. */
  function Enc(cp: int): (s: seq<byte>)
    requires 0 <= cp <= 0x10FFFF
    ensures 1 <= |s| <= 4
  {
    if cp < 0x80 then [cp]
    else if cp < 0x800 then [0xC0 + cp / 0x40, 0x80 + cp % 0x40]
    else if cp < 0x10000 then [0xE0 + cp / 0x40 / 0x40, 0x80 + cp / 0x40 % 0x40, 0x80 + cp % 0x40]
    else [0xF0 + cp / 0x40 / 0x40 / 0x40, 0x80 + cp / 0x40 / 0x40 % 0x40, 0x80 + cp / 0x40 % 0x40, 0x80 + cp % 0x40]
  }

  /** utf8_check_first: the length of the sequence a byte starts, 0 if it starts none. */
  function CheckFirst(u: byte): (n: nat)
    ensures n <= 4
  {
    if u < 0x80 then 1
    else if 0x80 <= u <= 0xBF then 0
    else if u == 0xC0 || u == 0xC1 then 0
    else if 0xC2 <= u <= 0xDF then 2
    else if 0xE0 <= u <= 0xEF then 3
    else if 0xF0 <= u <= 0xF4 then 4
    else 0
  }

  predicate Continuation(u: byte) {
    0x80 <= u <= 0xBF
  }

  function Lead(u: byte, n: nat): int {
    if n == 2 then u % 0x20 else if n == 3 then u % 0x10 else u % 0x8
  }

  /** The value utf8_check_full has accumulated after `k` of the bytes of `s`. */
  function Accumulated(s: seq<byte>, k: nat): int
    requires 1 <= k <= |s|
  {
    if k == 1 then Lead(s[0], |s|) else Accumulated(s, k - 1) * 0x40 + s[k - 1] % 0x40
  }

  /** A multi-byte sequence that encodes a scalar value, in its shortest form. */
  ghost predicate Sequence(s: seq<byte>) {
    |s| >= 2 && exists cp :: Encodes(cp, s)
  }

  predicate Encodes(cp: int, s: seq<byte>) {
    Scalar(cp) && Enc(cp) == s
  }

  /** The conditions utf8_check_full tests. */
  predicate FullOk(s: seq<byte>)
    requires |s| >= 1
  {
    2 <= |s| <= 4 && (forall i | 1 <= i < |s| :: Continuation(s[i]))
    && Scalar(Accumulated(s, |s|))
    && Accumulated(s, |s|) >= (if |s| == 2 then 0x80 else if |s| == 3 then 0x800 else 0x10000)
  }

  lemma ContinuationByte(x: int)
    ensures 0x80 <= 0x80 + x % 0x40 <= 0xBF && (0x80 + x % 0x40) % 0x40 == x % 0x40
  {
  }

  lemma ContinuationBits(u: byte)
    requires Continuation(u)
    ensures u == 0x80 + u % 0x40
  {
  }

  lemma EncodedChecks2(cp: int)
    requires 0x80 <= cp < 0x800
    ensures CheckFirst(Enc(cp)[0]) == 2
    ensures FullOk(Enc(cp)) && Accumulated(Enc(cp), 2) == cp
  {
    var s := Enc(cp);
    ContinuationByte(cp);
    assert Accumulated(s, 1) == cp / 0x40;
    assert Accumulated(s, 2) == cp;
  }

  lemma EncodedChecks3(cp: int)
    requires 0x800 <= cp < 0x10000 && Scalar(cp)
    ensures CheckFirst(Enc(cp)[0]) == 3
    ensures FullOk(Enc(cp)) && Accumulated(Enc(cp), 3) == cp
  {
    var s, a := Enc(cp), cp / 0x40;
    ContinuationByte(cp);
    ContinuationByte(a);
    assert Accumulated(s, 1) == a / 0x40;
    assert Accumulated(s, 2) == a;
    assert Accumulated(s, 3) == cp;
  }

  lemma EncodedChecks4(cp: int)
    requires 0x10000 <= cp <= 0x10FFFF
    ensures CheckFirst(Enc(cp)[0]) == 4
    ensures FullOk(Enc(cp)) && Accumulated(Enc(cp), 4) == cp
  {
    var s, a := Enc(cp), cp / 0x40;
    var b := a / 0x40;
    ContinuationByte(cp);
    ContinuationByte(a);
    ContinuationByte(b);
    assert Accumulated(s, 1) == b / 0x40;
    assert Accumulated(s, 2) == b;
    assert Accumulated(s, 3) == a;
    assert Accumulated(s, 4) == cp;
  }

  /** Encoding produces a first byte that announces the length, and bytes that check back to the code point. */
  lemma EncodedChecks(cp: int)
    requires Scalar(cp) && cp >= 0x80
    ensures CheckFirst(Enc(cp)[0]) == |Enc(cp)| >= 2
    ensures FullOk(Enc(cp)) && Accumulated(Enc(cp), |Enc(cp)|) == cp
  {
    hide FullOk, Accumulated, CheckFirst;
    if cp < 0x800 { EncodedChecks2(cp); }
    else if cp < 0x10000 { EncodedChecks3(cp); }
    else { EncodedChecks4(cp); }
  }

  lemma CheckedIsEncoded2(s: seq<byte>)
    requires |s| == 2 && CheckFirst(s[0]) == 2 && FullOk(s)
    ensures Enc(Accumulated(s, 2)) == s
  {
    var a, v := Accumulated(s, 1), Accumulated(s, 2);
    ContinuationBits(s[1]);
    assert a == s[0] - 0xC0;
    assert v / 0x40 == a && v % 0x40 == s[1] % 0x40;
  }

  lemma CheckedIsEncoded3(s: seq<byte>)
    requires |s| == 3 && CheckFirst(s[0]) == 3 && FullOk(s)
    ensures Enc(Accumulated(s, 3)) == s
  {
    var a, b, v := Accumulated(s, 1), Accumulated(s, 2), Accumulated(s, 3);
    ContinuationBits(s[1]);
    ContinuationBits(s[2]);
    assert a == s[0] - 0xE0;
    assert b / 0x40 == a && b % 0x40 == s[1] % 0x40;
    assert v / 0x40 == b && v % 0x40 == s[2] % 0x40;
  }

  lemma CheckedIsEncoded4(s: seq<byte>)
    requires |s| == 4 && CheckFirst(s[0]) == 4 && FullOk(s)
    ensures Enc(Accumulated(s, 4)) == s
  {
    var a, b, c, v := Accumulated(s, 1), Accumulated(s, 2), Accumulated(s, 3), Accumulated(s, 4);
    ContinuationBits(s[1]);
    ContinuationBits(s[2]);
    ContinuationBits(s[3]);
    assert a == s[0] - 0xF0;
    assert b / 0x40 == a && b % 0x40 == s[1] % 0x40;
    assert c / 0x40 == b && c % 0x40 == s[2] % 0x40;
    assert v / 0x40 == c && v % 0x40 == s[3] % 0x40;
  }

  /** Bytes that pass the check are the encoding of the value accumulated from them. */
  lemma CheckedIsEncoded(s: seq<byte>)
    requires |s| >= 2 && CheckFirst(s[0]) == |s| && FullOk(s)
    ensures Encodes(Accumulated(s, |s|), s)
  {
    hide Accumulated, CheckFirst, Enc;
    if |s| == 2 { CheckedIsEncoded2(s); }
    else if |s| == 3 { CheckedIsEncoded3(s); }
    else { CheckedIsEncoded4(s); }
  }

  /** The check accepts exactly the encodings of scalar values. */
  lemma SequenceIsChecked(s: seq<byte>)
    requires |s| >= 2 && CheckFirst(s[0]) == |s|
    ensures FullOk(s) <==> Sequence(s)
    ensures FullOk(s) ==> Encodes(Accumulated(s, |s|), s)
  {
    if FullOk(s) {
      CheckedIsEncoded(s);
    }
    if Sequence(s) {
      var cp :| Encodes(cp, s);
      EncodedChecks(cp);
    }
  }

  /** utf8_encode. */
  method Utf8Encode(codepoint: int, buffer: array<byte>) returns (rc: int, size: nat)
    requires buffer.Length >= 4
    modifies buffer
    ensures rc == if 0 <= codepoint <= 0x10FFFF then 0 else -1
    ensures rc == 0 ==> size <= 4 && buffer[..size] == Enc(codepoint)
  {
    if codepoint < 0 {
      return -1, 0;
    } else if codepoint < 0x80 {
      buffer[0] := codepoint;
      size := 1;
    } else if codepoint < 0x800 {
      buffer[0] := 0xC0 + codepoint / 0x40;
      buffer[1] := 0x80 + codepoint % 0x40;
      size := 2;
    } else if codepoint < 0x10000 {
      buffer[0] := 0xE0 + codepoint / 0x40 / 0x40;
      buffer[1] := 0x80 + codepoint / 0x40 % 0x40;
      buffer[2] := 0x80 + codepoint % 0x40;
      size := 3;
    } else if codepoint <= 0x10FFFF {
      buffer[0] := 0xF0 + codepoint / 0x40 / 0x40 / 0x40;
      buffer[1] := 0x80 + codepoint / 0x40 / 0x40 % 0x40;
      buffer[2] := 0x80 + codepoint / 0x40 % 0x40;
      buffer[3] := 0x80 + codepoint % 0x40;
      size := 4;
    } else {
      return -1, 0;
    }
    return 0, size;
  }

  /** utf8_check_full, on a sequence whose length utf8_check_first announced, as all its callers do. */
  method Utf8CheckFull(s: seq<byte>) returns (ok: bool, codepoint: int)
    requires |s| >= 2 && CheckFirst(s[0]) == |s|
    ensures ok <==> FullOk(s)
    ensures ok <==> Sequence(s)
    ensures ok ==> Encodes(codepoint, s)
  {
    var size := |s|;
    var value := Lead(s[0], size);
    var i := 1;
    SequenceIsChecked(s);
    while i < size
      invariant 1 <= i <= size && value == Accumulated(s, i)
      invariant forall j | 1 <= j < i :: Continuation(s[j])
    {
      var u := s[i];
      if u < 0x80 || u > 0xBF {
        return false, 0;
      }
      value := value * 0x40 + u % 0x40;
      i := i + 1;
    }
    if value > 0x10FFFF {
      return false, 0;
    } else if 0xD800 <= value <= 0xDFFF {
      return false, 0;
    } else if (size == 2 && value < 0x80) || (size == 3 && value < 0x800) || (size == 4 && value < 0x10000) {
      return false, 0;
    }
    return true, value;
  }

  /** The examples of section 7 of RFC 3629, one code point of each length. */
  lemma EncExamples()
    ensures Enc(0x41) == [0x41] && Enc(0x391) == [0xCE, 0x91]
    ensures Enc(0x2262) == [0xE2, 0x89, 0xA2] && Enc(0x233B4) == [0xF0, 0xA3, 0x8E, 0xB4]
  {
  }

  /** What a byte carries beyond its mark. */
  function Bits(b: byte, mark: int): int {
    var x: int := b;
    x - mark
  }

  /** The table of section 3 of RFC 3629: the first byte and the range tell the length, all other bytes start with
      the bits 10, and the other bits, six of them in each, make up the code point. */
  lemma EncTable(cp: int)
    requires 0 <= cp <= 0x10FFFF
    ensures cp <= 0x7F ==> Enc(cp) == [cp]
    ensures 0x80 <= cp <= 0x7FF ==>
              var s := Enc(cp);
              |s| == 2 && 0xC0 <= s[0] < 0xE0 && cp == Bits(s[0], 0xC0) * 0x40 + Bits(s[1], 0x80)
    ensures 0x800 <= cp <= 0xFFFF ==>
              var s := Enc(cp);
              && |s| == 3 && 0xE0 <= s[0] < 0xF0
              && cp == Bits(s[0], 0xE0) * 0x1000 + Bits(s[1], 0x80) * 0x40 + Bits(s[2], 0x80)
    ensures 0x10000 <= cp ==>
              var s := Enc(cp);
              && |s| == 4 && 0xF0 <= s[0] < 0xF8
              && cp == Bits(s[0], 0xF0) * 0x40000 + Bits(s[1], 0x80) * 0x1000 + Bits(s[2], 0x80) * 0x40
                       + Bits(s[3], 0x80)
    ensures forall i | 1 <= i < |Enc(cp)| :: 0x80 <= Enc(cp)[i] < 0xC0
  {
  }

  // ----- whole strings -----

  predicate AllScalar(cps: seq<int>) {
    forall i | 0 <= i < |cps| :: Scalar(cps[i])
  }

  function EncAll(cps: seq<int>): seq<byte>
    requires AllScalar(cps)
  {
    if cps == [] then [] else Enc(cps[0]) + EncAll(cps[1..])
  }

  /** The length of the well-formed sequence at the start of `s`, 0 if there is none. */
  function StepLen(s: seq<byte>): (n: nat)
    requires s != []
    ensures n <= |s|
  {
    var n := CheckFirst(s[0]);
    if n == 1 then 1 else if 2 <= n <= |s| && FullOk(s[..n]) then n else 0
  }

  predicate Valid(s: seq<byte>) {
    s == [] || (StepLen(s) > 0 && Valid(s[StepLen(s)..]))
  }

  /** An encoded code point in front is one step, and gives the code point back. */
  lemma StepOverEncoded(cp: int, rest: seq<byte>)
    requires Scalar(cp)
    ensures StepLen(Enc(cp) + rest) == |Enc(cp)|
    ensures (Enc(cp) + rest)[..|Enc(cp)|] == Enc(cp) && (Enc(cp) + rest)[|Enc(cp)|..] == rest
  {
    hide FullOk, CheckFirst;
    var s := Enc(cp) + rest;
    assert s[..|Enc(cp)|] == Enc(cp);
    if cp >= 0x80 {
      EncodedChecks(cp);
    } else {
      AsciiFirst(cp);
    }
  }

  lemma AsciiFirst(u: byte)
    requires u < 0x80
    ensures CheckFirst(u) == 1
  {
  }

  /** The code point of the first step. */
  function StepPoint(s: seq<byte>): int
    requires s != [] && StepLen(s) > 0
  {
    if StepLen(s) == 1 then s[0] else Accumulated(s[..StepLen(s)], StepLen(s))
  }

  lemma StepIsEncoded(s: seq<byte>)
    requires s != [] && StepLen(s) > 0
    ensures Encodes(StepPoint(s), s[..StepLen(s)])
  {
    var n := StepLen(s);
    if n == 1 {
      assert s[..1] == [s[0]];
    } else {
      CheckedIsEncoded(s[..n]);
    }
  }

  lemma {:induction false} EncodedIsValid(cps: seq<int>)
    requires AllScalar(cps)
    ensures Valid(EncAll(cps))
  {
    if cps != [] {
      EncodedIsValid(cps[1..]);
      StepOverEncoded(cps[0], EncAll(cps[1..]));
    }
  }

  lemma {:induction false} ValidIsEncoded(s: seq<byte>) returns (cps: seq<int>)
    requires Valid(s)
    ensures AllScalar(cps) && EncAll(cps) == s
  {
    if s == [] {
      cps := [];
    } else {
      var n := StepLen(s);
      var tail := ValidIsEncoded(s[n..]);
      StepIsEncoded(s);
      cps := [StepPoint(s)] + tail;
      assert cps[1..] == tail;
      assert s == s[..n] + s[n..];
    }
  }

  /** The checker's language: exactly the concatenations of encoded scalar values. */
  lemma ValidIff(s: seq<byte>)
    ensures Valid(s) <==> exists cps :: AllScalar(cps) && EncAll(cps) == s
  {
    if Valid(s) {
      var cps := ValidIsEncoded(s);
    }
    if exists cps :: AllScalar(cps) && EncAll(cps) == s {
      var cps :| AllScalar(cps) && EncAll(cps) == s;
      EncodedIsValid(cps);
    }
  }

  lemma {:induction false} ValidConcat(s: seq<byte>, t: seq<byte>)
    requires Valid(s) && Valid(t)
    ensures Valid(s + t)
  {
    if s == [] {
      assert s + t == t;
    } else {
      var n := StepLen(s);
      ValidConcat(s[n..], t);
      assert (s + t)[..n] == s[..n] && (s + t)[n..] == s[n..] + t;
    }
  }

  /** A valid string without NUL: what a json string or key holds. */
  predicate ValidText(s: seq<byte>) {
    Valid(s) && 0 !in s
  }

  lemma ValidStep(s: seq<byte>)
    requires s != []
    ensures Valid(s) <==> StepLen(s) > 0 && Valid(s[StepLen(s)..])
  {
  }

  /** The step as the checker takes it: a first byte that announces `count` bytes, and the check of them all. */
  lemma StepCases(s: seq<byte>)
    requires s != []
    ensures var n := CheckFirst(s[0]);
            StepLen(s) == if n == 1 then 1 else if 2 <= n <= |s| && FullOk(s[..n]) then n else 0
  {
  }

  /** strlen. */
  method StringLength(str: seq<byte>) returns (n: nat)
    requires 0 in str
    ensures n < |str| && str[n] == 0 && 0 !in str[..n]
  {
    n := 0;
    while str[n] != 0
      invariant 0 <= n < |str| && 0 !in str[..n] && 0 in str[n..]
      decreases |str| - n
    {
      n := n + 1;
    }
  }

  /** The loop of utf8_check_string, over all of `s`. */
  method CheckSequences(s: seq<byte>) returns (rc: int)
    ensures rc == 0 || rc == 1
    ensures rc == 1 <==> Valid(s)
  {
    hide Valid, StepLen, FullOk, CheckFirst;
    var i := 0;
    assert s[0..] == s;
    while i < |s|
      invariant 0 <= i <= |s|
      invariant Valid(s) <==> Valid(s[i..])
    {
      ghost var t := s[i..];
      ValidStep(t);
      StepCases(t);
      var count := CheckFirst(s[i]);
      if count == 0 {
        return 0;
      } else if count > 1 {
        if i + count > |s| {
          return 0;
        }
        assert t[..count] == s[i..i + count];
        var ok, cp := Utf8CheckFull(s[i..i + count]);
        if !ok {
          return 0;
        }
      }
      assert t[count..] == s[i + count..];
      i := i + count;
    }
    ValidNothing(s[i..]);
    return 1;
  }

  lemma ValidNothing(s: seq<byte>)
    requires s == []
    ensures Valid(s)
  {
  }

  /** utf8_check_string. A length of -1 asks for the bytes before the first NUL. */
  method Utf8CheckString(str: seq<byte>, length: int) returns (rc: int)
    requires -1 <= length <= |str|
    requires length == -1 ==> 0 in str
    ensures rc == 0 || rc == 1
    ensures length >= 0 ==> (rc == 1 <==> Valid(str[..length]))
    ensures length == -1 ==>
              exists n | 0 <= n < |str| :: str[n] == 0 && 0 !in str[..n] && (rc == 1 <==> Valid(str[..n]))
  {
    hide Valid;
    var n := length;
    if n == -1 {
      n := StringLength(str);
    }
    rc := CheckSequences(str[..n]);
  }

  /** utf8_iterate on a C string: the position after the sequence at `pos`, or false for NULL; it stays at the
      terminating NUL. That is no continuation byte, so a sequence it cuts short is rejected. */
  method Utf8Iterate(str: seq<byte>, pos: nat) returns (ok: bool, next: nat, codepoint: int)
    requires pos <= |str|
    ensures pos == |str| ==> ok && next == pos
    ensures pos < |str| ==> (ok <==> StepLen(str[pos..]) > 0)
    ensures pos < |str| && ok ==> next == pos + StepLen(str[pos..]) && codepoint == StepPoint(str[pos..])
  {
    if pos == |str| {
      return true, pos, 0;
    }
    var count := CheckFirst(str[pos]);
    if count <= 0 {
      return false, pos, 0;
    }
    if count == 1 {
      return true, pos + 1, str[pos];
    }
    if pos + count > |str| {
      return false, pos, 0;
    }
    var full, value := Utf8CheckFull(str[pos..pos + count]);
    assert str[pos..][..count] == str[pos..pos + count];
    if !full {
      return false, pos, 0;
    }
    SequenceIsChecked(str[pos..pos + count]);
    EncInjective(value, Accumulated(str[pos..pos + count], count));
    return true, pos + count, value;
  }

  lemma EncInjective(a: int, b: int)
    requires Scalar(a) && Scalar(b) && Enc(a) == Enc(b)
    ensures a == b
  {
    hide FullOk, CheckFirst;
    if a >= 0x80 { EncodedChecks(a); }
    if b >= 0x80 { EncodedChecks(b); }
  }
}
