/** Whatever json_loads accepts, the strings and keys it delivers are valid UTF-8 without NUL. */
module JsonStrings {
  import opened Words
  import opened Utf8
  import opened JsonText

  // ----- cutting valid text at characters -----

  lemma DropAscii(u: seq<byte>)
    requires Valid(u) && u != [] && u[0] < 0x80
    ensures Valid(u[1..])
  {
    AsciiFirst(u[0]);
  }

  lemma {:induction false} DropAsciis(u: seq<byte>, n: nat)
    requires Valid(u) && n <= |u| && forall i | 0 <= i < n :: u[i] < 0x80
    ensures Valid(u[n..])
  {
    if n > 0 {
      DropAscii(u);
      DropAsciis(u[1..], n - 1);
      assert u[1..][n - 1..] == u[n..];
    }
  }

  lemma {:induction false} VisibleIsValid(raw: seq<byte>)
    ensures Valid(Visible(raw))
    ensures 0 !in raw ==> 0 !in Visible(raw)
  {
    if raw != [] && StepLen(raw) > 0 {
      var n := StepLen(raw);
      VisibleIsValid(raw[n..]);
      StepAlone(raw);
      ValidConcat(raw[..n], Visible(raw[n..]));
    }
  }

  /** The sequence that a step covers is valid on its own. */
  lemma StepAlone(u: seq<byte>)
    requires u != [] && StepLen(u) > 0
    ensures Valid(u[..StepLen(u)])
    ensures StepLen(u) > 1 ==> forall i | 0 <= i < StepLen(u) :: u[i] >= 0x80
  {
    var n := StepLen(u);
    var s := u[..n];
    assert s[..n] == s && s[n..] == [];
    if n > 1 {
      assert forall i | 1 <= i < n :: Continuation(s[i]);
    }
  }

  // ----- string bodies -----

  lemma {:induction false} BodyLenPlain(u: seq<byte>, m: nat)
    requires m <= |u| && forall i | 0 <= i < m :: u[i] >= 0x80
    ensures BodyLen(u) == Ahead(m, BodyLen(u[m..]))
  {
    if m == 0 {
      assert u[0..] == u;
    } else {
      BodyLenPlain(u[1..], m - 1);
      assert u[1..][m - 1..] == u[m..];
    }
  }

  lemma EscapeIsAscii(u: seq<byte>)
    ensures forall i | 0 <= i < EscapeLen(u) :: u[i] < 0x80
  {
  }

  /** How far the first pass goes in one character of valid text. */
  function BodyStep(u: seq<byte>): (k: nat)
    requires u != []
    ensures k <= |u|
  {
    if u[0] == BACKSLASH then EscapeLen(u) else StepLen(u)
  }

  lemma BodyStepAdvances(u: seq<byte>)
    requires Valid(u) && BodyLen(u).Some? && u[0] != QUOTE
    ensures 0 < BodyStep(u) <= BodyLen(u).value
    ensures BodyLen(u) == Ahead(BodyStep(u), BodyLen(u[BodyStep(u)..]))
    ensures Valid(u[..BodyStep(u)]) && Valid(u[BodyStep(u)..])
  {
    hide Valid, EscapeLen;
    var k := BodyStep(u);
    if u[0] == BACKSLASH {
      EscapeIsAscii(u);
      DropAsciis(u, k);
      AsciiIsValid(u[..k]);
    } else {
      ValidStep(u);
      StepAlone(u);
      if k > 1 {
        BodyLenPlain(u, k);
      }
    }
  }

  lemma {:induction false} AsciiIsValid(s: seq<byte>)
    requires forall i | 0 <= i < |s| :: s[i] < 0x80
    ensures Valid(s)
  {
    if s != [] {
      AsciiFirst(s[0]);
      AsciiIsValid(s[1..]);
    }
  }

  lemma AheadValue(k: nat, n: Option<nat>, m: nat)
    requires Ahead(k, n) == Some(m)
    ensures n.Some? && n.value == m - k
  {
  }

  lemma NothingIsValid(s: seq<byte>)
    requires s == []
    ensures Valid(s)
  {
  }

  lemma BodyAtQuote(u: seq<byte>)
    requires u != [] && u[0] == QUOTE
    ensures BodyLen(u) == Some(0)
  {
  }

  lemma BodyNotEmpty(u: seq<byte>)
    requires BodyLen(u).Some?
    ensures u != []
  {
  }

  /** The closing quote cuts valid text into valid text. */
  lemma {:induction false} BodyIsValid(u: seq<byte>)
    requires Valid(u) && BodyLen(u).Some?
    ensures Valid(u[..BodyLen(u).value]) && Valid(u[BodyLen(u).value + 1..])
  {
    hide Valid, BodyStep, StepLen;
    var n := BodyLen(u).value;
    BodyNotEmpty(u);
    if u[0] == QUOTE {
      DropAscii(u);
      NothingIsValid(u[..0]);
      BodyAtQuote(u);
    } else {
      BodyStepAdvances(u);
      var k := BodyStep(u);
      hide BodyLen;
      AheadValue(k, BodyLen(u[k..]), n);
      BodyIsValid(u[k..]);
      assert u[..n] == u[..k] + u[k..][..n - k];
      ValidConcat(u[..k], u[k..][..n - k]);
      assert u[k..][n - k + 1..] == u[n + 1..];
    }
  }

  // ----- decoding -----

  lemma {:induction false} DecodePlain(b: seq<byte>, m: nat)
    requires m <= |b| && forall i | 0 <= i < m :: b[i] != BACKSLASH
    ensures Decode(b) == Glue(b[..m], Decode(b[m..]))
  {
    hide Glue;
    if m == 0 {
      assert b[0..] == b;
      GlueNothing(Decode(b));
    } else {
      DecodePlain(b[1..], m - 1);
      assert b[1..][m - 1..] == b[m..];
      DecodePlainOne(b);
      GlueTwice([b[0]], b[1..][..m - 1], Decode(b[m..]));
      assert [b[0]] + b[1..][..m - 1] == b[..m];
    }
  }

  lemma DecodePlainOne(b: seq<byte>)
    requires b != [] && b[0] != BACKSLASH
    ensures Decode(b) == Glue([b[0]], Decode(b[1..]))
  {
  }

  lemma NonZeroEncoding(cp: int)
    requires Scalar(cp) && cp > 0
    ensures ValidText(Enc(cp))
  {
    StepOverEncoded(cp, []);
    assert Enc(cp) + [] == Enc(cp);
  }

  /** An escape decodes to a character of its own. */
  lemma EscapeOutput(b: seq<byte>)
    requires b != [] && b[0] == BACKSLASH && WellFormed(b) && 0 !in b && DecodeStep(b).Some?
    ensures ValidText(DecodeStep(b).value.0)
  {
    hide Enc, Valid, UnicodeEscape;
    if EscapeLen(b) == 2 {
      AsciiIsValid([SimpleEscape(b[1])]);
    } else {
      UnicodeEscapeFits(b);
      NonZeroEncoding(UnicodeEscape(b).value.0);
    }
  }

  lemma ValidTextConcat(s: seq<byte>, t: seq<byte>)
    requires ValidText(s) && ValidText(t)
    ensures ValidText(s + t)
  {
    ValidConcat(s, t);
  }

  /** Decoding valid text without NUL gives valid text without NUL, no longer than the text. */
  lemma {:induction false} DecodedIsText(b: seq<byte>)
    requires WellFormed(b) && ValidText(b) && Decode(b).Some?
    ensures ValidText(Decode(b).value) && |Decode(b).value| <= |b|
  {
    hide Enc, UnicodeEscape, Hex4;
    if b != [] {
      if b[0] == BACKSLASH {
        DecodeStepFits(b);
        var (out, k) := DecodeStep(b).value;
        EscapeOutput(b);
        CutEscape(b, k);
        DecodedIsText(b[k..]);
        ValidTextConcat(out, Decode(b[k..]).value);
      } else {
        ValidStep(b);
        StepAlone(b);
        var n := StepLen(b);
        PlainStep(b);
        DecodePlain(b, n);
        DecodedIsText(b[n..]);
        ValidTextConcat(b[..n], Decode(b[n..]).value);
      }
    }
  }

  lemma PlainStep(b: seq<byte>)
    requires b != [] && WellFormed(b) && b[0] != BACKSLASH && StepLen(b) > 0
    ensures WellFormed(b[StepLen(b)..]) && forall i | 0 <= i < StepLen(b) :: b[i] != BACKSLASH
  {
    var n := StepLen(b);
    StepAlone(b);
    if n > 1 {
      WellFormedPlain(b, n);
    }
  }

  lemma {:induction false} WellFormedPlain(b: seq<byte>, m: nat)
    requires m <= |b| && WellFormed(b) && forall i | 0 <= i < m :: b[i] >= 0x80
    ensures WellFormed(b[m..])
  {
    if m == 0 {
      assert b[0..] == b;
    } else {
      WellFormedPlain(b[1..], m - 1);
      assert b[1..][m - 1..] == b[m..];
    }
  }

  /** An escape, of one or two parts, is all ASCII, so text can be cut after it. */
  lemma CutEscape(b: seq<byte>, k: nat)
    requires b != [] && b[0] == BACKSLASH && WellFormed(b) && Valid(b)
    requires DecodeStep(b).Some? && k == DecodeStep(b).value.1
    ensures k <= |b| && Valid(b[k..])
  {
    hide Enc, Valid, Hex4;
    DecodeStepFits(b);
    EscapeIsAscii(b);
    if k == 12 {
      EscapeIsAscii(b[6..]);
      assert forall i | 6 <= i < 12 :: b[i] == b[6..][i - 6];
    }
    DropAsciis(b, k);
  }

  // ----- tokens -----

  lemma {:induction false} SkipBlanksText(u: seq<byte>)
    requires ValidText(u)
    ensures ValidText(SkipBlanks(u))
  {
    if u != [] && IsBlank(u[0]) {
      DropAscii(u);
      SkipBlanksText(u[1..]);
    }
  }

  lemma DigitsAscii(u: seq<byte>)
    ensures forall i | 0 <= i < DigitsLen(u) :: u[i] < 0x80
  {
  }

  lemma AlphasAscii(u: seq<byte>)
    ensures forall i | 0 <= i < AlphaLen(u) :: u[i] < 0x80
  {
  }

  lemma DigitsEndAscii(u: seq<byte>, i: nat)
    requires i <= |u| && forall k | 0 <= k < i :: u[k] < 0x80
    ensures forall k | 0 <= k < DigitsEnd(u, i) :: u[k] < 0x80
  {
    DigitsAscii(u[i..]);
    assert forall k | i <= k < DigitsEnd(u, i) :: u[k] == u[i..][k - i];
  }

  lemma IntAscii(u: seq<byte>)
    requires IntEnd(u).Some?
    ensures IntEnd(u).value <= |u| && forall k | 0 <= k < IntEnd(u).value :: u[k] < 0x80
  {
    var i := if At(u, 0) == MINUS then 1 else 0;
    if At(u, i) != ZERO {
      DigitsEndAscii(u, i);
    }
  }

  lemma ExpAscii(u: seq<byte>, i: nat)
    requires i <= |u| && (forall k | 0 <= k < i :: u[k] < 0x80) && IsExp(At(u, i)) && ExpEnd(u, i).Some?
    ensures ExpEnd(u, i).value <= |u| && forall k | 0 <= k < ExpEnd(u, i).value :: u[k] < 0x80
  {
    var j := if At(u, i + 1) == PLUS || At(u, i + 1) == MINUS then i + 2 else i + 1;
    DigitsEndAscii(u, j);
  }

  lemma RealAscii(u: seq<byte>, i: nat)
    requires i <= |u| && (forall k | 0 <= k < i :: u[k] < 0x80)
    requires (At(u, i) == DOT || IsExp(At(u, i))) && RealEnd(u, i).Some?
    ensures RealEnd(u, i).value <= |u| && forall k | 0 <= k < RealEnd(u, i).value :: u[k] < 0x80
  {
    hide DigitsEnd, ExpEnd;
    if At(u, i) == DOT {
      DigitsEndAscii(u, i + 1);
      var j := DigitsEnd(u, i + 1);
      if IsExp(At(u, j)) { ExpAscii(u, j); }
    } else {
      ExpAscii(u, i);
    }
  }

  lemma NumberTokenText(u: seq<byte>)
    requires ValidText(u) && LexNumber(u).token != TInvalid
    ensures ValidText(LexNumber(u).rest) && !LexNumber(u).token.TString?
  {
    hide IntEnd, RealEnd, Valid;
    var i := IntEnd(u).value;
    IntAscii(u);
    DropAsciis(u, i);
    if At(u, i) == DOT || IsExp(At(u, i)) {
      RealAscii(u, i);
      DropAsciis(u, RealEnd(u, i).value);
    }
  }

  /** A string token holds valid text, at most as long as its body, and leaves valid text behind. */
  lemma StringTokenText(u: seq<byte>)
    requires ValidText(u) && LexString(u).token != TInvalid
    ensures LexString(u).token.TString? && ValidText(LexString(u).token.s) && ValidText(LexString(u).rest)
    ensures |LexString(u).token.s| <= BodyLen(u).value
  {
    hide BodyLen, Decode, WellFormed, Valid;
    BodyIsValid(u);
    BodyIsWellFormed(u);
    DecodedIsText(u[..BodyLen(u).value]);
  }

  predicate TextToken(tok: Token) {
    tok.TString? ==> ValidText(tok.s)
  }

  lemma LexText(u: seq<byte>, clean: bool)
    requires ValidText(u)
    ensures TextToken(Lex(u, clean).token)
    ensures Lex(u, clean).token != TInvalid ==> ValidText(Lex(u, clean).rest)
  {
    hide LexNumber, LexString, Valid;
    var v := SkipBlanks(u);
    SkipBlanksText(u);
    if v == [] || Lex(u, clean).token == TInvalid {
    } else if IsPunct(v[0]) {
      DropAscii(v);
    } else if v[0] == QUOTE {
      DropAscii(v);
      StringTokenText(v[1..]);
    } else if IsDigit(v[0]) || v[0] == MINUS {
      NumberTokenText(v);
    } else {
      AlphasAscii(v);
      DropAsciis(v, AlphaLen(v));
    }
  }

  // ----- values -----

  /** All strings and keys in `v` are valid UTF-8 without NUL. */
  predicate AllText(v: Json) {
    match v
    case String(s) => ValidText(s)
    case Array(items) => forall i | 0 <= i < |items| :: AllText(items[i])
    case Object(fields) => forall i | 0 <= i < |fields| :: ValidText(fields[i].key) && AllText(fields[i].value)
    case _ => true
  }

  predicate ItemsAreText(items: seq<Json>) {
    forall i | 0 <= i < |items| :: AllText(items[i])
  }

  predicate FieldsAreText(fields: seq<Field>) {
    forall i | 0 <= i < |fields| :: ValidText(fields[i].key) && AllText(fields[i].value)
  }

  predicate ParsedText(p: Option<Parsed>) {
    p.Some? ==> AllText(p.value.value) && ValidText(p.value.rest)
  }

  lemma {:induction false} SetFieldText(fields: seq<Field>, key: seq<byte>, value: Json)
    requires FieldsAreText(fields) && ValidText(key) && AllText(value)
    ensures FieldsAreText(SetField(fields, key, value))
  {
    hide ValidText, AllText;
    if fields != [] && fields[0].key != key {
      SetFieldText(fields[1..], key, value);
    }
  }

  lemma {:induction false} ValueText(tok: Token, u: seq<byte>, clean: bool)
    requires TextToken(tok) && ValidText(u)
    ensures ParsedText(ParseValue(tok, u, clean))
    decreases |u|, 1
  {
    hide ValidText;
    if tok == TPunct(LBRACE) {
      ObjectText(u, clean);
    } else if tok == TPunct(LBRACKET) {
      ArrayText(u, clean);
    }
  }

  lemma {:induction false} ArrayText(u: seq<byte>, clean: bool)
    requires ValidText(u)
    ensures ParsedText(ParseArray(u, clean))
    decreases |u|, 0
  {
    hide ValidText, Lex;
    LexProgress(u, clean);
    LexText(u, clean);
    var l := Lex(u, clean);
    if l.token != TEof && l.token != TInvalid {
      ElementsText(l.token, l.rest, [], clean);
    }
  }

  lemma {:induction false} ElementsText(tok: Token, u: seq<byte>, done: seq<Json>, clean: bool)
    requires TextToken(tok) && ValidText(u) && ItemsAreText(done)
    ensures ParsedText(ParseElements(tok, u, done, clean))
    decreases |u|, 2
  {
    hide ValidText, Lex;
    ValueText(tok, u, clean);
    var p := ParseValue(tok, u, clean);
    if p.Some? {
      var r := p.value.rest;
      LexProgress(r, clean);
      LexText(r, clean);
      var l := Lex(r, clean);
      if l.token == TPunct(COMMA) {
        LexProgress(l.rest, clean);
        LexText(l.rest, clean);
        var m := Lex(l.rest, clean);
        if m.token == TEof || m.token == TInvalid {
          BadTokenFails(m, done + [p.value.value], clean);
        } else {
          ElementsText(m.token, m.rest, done + [p.value.value], clean);
        }
      }
    }
  }

  lemma {:induction false} ObjectText(u: seq<byte>, clean: bool)
    requires ValidText(u)
    ensures ParsedText(ParseObject(u, clean))
    decreases |u|, 0
  {
    hide ValidText, Lex;
    LexProgress(u, clean);
    LexText(u, clean);
    var l := Lex(u, clean);
    if l.token.TString? {
      MembersAreText(l.token, l.rest, [], clean);
    }
  }

  lemma {:induction false} MemberText(u: seq<byte>, clean: bool)
    requires ValidText(u)
    ensures ParsedText(MemberValue(u, clean))
    decreases |u|, 2
  {
    hide ValidText, Lex;
    LexProgress(u, clean);
    LexText(u, clean);
    var colon := Lex(u, clean);
    if colon.token == TPunct(COLON) {
      LexProgress(colon.rest, clean);
      LexText(colon.rest, clean);
      var l := Lex(colon.rest, clean);
      if l.token != TInvalid {
        ValueText(l.token, l.rest, clean);
      }
    }
  }

  lemma {:induction false} MembersAreText(tok: Token, u: seq<byte>, done: seq<Field>, clean: bool)
    requires TextToken(tok) && ValidText(u) && FieldsAreText(done)
    ensures ParsedText(ParseMembers(tok, u, done, clean))
    decreases |u|, 3
  {
    hide ValidText, Lex, AllText;
    if tok.TString? {
      MemberText(u, clean);
      var p := MemberValue(u, clean);
      if p.Some? {
        var r := p.value.rest;
        LexProgress(r, clean);
        LexText(r, clean);
        var l := Lex(r, clean);
        var fields := SetField(done, tok.s, p.value.value);
        SetFieldText(done, tok.s, p.value.value);
        ObjectIsText(fields);
        if l.token == TPunct(COMMA) {
          LexProgress(l.rest, clean);
          LexText(l.rest, clean);
          var m := Lex(l.rest, clean);
          if m.token.TString? {
            MembersAreText(m.token, m.rest, fields, clean);
          }
        }
      }
    }
  }

  lemma ObjectIsText(fields: seq<Field>)
    requires FieldsAreText(fields)
    ensures AllText(Object(fields))
  {
  }

  /** Every string and key in a document that json_loads accepts is valid UTF-8 without NUL. */
  lemma LoadedIsText(text: seq<byte>)
    requires 0 !in text && Loads(text).Some?
    ensures AllText(Loads(text).value)
  {
    hide Lex, AllText;
    var u, clean := Visible(text), Clean(text);
    VisibleIsValid(text);
    LexText(u, clean);
    var l := Lex(u, clean);
    ValueText(l.token, l.rest, clean);
  }

  // ----- which texts are accepted -----

  /** Bytes after which the stream takes the text for ended although they are no UTF-8: one byte that starts no
      sequence, or a broken sequence that its first byte lets reach to the end or beyond. */
  predicate BadTail(b: seq<byte>) {
    b != [] && StepLen(b) == 0 && if CheckFirst(b[0]) == 0 then |b| == 1 else |b| <= CheckFirst(b[0])
  }

  lemma StepStays(s: seq<byte>, b: seq<byte>)
    requires s != [] && StepLen(s) > 0
    ensures StepLen(s + b) == StepLen(s)
  {
    hide FullOk, CheckFirst;
    assert (s + b)[..StepLen(s)] == s[..StepLen(s)];
  }

  /** After valid text the stream stops at the bad bytes, and they decide about the end. */
  lemma {:induction false} ValidThenBad(s: seq<byte>, b: seq<byte>)
    requires Valid(s) && (b == [] || StepLen(b) == 0)
    ensures Visible(s + b) == s && Clean(s + b) == Clean(b)
  {
    hide StepLen;
    if s == [] {
      assert s + b == b;
    } else {
      var n := StepLen(s);
      StepStays(s, b);
      ValidThenBad(s[n..], b);
      assert (s + b)[n..] == s[n..] + b && (s + b)[..n] == s[..n] && s[..n] + s[n..] == s;
    }
  }

  /** What the stream shows is the front of the text, and nothing or bytes that are no UTF-8 follow it. */
  lemma {:induction false} VisibleIsFront(raw: seq<byte>) returns (b: seq<byte>)
    ensures raw == Visible(raw) + b && (b == [] || StepLen(b) == 0)
  {
    hide StepLen;
    b := raw;
    if raw != [] && StepLen(raw) > 0 {
      b := VisibleIsFront(raw[StepLen(raw)..]);
      assert raw == raw[..StepLen(raw)] + raw[StepLen(raw)..];
    }
  }

  lemma UncleanFails(text: seq<byte>)
    requires !Clean(text)
    ensures Loads(text).None?
  {
    hide Lex, ParseDocument;
    match ParseDocument(Visible(text), Clean(text))
    case None =>
    case Some(p) => EndIsClean(p.rest);
  }

  lemma EndIsClean(u: seq<byte>)
    ensures Lex(u, false).token != TEof
  {
    hide IntEnd, RealEnd, BodyLen, Decode, SkipBlanks, IntValue;
  }

  /** A text is accepted exactly if it is accepted valid UTF-8 with nothing or one bad tail behind it, and a
      bad tail does not change the value. */
  lemma AcceptedTexts(text: seq<byte>, v: Json)
    ensures Loads(text) == Some(v) <==>
            exists s: seq<byte>, b: seq<byte> ::
              text == s + b && Valid(s) && Loads(s) == Some(v) && (b == [] || BadTail(b))
  {
    hide Lex, StepLen, Visible, Clean, ParseDocument, Valid;
    forall s: seq<byte>, b: seq<byte> | text == s + b && Valid(s) && (b == [] || BadTail(b))
      ensures Loads(s) == Loads(text)
    {
      SameLoads(s, b);
    }
    if Loads(text) == Some(v) {
      if !Clean(text) {
        UncleanFails(text);
      }
      VisibleIsValid(text);
      var b := VisibleIsFront(text);
      var s := Visible(text);
      ValidThenBad(s, b);
      CleanTail(b);
      SameLoads(s, b);
      assert text == s + b && Valid(s) && Loads(s) == Some(v) && (b == [] || BadTail(b));
    }
  }

  lemma CleanTail(b: seq<byte>)
    requires b == [] || StepLen(b) == 0
    ensures Clean(b) <==> b == [] || BadTail(b)
  {
  }

  lemma SameLoads(s: seq<byte>, b: seq<byte>)
    requires Valid(s) && (b == [] || BadTail(b))
    ensures Loads(s) == Loads(s + b)
  {
    hide Lex, StepLen, Visible, Clean, ParseDocument, Valid;
    CleanTail(b);
    CleanTail([]);
    ValidThenBad(s, b);
    ValidThenBad(s, []);
    assert s + [] == s;
  }

  /** So text that is not UTF-8 is accepted: an empty array and the first byte of a two-byte sequence. */
  lemma BadTailAccepted()
    ensures !Valid([LBRACKET, RBRACKET, 0xC3]) && Loads([LBRACKET, RBRACKET, 0xC3]) == Some(Array([]))
  {
    var s: seq<byte>, b: seq<byte> := [LBRACKET, RBRACKET], [0xC3];
    assert s[1..] == [RBRACKET] && s[2..] == [];
    assert s + b == [LBRACKET, RBRACKET, 0xC3];
    assert [LBRACKET, RBRACKET, 0xC3][1..] == [RBRACKET, 0xC3] && [RBRACKET, 0xC3][1..] == b;
    EmptyArrayLoads();
    assert !Valid(b) && !Valid([RBRACKET, 0xC3]);
    SameLoads(s, b);
  }

  lemma EmptyArrayLoads()
    ensures Loads([LBRACKET, RBRACKET]) == Some(Array([])) && Valid([LBRACKET, RBRACKET])
  {
    hide LexNumber, LexString;
    var s: seq<byte> := [LBRACKET, RBRACKET];
    assert s[1..] == [RBRACKET] && [RBRACKET][1..] == [];
    assert Valid([RBRACKET]);
    ValidThenBad(s, []);
    assert s + [] == s;
    assert Lex(s, true) == Lexeme(TPunct(LBRACKET), [RBRACKET]);
    assert Lex([RBRACKET], true) == Lexeme(TPunct(RBRACKET), []);
    assert ParseArray([RBRACKET], true) == Some(Parsed(Array([]), []));
  }
}
