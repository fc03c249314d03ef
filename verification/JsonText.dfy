/** compat/jansson: JSON values, and the language json_loads accepts, as functions on the text
    (section 2 of RFC 4627, with the deviations of load.c). */
module JsonText {
  import opened Words
  import opened Utf8

  datatype Option<+T> = None | Some(value: T)

  /** A json_t. The characters of a real are kept unconverted; the fields of an object are listed in the
      order in which the object yields them. */
  datatype Json =
    | Null | True | False
    | Integer(n: int)
    | Real(text: seq<byte>)
    | String(s: seq<byte>)
    | Array(items: seq<Json>)
    | Object(fields: seq<Field>)

  datatype Field = Field(key: seq<byte>, value: Json)

  // ----- characters -----

  const EOF: byte := 0xFF
  const NEWLINE: byte := 0x0A
  const SPACE: byte := 0x20
  const QUOTE: byte := 0x22
  const COMMA: byte := 0x2C
  const MINUS: byte := 0x2D
  const PLUS: byte := 0x2B
  const DOT: byte := 0x2E
  const SLASH: byte := 0x2F
  const ZERO: byte := 0x30
  const COLON: byte := 0x3A
  const LBRACKET: byte := 0x5B
  const BACKSLASH: byte := 0x5C
  const RBRACKET: byte := 0x5D
  const LOWER_U: byte := 0x75
  const LBRACE: byte := 0x7B
  const RBRACE: byte := 0x7D

  predicate IsDigit(c: byte) { 0x30 <= c <= 0x39 }
  predicate IsLower(c: byte) { 0x61 <= c <= 0x7A }
  predicate IsUpper(c: byte) { 0x41 <= c <= 0x5A }
  predicate IsHex(c: byte) { IsDigit(c) || 0x61 <= c <= 0x66 || 0x41 <= c <= 0x46 }
  predicate IsAlpha(c: byte) { IsUpper(c) || IsLower(c) }
  predicate IsBlank(c: byte) { c == SPACE || c == 0x09 || c == NEWLINE || c == 0x0D }
  predicate IsPunct(c: byte) { c in {LBRACE, RBRACE, LBRACKET, RBRACKET, COLON, COMMA} }
  predicate IsExp(c: byte) { c == 0x45 || c == 0x65 }

  const TRUE_TEXT: seq<byte> := [0x74, 0x72, 0x75, 0x65]
  const FALSE_TEXT: seq<byte> := [0x66, 0x61, 0x6C, 0x73, 0x65]
  const NULL_TEXT: seq<byte> := [0x6E, 0x75, 0x6C, 0x6C]

  /** The character at `i` of what is left, or the end-of-file character. */
  function At(u: seq<byte>, i: nat): byte {
    if i < |u| then u[i] else EOF
  }

  // ----- what the stream lets through -----

  /** The characters stream_get delivers before its first EOF: up to the end of the text, or up to the
      first bytes that are not UTF-8. */
  function Visible(raw: seq<byte>): seq<byte> {
    if raw == [] || StepLen(raw) == 0 then [] else raw[..StepLen(raw)] + Visible(raw[StepLen(raw)..])
  }

  /** Whether lex_eof holds once that EOF has been delivered. It does at the end of the text, and also
      when the bad bytes are the last ones. */
  function Clean(raw: seq<byte>): bool {
    if raw == [] then true
    else if StepLen(raw) > 0 then Clean(raw[StepLen(raw)..])
    else if CheckFirst(raw[0]) == 0 then |raw| == 1
    else |raw| <= CheckFirst(raw[0])
  }

  // ----- strings -----

  predicate IsSimpleEscape(c: byte) {
    c in {QUOTE, BACKSLASH, SLASH, 0x62, 0x66, 0x6E, 0x72, 0x74}
  }

  /** The length of the escape sequence at the start of `u`, 0 if it is none. */
  function EscapeLen(u: seq<byte>): (k: nat)
    ensures k <= |u|
  {
    if |u| < 2 || u[0] != BACKSLASH then 0
    else if u[1] == LOWER_U then
      if |u| >= 6 && IsHex(u[2]) && IsHex(u[3]) && IsHex(u[4]) && IsHex(u[5]) then 6 else 0
    else if IsSimpleEscape(u[1]) then 2
    else 0
  }

  /** The number of characters of `u` before the closing quote, if there is a well-formed string body. */
  function BodyLen(u: seq<byte>): (n: Option<nat>)
    ensures n.Some? ==> n.value < |u| && u[n.value] == QUOTE
  {
    if u == [] then None
    else if u[0] == QUOTE then Some(0)
    else if u[0] <= 0x1F then None
    else if u[0] == BACKSLASH then
      var k := EscapeLen(u);
      if k == 0 then None else Ahead(k, BodyLen(u[k..]))
    else Ahead(1, BodyLen(u[1..]))
  }

  function Ahead(k: nat, n: Option<nat>): Option<nat> {
    if n.None? then None else Some(k + n.value)
  }

  function HexDigit(c: byte): int {
    if IsDigit(c) then c - 0x30 else if IsLower(c) then c - 0x61 + 10 else if IsUpper(c) then c - 0x41 + 10 else 0
  }

  function Hex4(s: seq<byte>): int
    requires |s| == 4
  {
    ((HexDigit(s[0]) * 16 + HexDigit(s[1])) * 16 + HexDigit(s[2])) * 16 + HexDigit(s[3])
  }

  function SimpleEscape(c: byte): byte {
    if c == 0x62 then 0x08 else if c == 0x66 then 0x0C else if c == 0x6E then 0x0A
    else if c == 0x72 then 0x0D else if c == 0x74 then 0x09 else c
  }

  predicate IsHighSurrogate(v: int) { 0xD800 <= v <= 0xDBFF }
  predicate IsLowSurrogate(v: int) { 0xDC00 <= v <= 0xDFFF }

  function FromSurrogates(hi: int, lo: int): int {
    (hi - 0xD800) * 0x400 + (lo - 0xDC00) + 0x10000
  }

  /** The code point of a Unicode escape, and how many characters it takes: two escapes for a
      surrogate pair. None for half a pair and for 0. */
  function UnicodeEscape(b: seq<byte>): Option<(int, nat)>
    requires EscapeLen(b) == 6
  {
    var v := Hex4(b[2..6]);
    if IsHighSurrogate(v) then
      if EscapeLen(b[6..]) == 6 && IsLowSurrogate(Hex4(b[8..12]))
      then Some((FromSurrogates(v, Hex4(b[8..12])), 12)) else None
    else if IsLowSurrogate(v) || v == 0 then None
    else Some((v, 6))
  }

  /** The bytes one step of the second pass of lex_scan_string emits, and how far it moves; None where it
      reports an invalid code point. */
  function DecodeStep(b: seq<byte>): Option<(seq<byte>, nat)>
    requires b != []
  {
    if b[0] != BACKSLASH then Some(([b[0]], 1))
    else if EscapeLen(b) == 2 then Some(([SimpleEscape(b[1])], 2))
    else if EscapeLen(b) == 0 then None
    else
      match UnicodeEscape(b)
      case None => None
      case Some((cp, k)) => if 0 <= cp <= 0x10FFFF then Some((Enc(cp), k)) else None
  }

  /** Output so far, followed by the output still to come. */
  function Glue(out: seq<byte>, rest: Option<seq<byte>>): Option<seq<byte>> {
    if rest.None? then None else Some(out + rest.value)
  }

  lemma GlueNothing(o: Option<seq<byte>>)
    ensures Glue([], o) == o
  {
    if o.Some? {
      assert [] + o.value == o.value;
    }
  }

  lemma GlueTwice(a: seq<byte>, b: seq<byte>, rest: Option<seq<byte>>)
    ensures Glue(a, Glue(b, rest)) == Glue(a + b, rest)
  {
    if rest.Some? {
      assert a + (b + rest.value) == (a + b) + rest.value;
    }
  }

  /** The decoded string, if the second pass succeeds. */
  function Decode(b: seq<byte>): Option<seq<byte>>
  {
    if b == [] then Some([])
    else
      match DecodeStep(b)
      case None => None
      case Some((out, k)) =>
        if k == 0 || k > |b| then None else Glue(out, Decode(b[k..]))
  }

  /** The text between the quotes, as the first pass leaves it for the second. */
  predicate WellFormed(b: seq<byte>) {
    b == []
    || (if b[0] == BACKSLASH then EscapeLen(b) > 0 && WellFormed(b[EscapeLen(b)..])
        else b[0] != QUOTE && WellFormed(b[1..]))
  }

  lemma {:induction false} BodyIsWellFormed(u: seq<byte>)
    requires BodyLen(u).Some?
    ensures WellFormed(u[..BodyLen(u).value])
  {
    var n := BodyLen(u).value;
    var b := u[..n];
    if u[0] == QUOTE {
    } else if u[0] == BACKSLASH {
      var k := EscapeLen(u);
      BodyIsWellFormed(u[k..]);
      assert b[k..] == u[k..][..n - k];
    } else {
      BodyIsWellFormed(u[1..]);
      assert b[1..] == u[1..][..n - 1];
    }
  }

  lemma HexRange(s: seq<byte>)
    requires |s| == 4 && IsHex(s[0]) && IsHex(s[1]) && IsHex(s[2]) && IsHex(s[3])
    ensures 0 <= Hex4(s) <= 0xFFFF
  {
    hide HexDigit, IsHex;
    DigitRange(s[0]); DigitRange(s[1]); DigitRange(s[2]); DigitRange(s[3]);
  }

  lemma DigitRange(c: byte)
    requires IsHex(c)
    ensures 0 <= HexDigit(c) < 16
  {
  }

  lemma WellFormedStart(b: seq<byte>)
    requires WellFormed(b) && b != []
    ensures b[0] != QUOTE
  {
  }

  /** A Unicode escape in well-formed text names a scalar value other than 0, and the text after it is
      well-formed again. */
  lemma UnicodeEscapeFits(b: seq<byte>)
    requires WellFormed(b) && EscapeLen(b) == 6
    ensures UnicodeEscape(b).Some? ==>
              var (cp, k) := UnicodeEscape(b).value;
              Scalar(cp) && cp > 0 && |Enc(cp)| <= k <= |b| && k >= 6 && WellFormed(b[k..])
  {
    hide Enc;
    HexRange(b[2..6]);
    if UnicodeEscape(b).Some? {
      var (cp, k) := UnicodeEscape(b).value;
      if k == 12 {
        HexRange(b[8..12]);
        assert b[6..][6..] == b[12..];
      }
      EncSize(cp);
    }
  }

  /** On well-formed text a step emits no more bytes than it consumes. */
  lemma DecodeStepFits(b: seq<byte>)
    requires b != [] && WellFormed(b)
    ensures DecodeStep(b).Some? ==>
              var (out, k) := DecodeStep(b).value; 0 < k <= |b| && |out| <= k && WellFormed(b[k..])
  {
    hide Enc, UnicodeEscape;
    if b[0] == BACKSLASH && EscapeLen(b) == 6 {
      UnicodeEscapeFits(b);
    }
  }

  lemma EncSize(cp: int)
    requires 0 <= cp <= 0x10FFFF
    ensures cp <= 0xFFFF ==> |Enc(cp)| <= 3
  {
  }

  // ----- tokens -----

  datatype Token =
    | TPunct(c: byte) | TString(s: seq<byte>) | TInteger(n: int) | TReal(text: seq<byte>)
    | TTrue | TFalse | TNull | TEof | TInvalid

  /** A token and the characters after it. After TInvalid nobody reads on. */
  datatype Lexeme = Lexeme(token: Token, rest: seq<byte>)

  function SkipBlanks(u: seq<byte>): (v: seq<byte>)
    ensures |v| <= |u|
    ensures v != [] ==> !IsBlank(v[0])
  {
    if u != [] && IsBlank(u[0]) then SkipBlanks(u[1..]) else u
  }

  function DigitsLen(u: seq<byte>): (n: nat)
    ensures n <= |u|
  {
    if u != [] && IsDigit(u[0]) then 1 + DigitsLen(u[1..]) else 0
  }

  function AlphaLen(u: seq<byte>): (n: nat)
    ensures n <= |u|
  {
    if u != [] && IsAlpha(u[0]) then 1 + AlphaLen(u[1..]) else 0
  }

  /** Where the digits that start at `i` end. */
  function DigitsEnd(u: seq<byte>, i: nat): (j: nat)
    requires i <= |u|
    ensures i <= j <= |u|
  {
    i + DigitsLen(u[i..])
  }

  function DecValue(s: seq<byte>): nat {
    if s == [] then 0 else DecValue(s[..|s| - 1]) * 10 + (if IsDigit(s[|s| - 1]) then s[|s| - 1] - 0x30 else 0)
  }

  /** The integer strtol reads from an optional minus sign and digits. */
  function IntValue(s: seq<byte>): int {
    if s != [] && s[0] == MINUS then 0 - DecValue(s[1..]) else DecValue(s)
  }

  predicate FitsInt(n: int) {
    -0x8000_0000 <= n <= 0x7FFF_FFFF
  }

  /** Where the integer part of a number ends, or None when there is none or it has a leading zero. */
  function IntEnd(u: seq<byte>): Option<nat> {
    var i := if At(u, 0) == MINUS then 1 else 0;
    if At(u, i) == ZERO then
      if IsDigit(At(u, i + 1)) then None else Some(i + 1)
    else if IsDigit(At(u, i)) then Some(DigitsEnd(u, i))
    else None
  }

  /** Where fraction and exponent of a real end, from the end `i` of its integer part. */
  function RealEnd(u: seq<byte>, i: nat): Option<nat>
    requires i <= |u|
  {
    if At(u, i) == DOT then
      if !IsDigit(At(u, i + 1)) then None
      else
        var j := DigitsEnd(u, i + 1);
        if IsExp(At(u, j)) then ExpEnd(u, j) else Some(j)
    else ExpEnd(u, i)
  }

  function ExpEnd(u: seq<byte>, i: nat): Option<nat>
    requires i <= |u|
  {
    var j := if At(u, i + 1) == PLUS || At(u, i + 1) == MINUS then i + 2 else i + 1;
    if !IsDigit(At(u, j)) then None else Some(DigitsEnd(u, j))
  }

  function LexNumber(u: seq<byte>): Lexeme {
    match IntEnd(u)
    case None => Lexeme(TInvalid, [])
    case Some(i) =>
      if i > |u| then Lexeme(TInvalid, [])
      else if At(u, i) == DOT || IsExp(At(u, i)) then
        (match RealEnd(u, i)
         case None => Lexeme(TInvalid, [])
         case Some(j) => if j > |u| then Lexeme(TInvalid, []) else Lexeme(TReal(u[..j]), u[j..]))
      else if FitsInt(IntValue(u[..i])) then Lexeme(TInteger(IntValue(u[..i])), u[i..])
      else Lexeme(TInvalid, [])
  }

  function WordToken(w: seq<byte>): Token {
    if w == TRUE_TEXT then TTrue else if w == FALSE_TEXT then TFalse else if w == NULL_TEXT then TNull else TInvalid
  }

  function LexString(u: seq<byte>): Lexeme {
    match BodyLen(u)
    case None => Lexeme(TInvalid, [])
    case Some(n) =>
      (match Decode(u[..n])
       case None => Lexeme(TInvalid, [])
       case Some(s) => Lexeme(TString(s), u[n + 1..]))
  }

  /** lex_scan, on the characters `u` that are left; `clean` says whether the EOF after them is the end. */
  function Lex(u: seq<byte>, clean: bool): (l: Lexeme)
  {
    var v := SkipBlanks(u);
    if v == [] then Lexeme(if clean then TEof else TInvalid, [])
    else if IsPunct(v[0]) then Lexeme(TPunct(v[0]), v[1..])
    else if v[0] == QUOTE then LexString(v[1..])
    else if IsDigit(v[0]) || v[0] == MINUS then LexNumber(v)
    else if IsAlpha(v[0]) then Lexeme(WordToken(v[..AlphaLen(v)]), v[AlphaLen(v)..])
    else Lexeme(TInvalid, [])
  }

  lemma NumberEnds(u: seq<byte>)
    requires u != [] && (IsDigit(u[0]) || u[0] == MINUS)
    ensures IntEnd(u).Some? ==> 0 < IntEnd(u).value <= |u|
    ensures forall i: nat | i <= |u| && (At(u, i) == DOT || IsExp(At(u, i))) && RealEnd(u, i).Some? ::
              i < RealEnd(u, i).value <= |u|
  {
  }

  /** A token other than EOF takes at least one character. */
  lemma LexProgress(u: seq<byte>, clean: bool)
    ensures |Lex(u, clean).rest| <= |u|
    ensures Lex(u, clean).token != TEof && Lex(u, clean).token != TInvalid ==> |Lex(u, clean).rest| < |u|
    ensures Lex(u, clean).token == TEof ==> Lex(u, clean).rest == []
  {
    hide IntEnd, RealEnd, BodyLen, Decode;
    var v := SkipBlanks(u);
    if v != [] && (IsDigit(v[0]) || v[0] == MINUS) {
      NumberEnds(v);
    }
  }

  // ----- values -----

  /** A parsed value and the characters after it. */
  datatype Parsed = Parsed(value: Json, rest: seq<byte>)

  /** json_object_set_nocheck, in insertion order: a key seen before keeps its place and gets the new value. */
  function SetField(fields: seq<Field>, key: seq<byte>, value: Json): seq<Field> {
    if fields == [] then [Field(key, value)]
    else if fields[0].key == key then [Field(key, value)] + fields[1..]
    else [fields[0]] + SetField(fields[1..], key, value)
  }

  /** parse_value, for the current token `tok` and the characters `u` after it. */
  function ParseValue(tok: Token, u: seq<byte>, clean: bool): (p: Option<Parsed>)
    ensures p.Some? ==> |p.value.rest| <= |u|
    decreases |u|, 1
  {
    match tok
    case TString(s) => Some(Parsed(String(s), u))
    case TInteger(n) => Some(Parsed(Integer(n), u))
    case TReal(text) => Some(Parsed(Real(text), u))
    case TTrue => Some(Parsed(True, u))
    case TFalse => Some(Parsed(False, u))
    case TNull => Some(Parsed(Null, u))
    case TPunct(c) =>
      if c == LBRACE then ParseObject(u, clean) else if c == LBRACKET then ParseArray(u, clean) else None
    case _ => None
  }

  function ParseArray(u: seq<byte>, clean: bool): (p: Option<Parsed>)
    ensures p.Some? ==> |p.value.rest| <= |u|
    decreases |u|, 0
  {
    LexProgress(u, clean);
    var l := Lex(u, clean);
    if l.token == TPunct(RBRACKET) then Some(Parsed(Array([]), l.rest))
    else if l.token == TEof || l.token == TInvalid then None
    else ParseElements(l.token, l.rest, [], clean)
  }

  /** The loop of parse_array, with the elements parsed so far. */
  function ParseElements(tok: Token, u: seq<byte>, done: seq<Json>, clean: bool): (p: Option<Parsed>)
    ensures p.Some? ==> |p.value.rest| <= |u|
    decreases |u|, 2
  {
    match ParseValue(tok, u, clean)
    case None => None
    case Some(Parsed(v, r)) =>
      LexProgress(r, clean);
      var l := Lex(r, clean);
      if l.token == TPunct(RBRACKET) then Some(Parsed(Array(done + [v]), l.rest))
      else if l.token == TPunct(COMMA) then
        LexProgress(l.rest, clean);
        var m := Lex(l.rest, clean);
        ParseElements(m.token, m.rest, done + [v], clean)
      else None
  }

  function ParseObject(u: seq<byte>, clean: bool): (p: Option<Parsed>)
    ensures p.Some? ==> |p.value.rest| <= |u|
    decreases |u|, 0
  {
    LexProgress(u, clean);
    var l := Lex(u, clean);
    if l.token == TPunct(RBRACE) then Some(Parsed(Object([]), l.rest))
    else if l.token.TString? then ParseMembers(l.token, l.rest, [], clean)
    else None
  }

  /** The colon and the value of a member, after its key. */
  function MemberValue(u: seq<byte>, clean: bool): (p: Option<Parsed>)
    ensures p.Some? ==> |p.value.rest| <= |u|
    decreases |u|, 2
  {
    LexProgress(u, clean);
    var colon := Lex(u, clean);
    if colon.token != TPunct(COLON) then None
    else
      LexProgress(colon.rest, clean);
      var l := Lex(colon.rest, clean);
      ParseValue(l.token, l.rest, clean)
  }

  /** The loop of parse_object, with the fields parsed so far. */
  function ParseMembers(tok: Token, u: seq<byte>, done: seq<Field>, clean: bool): (p: Option<Parsed>)
    ensures p.Some? ==> |p.value.rest| <= |u|
    decreases |u|, 3
  {
    if !tok.TString? then None
    else
      match MemberValue(u, clean)
      case None => None
      case Some(Parsed(v, r)) =>
        LexProgress(r, clean);
        var l := Lex(r, clean);
        var fields := SetField(done, tok.s, v);
        if l.token == TPunct(RBRACE) then Some(Parsed(Object(fields), l.rest))
        else if l.token == TPunct(COMMA) then
          LexProgress(l.rest, clean);
          var m := Lex(l.rest, clean);
          ParseMembers(m.token, m.rest, fields, clean)
        else None
  }

  /** A parse does not go on from a token that is none. */
  lemma BadTokenFails(l: Lexeme, done: seq<Json>, clean: bool)
    ensures l.token == TEof || l.token == TInvalid ==> ParseElements(l.token, l.rest, done, clean) == None
  {
  }

  /** parse_json. */
  function ParseDocument(u: seq<byte>, clean: bool): Option<Parsed> {
    var l := Lex(u, clean);
    if l.token != TPunct(LBRACKET) && l.token != TPunct(LBRACE) then None else ParseValue(l.token, l.rest, clean)
  }

  /** json_loads, on a C string. */
  function Loads(text: seq<byte>): Option<Json> {
    match ParseDocument(Visible(text), Clean(text))
    case None => None
    case Some(Parsed(v, r)) => if Lex(r, Clean(text)).token == TEof then Some(v) else None
  }
}
