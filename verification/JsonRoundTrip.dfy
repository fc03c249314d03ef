/** Parsing what the printer wrote gives the value back. */
module JsonRoundTrip {
  import opened Words
  import opened Radix
  import opened Utf8
  import opened JsonText
  import opened JsonStrings
  import opened JsonDump
  import opened JsonLexer

  // ----- escapes -----

  lemma HexReads(d: int)
    requires 0 <= d < 16
    ensures IsHex(LowerHex(d)) && HexDigit(LowerHex(d)) == d
  {
  }

  lemma HexDigitsOf(v: int)
    requires 0 <= v <= 0xFFFF
    ensures ((v / 16 / 16 / 16 * 16 + v / 16 / 16 % 16) * 16 + v / 16 % 16) * 16 + v % 16 == v
    ensures v / 16 / 16 / 16 < 16
  {
  }

  /** The lexer reads a printed Unicode escape as one escape with the value printed. */
  lemma UnicodeReads(v: int, t: seq<byte>)
    requires 0 <= v <= 0xFFFF
    ensures EscapeLen(UnicodeText(v) + t) == 6
    ensures Hex4((UnicodeText(v) + t)[2..6]) == v
    ensures (UnicodeText(v) + t)[6..] == t
  {
    HexDigitsOf(v);
    HexReads(v / 16 / 16 / 16);
    HexReads(v / 16 / 16 % 16);
    HexReads(v / 16 % 16);
    HexReads(v % 16);
    hide LowerHex, HexDigit, IsHex;
  }

  /** How a stretch `c` of a printed string is read: the first pass goes over it, the second turns it
      into `out`, whatever follows. */
  ghost predicate ReadsAs(c: seq<byte>, out: seq<byte>, t: seq<byte>) {
    BodyLen(c + t) == Ahead(|c|, BodyLen(t)) && Decode(c + t) == Glue(out, Decode(t))
  }

  /** A stretch that both passes handle in one step. */
  lemma OneEscape(c: seq<byte>, out: seq<byte>, t: seq<byte>)
    requires |c| > 0 && (c + t)[0] == BACKSLASH && EscapeLen(c + t) == |c| && DecodeStep(c + t) == Some((out, |c|))
    ensures ReadsAs(c, out, t)
  {
    hide EscapeLen, DecodeStep;
    assert (c + t)[|c|..] == t;
  }

  lemma SimpleReads(e: byte, t: seq<byte>)
    requires IsSimpleEscape(e)
    ensures ReadsAs([BACKSLASH, e], [SimpleEscape(e)], t)
  {
    OneEscape([BACKSLASH, e], [SimpleEscape(e)], t);
  }

  lemma BmpReads(cp: int, t: seq<byte>)
    requires Scalar(cp) && 0 < cp < 0x10000
    ensures ReadsAs(UnicodeText(cp), Enc(cp), t)
  {
    hide UnicodeText, Enc, Hex4, EscapeLen;
    UnicodeReads(cp, t);
    UnicodeStart(cp, t);
    OneEscape(UnicodeText(cp), Enc(cp), t);
  }

  lemma UnicodeStart(v: int, t: seq<byte>)
    requires 0 <= v <= 0xFFFF
    ensures |UnicodeText(v)| == 6 && (UnicodeText(v) + t)[0] == BACKSLASH
  {
  }

  lemma SurrogateHalves(cp: int)
    requires 0x10000 <= cp <= 0x10FFFF
    ensures var hi, lo := 0xD800 + (cp - 0x10000) / 0x400, 0xDC00 + (cp - 0x10000) % 0x400;
            IsHighSurrogate(hi) && IsLowSurrogate(lo) && FromSurrogates(hi, lo) == cp
  {
  }

  lemma PairReads(cp: int, t: seq<byte>)
    requires 0x10000 <= cp <= 0x10FFFF
    ensures var hi, lo := 0xD800 + (cp - 0x10000) / 0x400, 0xDC00 + (cp - 0x10000) % 0x400;
            ReadsAs(UnicodeText(hi) + UnicodeText(lo), Enc(cp), t)
  {
    hide UnicodeText, Enc, Hex4, EscapeLen;
    var hi, lo := 0xD800 + (cp - 0x10000) / 0x400, 0xDC00 + (cp - 0x10000) % 0x400;
    SurrogateHalves(cp);
    var h, l := UnicodeText(hi), UnicodeText(lo);
    var b := h + l + t;
    assert b == h + (l + t);
    UnicodeReads(hi, l + t);
    UnicodeReads(lo, t);
    UnicodeStart(hi, l + t);
    UnicodeStart(lo, t);
    assert b[6..] == l + t;
    assert b[8..12] == (l + t)[2..6];
    assert b[12..] == t;
    assert UnicodeEscape(b) == Some((cp, 12));
    assert DecodeStep(b) == Some((Enc(cp), 12));
    PairBodyLen(h, l, t);
    assert Decode(b) == Glue(Enc(cp), Decode(b[12..]));
  }

  lemma PairBodyLen(h: seq<byte>, l: seq<byte>, t: seq<byte>)
    requires |h| == 6 && |l| == 6 && h[0] == BACKSLASH && l[0] == BACKSLASH
    requires EscapeLen(h + (l + t)) == 6 && EscapeLen(l + t) == 6
    ensures BodyLen(h + l + t) == Ahead(12, BodyLen(t))
  {
    hide EscapeLen;
    assert h + l + t == h + (l + t);
    assert (h + (l + t))[6..] == l + t && (l + t)[6..] == t;
  }

  /** The escape text of a code point is read as that code point. */
  lemma EscapeReads(cp: int, t: seq<byte>)
    requires Scalar(cp) && cp > 0
    ensures ReadsAs(EscapeText(cp), Enc(cp), t)
  {
    hide ReadsAs, UnicodeText;
    if cp == BACKSLASH { SimpleReads(BACKSLASH, t); }
    else if cp == QUOTE { SimpleReads(QUOTE, t); }
    else if cp == 0x08 { SimpleReads(0x62, t); }
    else if cp == 0x0C { SimpleReads(0x66, t); }
    else if cp == 0x0A { SimpleReads(0x6E, t); }
    else if cp == 0x0D { SimpleReads(0x72, t); }
    else if cp == 0x09 { SimpleReads(0x74, t); }
    else if cp < 0x10000 { BmpReads(cp, t); }
    else { PairReads(cp, t); }
  }

  /** A character printed as it is, is read as it is. */
  lemma PlainReads(cp: int, ascii: bool, t: seq<byte>)
    requires Scalar(cp) && !MustEscape(cp, ascii)
    ensures ReadsAs(Enc(cp), Enc(cp), t)
  {
    var c := Enc(cp);
    if cp < 0x80 {
      assert (c + t)[1..] == t;
      DecodePlainOne(c + t);
    } else {
      EncodedIsHigh(cp);
      assert (c + t)[|c|..] == t && (c + t)[..|c|] == c;
      BodyLenPlain(c + t, |c|);
      DecodePlain(c + t, |c|);
    }
  }

  lemma EncodedIsHigh(cp: int)
    requires Scalar(cp) && cp >= 0x80
    ensures forall i | 0 <= i < |Enc(cp)| :: Enc(cp)[i] >= 0x80
  {
  }

  lemma CharReads(cp: int, ascii: bool, t: seq<byte>)
    requires Scalar(cp) && cp > 0
    ensures ReadsAs(CharText(cp, ascii), Enc(cp), t)
  {
    hide ReadsAs, EscapeText, Enc;
    if MustEscape(cp, ascii) { EscapeReads(cp, t); } else { PlainReads(cp, ascii, t); }
  }

  // ----- strings -----

  /** The first character of a string, and what is left. */
  lemma FirstCharacter(s: seq<byte>, ascii: bool)
    requires ValidText(s) && s != []
    ensures 0 < StepLen(s) && ValidText(s[StepLen(s)..])
    ensures Scalar(StepPoint(s)) && StepPoint(s) > 0 && Enc(StepPoint(s)) + s[StepLen(s)..] == s
    ensures Escaped(s, ascii) == CharText(StepPoint(s), ascii) + Escaped(s[StepLen(s)..], ascii)
  {
    hide CharText, Enc;
    ValidStep(s);
    StepIsEncoded(s);
    NonZeroPoint(s);
  }

  lemma {:induction false} EscapedBodyLen(s: seq<byte>, ascii: bool, t: seq<byte>)
    requires ValidText(s)
    ensures BodyLen(Escaped(s, ascii) + [QUOTE] + t) == Some(|Escaped(s, ascii)|)
  {
    hide CharText, Enc, Valid, StepLen, StepPoint, Decode;
    if s == [] {
      assert [] + [QUOTE] + t == [QUOTE] + t;
    } else {
      FirstCharacter(s, ascii);
      var n, cp := StepLen(s), StepPoint(s);
      var c, rest := CharText(cp, ascii), Escaped(s[n..], ascii);
      EscapedBodyLen(s[n..], ascii, t);
      CharReads(cp, ascii, rest + [QUOTE] + t);
      assert c + rest + [QUOTE] + t == c + (rest + [QUOTE] + t);
    }
  }

  lemma {:induction false} EscapedDecodes(s: seq<byte>, ascii: bool)
    requires ValidText(s)
    ensures Decode(Escaped(s, ascii)) == Some(s)
  {
    hide CharText, Enc, Valid, StepLen, StepPoint, BodyLen;
    if s != [] {
      FirstCharacter(s, ascii);
      var n, cp := StepLen(s), StepPoint(s);
      EscapedDecodes(s[n..], ascii);
      CharReads(cp, ascii, Escaped(s[n..], ascii));
    }
  }

  lemma NonZeroPoint(s: seq<byte>)
    requires s != [] && StepLen(s) > 0 && s[0] != 0
    ensures StepPoint(s) > 0
  {
    StepIsEncoded(s);
    var cp := StepPoint(s);
    assert Enc(0) == [0];
  }

  /** A printed string is one token, with the string as its value. */
  lemma StringReads(s: seq<byte>, ascii: bool, t: seq<byte>, clean: bool)
    requires ValidText(s)
    ensures Lex(StringText(s, ascii) + t, clean) == Lexeme(TString(s), t)
  {
    hide Escaped, BodyLen, Decode, LexNumber;
    var e := Escaped(s, ascii);
    var u := StringText(s, ascii) + t;
    EscapedBodyLen(s, ascii, t);
    EscapedDecodes(s, ascii);
    assert u[1..] == e + [QUOTE] + t;
    assert (e + [QUOTE] + t)[..|e|] == e;
    assert (e + [QUOTE] + t)[|e| + 1..] == t;
    assert SkipBlanks(u) == u;
  }

  // ----- numbers -----

  /** Nothing that would extend a number or a word. */
  predicate Ends(t: seq<byte>) {
    t == [] || (!IsDigit(t[0]) && !IsAlpha(t[0]) && t[0] != DOT)
  }

  lemma {:induction false} DigitsAreDigits(n: nat)
    ensures forall i | 0 <= i < |Digits(n)| :: IsDigit(Digits(n)[i])
    ensures n >= 10 ==> Digits(n)[0] != ZERO
    ensures n < 10 ==> |Digits(n)| == 1
  {
    if n >= 10 {
      DigitsAreDigits(n / 10);
      if n / 10 < 10 {
        assert Digits(n / 10) == [0x30 + n / 10];
      }
    }
  }

  lemma {:induction false} DigitsRead(n: nat)
    ensures DecValue(Digits(n)) == n
  {
    if n >= 10 {
      DigitsRead(n / 10);
      assert Digits(n)[..|Digits(n)| - 1] == Digits(n / 10);
    } else {
      assert [0x30 + n][..0] == [];
    }
  }

  lemma {:induction false} DigitsLenOf(s: seq<byte>, t: seq<byte>)
    requires Ends(t) && forall i | 0 <= i < |s| :: IsDigit(s[i])
    ensures DigitsLen(s + t) == |s|
  {
    if s == [] {
      assert s + t == t;
    } else {
      assert (s + t)[1..] == s[1..] + t;
      DigitsLenOf(s[1..], t);
    }
  }

  /** The integer part of a printed number is all of it. */
  lemma IntEndOf(n: int, t: seq<byte>)
    requires Ends(t)
    ensures IntEnd(IntText(n) + t) == Some(|IntText(n)|)
  {
    hide Digits;
    var d := if n < 0 then Digits(0 - n) else Digits(n);
    DigitsAreDigits(if n < 0 then 0 - n else n);
    var u := IntText(n) + t;
    var i := if n < 0 then 1 else 0;
    assert u[i..] == d + t;
    DigitsLenOf(d, t);
    assert At(u, i) == d[0];
    if d[0] == ZERO {
      assert |d| == 1;
      assert At(u, i + 1) == At(t, 0);
    }
  }

  lemma IntValueOf(n: int)
    ensures IntValue(IntText(n)) == n
  {
    hide Digits;
    DigitsRead(if n < 0 then 0 - n else n);
    if n < 0 {
      assert IntText(n)[1..] == Digits(0 - n);
    } else {
      DigitsAreDigits(n);
    }
  }

  lemma IntStart(n: int)
    ensures IntText(n) != [] && (IsDigit(IntText(n)[0]) || IntText(n)[0] == MINUS)
  {
    DigitsAreDigits(if n < 0 then 0 - n else n);
  }

  lemma IntReads(n: int, t: seq<byte>, clean: bool)
    requires FitsInt(n) && Ends(t)
    ensures Lex(IntText(n) + t, clean) == Lexeme(TInteger(n), t)
  {
    hide IntText, IntEnd, IntValue, RealEnd, LexString;
    var u := IntText(n) + t;
    IntStart(n);
    IntEndOf(n, t);
    IntValueOf(n);
    assert u[..|IntText(n)|] == IntText(n) && u[|IntText(n)|..] == t;
    assert SkipBlanks(u) == u;
    assert At(u, |IntText(n)|) == At(t, 0);
  }

  // ----- words, punctuation and blanks -----

  lemma {:induction false} AlphaLenOf(s: seq<byte>, t: seq<byte>)
    requires Ends(t) && forall i | 0 <= i < |s| :: IsAlpha(s[i])
    ensures AlphaLen(s + t) == |s|
  {
    if s == [] {
      assert s + t == t;
    } else {
      assert (s + t)[1..] == s[1..] + t;
      AlphaLenOf(s[1..], t);
    }
  }

  lemma WordReads(w: seq<byte>, t: seq<byte>, clean: bool)
    requires w != [] && Ends(t) && forall i | 0 <= i < |w| :: IsAlpha(w[i])
    ensures Lex(w + t, clean) == Lexeme(WordToken(w), t)
  {
    hide WordToken, LexString, LexNumber;
    var u := w + t;
    AlphaLenOf(w, t);
    assert u[..|w|] == w && u[|w|..] == t && u[0] == w[0];
    assert SkipBlanks(u) == u;
  }

  lemma PunctReads(c: byte, t: seq<byte>, clean: bool)
    requires IsPunct(c)
    ensures Lex([c] + t, clean) == Lexeme(TPunct(c), t)
  {
    hide LexString, LexNumber;
    assert SkipBlanks([c] + t) == [c] + t;
    assert ([c] + t)[1..] == t;
  }

  predicate AllBlank(s: seq<byte>) {
    forall i | 0 <= i < |s| :: IsBlank(s[i])
  }

  lemma {:induction false} BlanksSkipped(s: seq<byte>, t: seq<byte>)
    requires AllBlank(s)
    ensures SkipBlanks(s + t) == SkipBlanks(t)
  {
    if s == [] {
      assert s + t == t;
    } else {
      assert (s + t)[1..] == s[1..] + t;
      BlanksSkipped(s[1..], t);
    }
  }

  /** White space in front of a token does not matter. */
  lemma BlanksIgnored(s: seq<byte>, t: seq<byte>, clean: bool)
    requires AllBlank(s)
    ensures Lex(s + t, clean) == Lex(t, clean)
  {
    hide LexString, LexNumber, WordToken;
    BlanksSkipped(s, t);
  }

  lemma {:induction false} RepeatBlank(s: seq<byte>, n: nat)
    requires AllBlank(s)
    ensures AllBlank(Repeat(s, n))
  {
    if n > 0 {
      RepeatBlank(s, n - 1);
    }
  }

  lemma IndentIsBlank(f: Flags, depth: nat, space: bool)
    ensures AllBlank(Indent(f, depth, space))
  {
    RepeatBlank(Spaces(f.indent), depth);
  }

  // ----- values -----

  /** No object has a key twice, as the hash table behind it guarantees. */
  predicate KeysDistinct(v: Json) {
    match v
    case Array(items) => forall i | 0 <= i < |items| :: KeysDistinct(items[i])
    case Object(fields) => FieldKeysDistinct(fields) && forall i | 0 <= i < |fields| :: KeysDistinct(fields[i].value)
    case _ => true
  }

  predicate FieldKeysDistinct(fields: seq<Field>) {
    forall i, j | 0 <= i < j < |fields| :: fields[i].key != fields[j].key
  }

  predicate ItemsOk(items: seq<Json>) {
    forall i | 0 <= i < |items| :: Printable(items[i]) && KeysDistinct(items[i])
  }

  predicate FieldsOk(fields: seq<Field>) {
    forall i | 0 <= i < |fields| ::
      ValidText(fields[i].key) && Printable(fields[i].value) && KeysDistinct(fields[i].value)
  }

  /** The token `l` and what follows it parse as `v`, leaving `t`. */
  ghost predicate ParsesAs(l: Lexeme, v: Json, t: seq<byte>, clean: bool) {
    ParseValue(l.token, l.rest, clean) == Some(Parsed(v, t)) && l.token != TEof && l.token != TInvalid
        && l.token != TPunct(RBRACKET)
  }

  lemma {:induction false} SetNewField(done: seq<Field>, key: seq<byte>, value: Json)
    requires forall i | 0 <= i < |done| :: done[i].key != key
    ensures SetField(done, key, value) == done + [Field(key, value)]
  {
    if done != [] {
      SetNewField(done[1..], key, value);
    }
  }

  lemma EndsWith(s: seq<byte>, c: byte, t: seq<byte>)
    requires AllBlank(s) && IsPunct(c)
    ensures Ends(s + ([c] + t))
  {
  }

  /** What stands after the last element and after every other. */
  lemma CloseReads(f: Flags, depth: nat, c: byte, t: seq<byte>, clean: bool)
    requires IsPunct(c)
    ensures Ends(Indent(f, depth, false) + ([c] + t))
    ensures Lex(Indent(f, depth, false) + ([c] + t), clean) == Lexeme(TPunct(c), t)
  {
    hide Indent, Lex;
    IndentIsBlank(f, depth, false);
    EndsWith(Indent(f, depth, false), c, t);
    BlanksIgnored(Indent(f, depth, false), [c] + t, clean);
    PunctReads(c, t, clean);
  }

  lemma CommaReads(f: Flags, depth: nat, t: seq<byte>, clean: bool)
    ensures Ends([COMMA] + (Indent(f, depth, true) + t))
    ensures Lex([COMMA] + (Indent(f, depth, true) + t), clean) == Lexeme(TPunct(COMMA), Indent(f, depth, true) + t)
    ensures Lex(Indent(f, depth, true) + t, clean) == Lex(t, clean)
  {
    hide Indent, Lex;
    IndentIsBlank(f, depth, true);
    PunctReads(COMMA, Indent(f, depth, true) + t, clean);
    BlanksIgnored(Indent(f, depth, true), t, clean);
  }

  lemma {:induction false} ItemsRead(items: seq<Json>, done: seq<Json>, f: Flags, depth: nat, t: seq<byte>, clean: bool)
    requires items != [] && ItemsOk(items)
    ensures var l := Lex(ItemsText(items, f, depth) + (Indent(f, depth, false) + ([RBRACKET] + t)), clean);
            ParseElements(l.token, l.rest, done, clean) == Some(Parsed(Array(done + items), t))
            && l.token != TEof && l.token != TInvalid && l.token != TPunct(RBRACKET)
    decreases items, 1
  {
    hide Indent, Lex, Ends, ParseValue, Text;
    var close := Indent(f, depth, false) + ([RBRACKET] + t);
    var first := Text(items[0], f, depth + 1);
    CloseReads(f, depth, RBRACKET, t, clean);
    if |items| == 1 {
      TextReads(items[0], f, depth + 1, close, clean);
      assert ItemsText(items, f, depth) == first;
      assert done + items == done + [items[0]];
    } else {
      var more := ItemsText(items[1..], f, depth);
      var after := [COMMA] + (Indent(f, depth + 1, true) + (more + close));
      ItemsRead(items[1..], done + [items[0]], f, depth, t, clean);
      CommaReads(f, depth + 1, more + close, clean);
      TextReads(items[0], f, depth + 1, after, clean);
      assert ItemsText(items, f, depth) + close == first + after;
      assert done + [items[0]] + items[1..] == done + items;
    }
  }

  lemma {:induction false} MembersRead(fields: seq<Field>, done: seq<Field>, f: Flags, depth: nat, t: seq<byte>,
      clean: bool)
    requires fields != [] && FieldsOk(fields) && FieldKeysDistinct(done + fields)
    ensures var l := Lex(MembersText(fields, f, depth) + (Indent(f, depth, false) + ([RBRACE] + t)), clean);
            ParseMembers(l.token, l.rest, done, clean) == Some(Parsed(Object(done + fields), t)) && l.token.TString?
    decreases fields, 1
  {
    hide Indent, Lex, Ends, ParseValue, Text, StringText, ValidText, SetField, MemberText, MembersText;
    var close := Indent(f, depth, false) + ([RBRACE] + t);
    CloseReads(f, depth, RBRACE, t, clean);
    var done' := done + [fields[0]];
    assert done' + fields[1..] == done + fields;
    forall i | 0 <= i < |done| ensures done[i].key != fields[0].key {
      assert (done + fields)[i] == done[i] && (done + fields)[|done|] == fields[0];
    }
    SetNewField(done, fields[0].key, fields[0].value);
    if |fields| == 1 {
      MemberReads(fields[0], f, depth, close, clean);
      FirstMember(fields, f, depth);
      assert MembersText(fields, f, depth) == MemberText(fields[0], f, depth);
      assert done + fields == done';
    } else {
      var more := MembersText(fields[1..], f, depth);
      var after := [COMMA] + (Indent(f, depth + 1, true) + (more + close));
      MembersRead(fields[1..], done', f, depth, t, clean);
      CommaReads(f, depth + 1, more + close, clean);
      MemberReads(fields[0], f, depth, after, clean);
      FirstMember(fields, f, depth);
      Regrouped(MemberText(fields[0], f, depth), [COMMA], Indent(f, depth + 1, true), more, close);
    }
  }

  lemma Regrouped(a: seq<byte>, b: seq<byte>, c: seq<byte>, d: seq<byte>, e: seq<byte>)
    ensures a + (b + c + d) + e == a + (b + (c + (d + e)))
  {
  }

  /** The printed key, separator and value of one member. */
  function MemberText(m: Field, f: Flags, depth: nat): seq<byte>
    requires ValidText(m.key) && Printable(m.value)
  {
    StringText(m.key, f.ascii) + Separator(f) + Text(m.value, f, depth + 1)
  }

  lemma FirstMember(fields: seq<Field>, f: Flags, depth: nat)
    requires fields != [] && FieldsOk(fields)
    ensures MembersText(fields, f, depth) == MemberText(fields[0], f, depth) +
              if |fields| == 1 then [] else [COMMA] + Indent(f, depth + 1, true) + MembersText(fields[1..], f, depth)
  {
    hide Text, StringText, ValidText, Indent, Printable, KeysDistinct;
  }

  lemma {:induction false} MemberReads(m: Field, f: Flags, depth: nat, t: seq<byte>, clean: bool)
    requires ValidText(m.key) && Printable(m.value) && KeysDistinct(m.value) && Ends(t)
    ensures var l := Lex(MemberText(m, f, depth) + t, clean);
            l.token == TString(m.key) && MemberValue(l.rest, clean) == Some(Parsed(m.value, t))
    decreases m, 0
  {
    hide Lex, Ends, ParseValue, Text, StringText, Valid, Printable, KeysDistinct;
    var value := Text(m.value, f, depth + 1);
    var blank := if f.compact then [] else [SPACE];
    assert MemberText(m, f, depth) + t == StringText(m.key, f.ascii) + ([COLON] + (blank + (value + t)));
    StringReads(m.key, f.ascii, [COLON] + (blank + (value + t)), clean);
    PunctReads(COLON, blank + (value + t), clean);
    BlanksIgnored(blank, value + t, clean);
    TextReads(m.value, f, depth + 1, t, clean);
  }

  /** The printed text of a value is read back as that value, with what follows left over. */
  lemma {:induction false} TextReads(v: Json, f: Flags, depth: nat, t: seq<byte>, clean: bool)
    requires Printable(v) && KeysDistinct(v) && Ends(t)
    ensures ParsesAs(Lex(Text(v, f, depth) + t, clean), v, t, clean)
    decreases v, 0
  {
    hide Lex, Ends, StringText, IntText, Indent;
    match v
    case Null => WordReads(NULL_TEXT, t, clean);
    case True => WordReads(TRUE_TEXT, t, clean);
    case False => WordReads(FALSE_TEXT, t, clean);
    case Integer(n) => IntReads(n, t, clean);
    case String(s) => StringReads(s, f.ascii, t, clean);
    case Array(items) => ArrayReads(v, f, depth, t, clean);
    case Object(fields) => ObjectReads(v, f, depth, t, clean);
  }

  lemma {:induction false} ArrayReads(v: Json, f: Flags, depth: nat, t: seq<byte>, clean: bool)
    requires v.Array? && Printable(v) && KeysDistinct(v)
    ensures ParsesAs(Lex(Text(v, f, depth) + t, clean), v, t, clean)
    decreases v, 0, 0
  {
    hide Lex, Indent, Text, ItemsText, ParseElements, ParseArray;
    var items := v.items;
    TextOfArray(items, f, depth);
    if items == [] {
      Associate([LBRACKET], [RBRACKET], t);
      PunctReads(LBRACKET, [RBRACKET] + t, clean);
      PunctReads(RBRACKET, t, clean);
      EmptyArray([RBRACKET] + t, t, clean);
    } else {
      var open, close := Indent(f, depth + 1, false), Indent(f, depth, false);
      var body := ItemsText(items, f, depth) + (close + ([RBRACKET] + t));
      Unbracketed([LBRACKET], open, ItemsText(items, f, depth), close, [RBRACKET], t);
      PunctReads(LBRACKET, open + body, clean);
      IndentIsBlank(f, depth + 1, false);
      BlanksIgnored(open, body, clean);
      ItemsRead(items, [], f, depth, t, clean);
      assert [] + items == items;
      ArrayStarts(open + body, v, t, clean);
    }
  }

  lemma Unbracketed(a: seq<byte>, b: seq<byte>, c: seq<byte>, d: seq<byte>, e: seq<byte>, t: seq<byte>)
    ensures a + b + (c + d) + e + t == a + (b + (c + (d + (e + t))))
  {
  }

  lemma EmptyArray(s: seq<byte>, t: seq<byte>, clean: bool)
    requires Lex(s, clean) == Lexeme(TPunct(RBRACKET), t)
    ensures ParseArray(s, clean) == Some(Parsed(Array([]), t))
  {
    hide Lex, ParseElements;
  }

  /** An array that does not end at once is read element by element. */
  lemma ArrayStarts(s: seq<byte>, v: Json, t: seq<byte>, clean: bool)
    requires var l := Lex(s, clean);
             ParseElements(l.token, l.rest, [], clean) == Some(Parsed(v, t))
             && l.token != TEof && l.token != TInvalid && l.token != TPunct(RBRACKET)
    ensures ParseArray(s, clean) == Some(Parsed(v, t))
  {
    hide Lex, ParseElements;
  }

  lemma EmptyObject(s: seq<byte>, t: seq<byte>, clean: bool)
    requires Lex(s, clean) == Lexeme(TPunct(RBRACE), t)
    ensures ParseObject(s, clean) == Some(Parsed(Object([]), t))
  {
    hide Lex, ParseMembers;
  }

  /** An object that does not end at once is read member by member. */
  lemma ObjectStarts(s: seq<byte>, v: Json, t: seq<byte>, clean: bool)
    requires var l := Lex(s, clean);
             l.token.TString? && ParseMembers(l.token, l.rest, [], clean) == Some(Parsed(v, t))
    ensures ParseObject(s, clean) == Some(Parsed(v, t))
  {
    hide Lex, ParseMembers;
  }

  lemma {:induction false} ObjectReads(v: Json, f: Flags, depth: nat, t: seq<byte>, clean: bool)
    requires v.Object? && Printable(v) && KeysDistinct(v)
    ensures ParsesAs(Lex(Text(v, f, depth) + t, clean), v, t, clean)
    decreases v, 0, 0
  {
    hide Lex, Indent, Text, MembersText, ParseMembers, ParseObject;
    var fields := v.fields;
    TextOfObject(fields, f, depth);
    if fields == [] {
      Associate([LBRACE], [RBRACE], t);
      PunctReads(LBRACE, [RBRACE] + t, clean);
      PunctReads(RBRACE, t, clean);
      EmptyObject([RBRACE] + t, t, clean);
    } else {
      var open, close := Indent(f, depth + 1, false), Indent(f, depth, false);
      var body := MembersText(fields, f, depth) + (close + ([RBRACE] + t));
      Unbracketed([LBRACE], open, MembersText(fields, f, depth), close, [RBRACE], t);
      PunctReads(LBRACE, open + body, clean);
      IndentIsBlank(f, depth + 1, false);
      BlanksIgnored(open, body, clean);
      assert [] + fields == fields;
      MembersRead(fields, [], f, depth, t, clean);
      ObjectStarts(open + body, v, t, clean);
    }
  }

  // ----- the printed text reaches the lexer unchanged -----

  lemma AsciiIsText(s: seq<byte>)
    requires forall i | 0 <= i < |s| :: 0 < s[i] < 0x80
    ensures ValidText(s)
  {
    AsciiIsValid(s);
  }

  lemma CharIsText(cp: int, ascii: bool)
    requires Scalar(cp) && cp > 0
    ensures ValidText(CharText(cp, ascii))
  {
    if MustEscape(cp, ascii) {
      AsciiIsText(EscapeText(cp));
    } else {
      NonZeroEncoding(cp);
    }
  }

  lemma {:induction false} EscapedIsText(s: seq<byte>, ascii: bool)
    requires ValidText(s)
    ensures ValidText(Escaped(s, ascii))
  {
    hide CharText, Enc, Valid, StepLen, StepPoint;
    if s == [] {
      AsciiIsText([]);
    } else {
      FirstCharacter(s, ascii);
      EscapedIsText(s[StepLen(s)..], ascii);
      CharIsText(StepPoint(s), ascii);
      ValidTextConcat(CharText(StepPoint(s), ascii), Escaped(s[StepLen(s)..], ascii));
    }
  }

  lemma StringTextIsText(s: seq<byte>, ascii: bool)
    requires ValidText(s)
    ensures ValidText(StringText(s, ascii))
  {
    hide Escaped, Valid;
    EscapedIsText(s, ascii);
    AsciiIsText([QUOTE]);
    ValidTextConcat([QUOTE], Escaped(s, ascii));
    ValidTextConcat([QUOTE] + Escaped(s, ascii), [QUOTE]);
  }

  lemma IntTextIsText(n: int)
    ensures ValidText(IntText(n))
  {
    DigitsAreDigits(if n < 0 then 0 - n else n);
    AsciiIsText(IntText(n));
  }

  lemma IndentIsText(f: Flags, depth: nat, space: bool)
    ensures ValidText(Indent(f, depth, space))
  {
    IndentIsBlank(f, depth, space);
    AsciiIsText(Indent(f, depth, space));
  }

  lemma {:induction false} ItemsTextIsText(items: seq<Json>, f: Flags, depth: nat)
    requires items != [] && forall i | 0 <= i < |items| :: Printable(items[i])
    ensures ValidText(ItemsText(items, f, depth))
    decreases items, 1
  {
    hide Valid, Text, Indent;
    TextIsText(items[0], f, depth + 1);
    if |items| > 1 {
      ItemsTextIsText(items[1..], f, depth);
      IndentIsText(f, depth + 1, true);
      AsciiIsText([COMMA]);
      ValidTextConcat([COMMA], Indent(f, depth + 1, true));
      ValidTextConcat([COMMA] + Indent(f, depth + 1, true), ItemsText(items[1..], f, depth));
      ValidTextConcat(Text(items[0], f, depth + 1),
                      [COMMA] + Indent(f, depth + 1, true) + ItemsText(items[1..], f, depth));
    } else {
      assert Text(items[0], f, depth + 1) + [] == Text(items[0], f, depth + 1);
    }
  }

  lemma {:induction false} MembersTextIsText(fields: seq<Field>, f: Flags, depth: nat)
    requires fields != [] && forall i | 0 <= i < |fields| :: ValidText(fields[i].key) && Printable(fields[i].value)
    ensures ValidText(MembersText(fields, f, depth))
    decreases fields, 1
  {
    hide Valid, Text, Indent, StringText, Separator;
    var key, value := StringText(fields[0].key, f.ascii), Text(fields[0].value, f, depth + 1);
    StringTextIsText(fields[0].key, f.ascii);
    SeparatorIsText(f);
    TextIsText(fields[0].value, f, depth + 1);
    ValidTextConcat(key, Separator(f));
    ValidTextConcat(key + Separator(f), value);
    if |fields| > 1 {
      MembersTextIsText(fields[1..], f, depth);
      IndentIsText(f, depth + 1, true);
      AsciiIsText([COMMA]);
      ValidTextConcat([COMMA], Indent(f, depth + 1, true));
      ValidTextConcat([COMMA] + Indent(f, depth + 1, true), MembersText(fields[1..], f, depth));
      ValidTextConcat(key + Separator(f) + value,
                      [COMMA] + Indent(f, depth + 1, true) + MembersText(fields[1..], f, depth));
    } else {
      assert key + Separator(f) + value + [] == key + Separator(f) + value;
    }
  }

  lemma SeparatorIsText(f: Flags)
    ensures ValidText(Separator(f))
  {
    AsciiIsText(Separator(f));
  }

  lemma BracketedIsText(open: byte, a: seq<byte>, b: seq<byte>, c: seq<byte>, close: byte)
    requires 0 < open < 0x80 && 0 < close < 0x80 && ValidText(a) && ValidText(b) && ValidText(c)
    ensures ValidText([open] + a + b + c + [close])
  {
    hide Valid;
    AsciiIsText([open]);
    AsciiIsText([close]);
    ValidTextConcat([open], a);
    ValidTextConcat([open] + a, b);
    ValidTextConcat([open] + a + b, c);
    ValidTextConcat([open] + a + b + c, [close]);
  }

  /** What the printer writes is valid UTF-8 without NUL. */
  lemma {:induction false} TextIsText(v: Json, f: Flags, depth: nat)
    requires Printable(v)
    ensures ValidText(Text(v, f, depth))
    decreases v, 0
  {
    hide Valid, Indent, StringText, IntText;
    match v
    case Integer(n) => IntTextIsText(n);
    case String(s) => StringTextIsText(s, f.ascii);
    case Array(items) =>
      if items == [] {
        AsciiIsText([LBRACKET, RBRACKET]);
      } else {
        IndentIsText(f, depth + 1, false);
        IndentIsText(f, depth, false);
        ItemsTextIsText(items, f, depth);
        BracketedIsText(LBRACKET, Indent(f, depth + 1, false), ItemsText(items, f, depth),
                        Indent(f, depth, false), RBRACKET);
      }
    case Object(fields) =>
      if fields == [] {
        AsciiIsText([LBRACE, RBRACE]);
      } else {
        IndentIsText(f, depth + 1, false);
        IndentIsText(f, depth, false);
        MembersTextIsText(fields, f, depth);
        BracketedIsText(LBRACE, Indent(f, depth + 1, false), MembersText(fields, f, depth),
                        Indent(f, depth, false), RBRACE);
      }
    case Null => AsciiIsText(NULL_TEXT);
    case True => AsciiIsText(TRUE_TEXT);
    case False => AsciiIsText(FALSE_TEXT);
  }

  // ----- arranging the fields does not change the value -----

  lemma {:induction false} LookupInserted(fields: seq<Field>, x: Field, key: seq<byte>)
    requires forall i | 0 <= i < |fields| :: fields[i].key != x.key
    ensures Lookup(InsertField(fields, x), key) == if x.key == key then Some(x.value) else Lookup(fields, key)
  {
    if fields != [] && !KeyLe(x.key, fields[0].key) {
      LookupInserted(fields[1..], x, key);
    }
  }

  lemma {:induction false} LookupSorted(fields: seq<Field>, key: seq<byte>)
    requires FieldKeysDistinct(fields)
    ensures Lookup(SortFields(fields), key) == Lookup(fields, key)
  {
    if fields != [] {
      LookupSorted(fields[1..], key);
      SortMembers(fields[1..]);
      var r := SortFields(fields[1..]);
      forall i | 0 <= i < |r| ensures r[i].key != fields[0].key {
        assert r[i] in r && r[i] in fields[1..];
      }
      LookupInserted(r, fields[0], key);
    }
  }

  lemma {:induction false} LookupAt(fields: seq<Field>, i: nat)
    requires FieldKeysDistinct(fields) && i < |fields|
    ensures Lookup(fields, fields[i].key) == Some(fields[i].value)
  {
    if i > 0 {
      LookupAt(fields[1..], i - 1);
    }
  }

  /** The field list of an arranged object: a rearrangement, with the same lookups. */
  lemma ArrangedFields(fields: seq<Field>, sort: bool, i: nat)
    requires FieldKeysDistinct(fields) && i < |fields|
    ensures Lookup(Ordered(MapFields(fields, sort), sort), fields[i].key) == Some(Arranged(fields[i].value, sort))
  {
    var m := MapFields(fields, sort);
    assert FieldKeysDistinct(m);
    LookupSorted(m, fields[i].key);
    LookupAt(m, i);
  }

  lemma {:induction false} SortedKeysDistinct(fields: seq<Field>)
    requires FieldKeysDistinct(fields)
    ensures FieldKeysDistinct(SortFields(fields))
  {
    if fields != [] {
      SortedKeysDistinct(fields[1..]);
      SortMembers(fields[1..]);
      var r := SortFields(fields[1..]);
      forall i | 0 <= i < |r| ensures r[i].key != fields[0].key {
        assert r[i] in r && r[i] in fields[1..];
      }
      InsertedKeysDistinct(r, fields[0]);
    }
  }

  lemma {:induction false} InsertedKeysDistinct(fields: seq<Field>, x: Field)
    requires FieldKeysDistinct(fields) && forall i | 0 <= i < |fields| :: fields[i].key != x.key
    ensures FieldKeysDistinct(InsertField(fields, x))
  {
    if fields != [] && !KeyLe(x.key, fields[0].key) {
      InsertedKeysDistinct(fields[1..], x);
      InsertMembers(fields[1..], x);
      var r := InsertField(fields[1..], x);
      forall i | 0 <= i < |r| ensures r[i].key != fields[0].key {
        assert r[i] in r;
      }
    }
  }

  /** An arranged value equals the original in the sense of json_equal, and still has distinct keys. */
  lemma {:induction false} ArrangedIsEqual(v: Json, sort: bool)
    requires KeysDistinct(v)
    ensures JsonEqual(v, Arranged(v, sort)) && KeysDistinct(Arranged(v, sort))
    decreases v
  {
    match v
    case Array(items) =>
      forall i | 0 <= i < |items|
        ensures JsonEqual(items[i], Arranged(items[i], sort)) && KeysDistinct(Arranged(items[i], sort))
      {
        ArrangedIsEqual(items[i], sort);
      }
    case Object(fields) =>
      ArrangedObjectIsEqual(fields, sort, v);
    case _ =>
  }

  lemma {:induction false} ArrangedObjectIsEqual(fields: seq<Field>, sort: bool, v: Json)
    requires v == Object(fields) && KeysDistinct(v)
    ensures JsonEqual(v, Arranged(v, sort)) && KeysDistinct(Arranged(v, sort))
    decreases v, 0
  {
    hide SortFields;
    var m := MapFields(fields, sort);
    var w := Arranged(v, sort);
    assert w == Object(Ordered(m, sort));
    SortMembers(m);
    assert FieldKeysDistinct(m);
    SortedKeysDistinct(m);
    forall i | 0 <= i < |fields|
      ensures Lookup(w.fields, fields[i].key).Some? && JsonEqual(fields[i].value, Lookup(w.fields, fields[i].key).value)
      ensures KeysDistinct(m[i].value)
    {
      ArrangedFields(fields, sort, i);
      ArrangedIsEqual(fields[i].value, sort);
    }
    forall i | 0 <= i < |w.fields| ensures KeysDistinct(w.fields[i].value) {
      assert w.fields[i] in w.fields && w.fields[i] in m;
    }
  }

  // ----- the round trip -----

  /** What json_dumps prints for an array or an object, under any flags, json_loads reads back as the same
      value with its fields in the printed order, and json_equal holds between the two. */
  lemma RoundTrip(v: Json, f: Flags)
    requires (v.Array? || v.Object?) && Printable(v) && KeysDistinct(v)
    ensures Printable(Arranged(v, f.sort))
    ensures Loads(Text(Arranged(v, f.sort), f, 0)) == Some(Arranged(v, f.sort))
    ensures JsonEqual(v, Arranged(v, f.sort))
  {
    hide Text, Lex, Visible, Clean, JsonEqual;
    var w := Arranged(v, f.sort);
    ArrangedPrintable(v, f.sort);
    ArrangedIsEqual(v, f.sort);
    var text := Text(w, f, 0);
    TextIsText(w, f, 0);
    ValidThenBad(text, []);
    CleanTail([]);
    assert text + [] == text;
    TextReads(w, f, 0, [], true);
    assert text + [] == text;
    DocumentStarts(Lex(text, true), w);
    EndOfText();
  }

  /** Only a bracket starts an array or an object. */
  lemma DocumentStarts(l: Lexeme, w: Json)
    requires (w.Array? || w.Object?) && ParsesAs(l, w, [], true)
    ensures l.token == TPunct(LBRACKET) || l.token == TPunct(LBRACE)
  {
  }

  lemma EndOfText()
    ensures Lex([], true).token == TEof
  {
  }

  /** Printing and parsing as the code does it, one after the other. */
  method DumpThenLoad(v: Json, f: Flags) returns (w: Option<Json>)
    requires (v.Array? || v.Object?) && Printable(v) && KeysDistinct(v)
    ensures w == Some(Arranged(v, f.sort)) && JsonEqual(v, w.value)
  {
    hide Text, Loads, JsonEqual;
    PrintableStrings(v);
    RoundTrip(v, f);
    TextIsText(Arranged(v, f.sort), f, 0);
    var text := JsonDumps(v, f);
    w := JsonLoads(text.value);
  }
}
