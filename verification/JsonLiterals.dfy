/** The characters of the JSON grammar (section 2 of RFC 4627) and of the printed text, spelled out. */
module JsonLiterals {
  import opened Words
  import opened Utf8
  import opened JsonText
  import opened JsonStrings
  import opened JsonDump
  import opened JsonRoundTrip

  /** The ASCII codes of a string. */
  function Ascii(s: string): (b: seq<byte>)
    requires forall i | 0 <= i < |s| :: s[i] < 128 as char
    ensures |b| == |s| && forall i | 0 <= i < |s| :: b[i] == s[i] as int
  {
    seq(|s|, i requires 0 <= i < |s| => s[i] as int)
  }

  function Code(c: char): byte
    requires c < 128 as char
  {
    c as int
  }

  // ----- characters -----

  lemma Classes(c: byte)
    ensures IsDigit(c) <==> Code('0') <= c <= Code('9')
    ensures IsBlank(c) <==> c in {Code(' '), Code('\t'), Code('\n'), Code('\r')}
    ensures IsPunct(c) <==> c in {Code('{'), Code('}'), Code('['), Code(']'), Code(':'), Code(',')}
    ensures IsExp(c) <==> c in {Code('e'), Code('E')}
    ensures IsAlpha(c) <==> Code('a') <= c <= Code('z') || Code('A') <= c <= Code('Z')
    ensures IsSimpleEscape(c) <==>
            c in {Code('"'), Code('\\'), Code('/'), Code('b'), Code('f'), Code('n'), Code('r'), Code('t')}
  {
  }

  lemma Characters()
    ensures QUOTE == Code('"') && BACKSLASH == Code('\\') && SLASH == Code('/') && LOWER_U == Code('u')
    ensures MINUS == Code('-') && PLUS == Code('+') && DOT == Code('.') && ZERO == Code('0')
    ensures LBRACE == Code('{') && RBRACE == Code('}') && LBRACKET == Code('[') && RBRACKET == Code(']')
    ensures COLON == Code(':') && COMMA == Code(',') && SPACE == Code(' ') && NEWLINE == Code('\n')
  {
  }

  // ----- words -----

  lemma WordsAreOnly(w: seq<byte>)
    ensures WordToken(w) == TTrue <==> w == Ascii("true")
    ensures WordToken(w) == TFalse <==> w == Ascii("false")
    ensures WordToken(w) == TNull <==> w == Ascii("null")
  {
    hide Ascii;
    TrueSpelled();
    FalseSpelled();
    NullSpelled();
    assert |TRUE_TEXT| == 4 && |FALSE_TEXT| == 5 && |NULL_TEXT| == 4 && TRUE_TEXT[0] != NULL_TEXT[0];
  }

  lemma TrueSpelled()
    ensures Ascii("true") == TRUE_TEXT
  {
  }

  lemma FalseSpelled()
    ensures Ascii("false") == FALSE_TEXT
  {
  }

  lemma NullSpelled()
    ensures Ascii("null") == NULL_TEXT
  {
  }

  lemma WordsPrint(f: Flags, depth: nat)
    ensures Text(True, f, depth) == Ascii("true")
    ensures Text(False, f, depth) == Ascii("false")
    ensures Text(Null, f, depth) == Ascii("null")
  {
  }

  // ----- escapes -----

  lemma OneEscape(c: byte)
    requires IsSimpleEscape(c)
    ensures Decode([Code('\\'), c]) == Some([SimpleEscape(c)])
  {
    var b: seq<byte> := [Code('\\'), c];
    assert b[2..] == [] && EscapeLen(b) == 2;
    assert Decode([]) == Some([]) && [SimpleEscape(c)] + [] == [SimpleEscape(c)];
  }

  /** The eight simple escapes: quote, backslash and slash stand for themselves, the letters for control characters. */
  lemma SimpleEscapes()
    ensures Decode(Ascii("\\\"")) == Some([0x22]) && Decode(Ascii("\\\\")) == Some([0x5C])
    ensures Decode(Ascii("\\/")) == Some([0x2F]) && Decode(Ascii("\\b")) == Some([0x08])
    ensures Decode(Ascii("\\f")) == Some([0x0C]) && Decode(Ascii("\\n")) == Some([0x0A])
    ensures Decode(Ascii("\\r")) == Some([0x0D]) && Decode(Ascii("\\t")) == Some([0x09])
  {
    hide Decode;
    OneEscape(Code('"'));
    OneEscape(Code('\\'));
    OneEscape(Code('/'));
    OneEscape(Code('b'));
    OneEscape(Code('f'));
    OneEscape(Code('n'));
    OneEscape(Code('r'));
    OneEscape(Code('t'));
    assert Ascii("\\\"") == [Code('\\'), Code('"')] && Ascii("\\\\") == [Code('\\'), Code('\\')];
    assert Ascii("\\/") == [Code('\\'), Code('/')] && Ascii("\\b") == [Code('\\'), Code('b')];
    assert Ascii("\\f") == [Code('\\'), Code('f')] && Ascii("\\n") == [Code('\\'), Code('n')];
    assert Ascii("\\r") == [Code('\\'), Code('r')] && Ascii("\\t") == [Code('\\'), Code('t')];
  }

  /** How they are printed. */
  lemma EscapesPrint()
    ensures EscapeText(0x22) == Ascii("\\\"") && EscapeText(0x5C) == Ascii("\\\\")
    ensures EscapeText(0x08) == Ascii("\\b") && EscapeText(0x0C) == Ascii("\\f")
    ensures EscapeText(0x0A) == Ascii("\\n") && EscapeText(0x0D) == Ascii("\\r")
    ensures EscapeText(0x09) == Ascii("\\t")
  {
  }

  /** `c` spells the hexadecimal digit `v`, in either case. */
  predicate Spells(c: byte, v: nat)
    requires v < 16
  {
    c == Code("0123456789abcdef"[v]) || c == Code("0123456789ABCDEF"[v])
  }

  lemma HexDigitSpelled(c: byte, v: nat)
    requires v < 16 && Spells(c, v)
    ensures IsHex(c) && HexDigit(c) == v
  {
  }

  /** Every spelling of a four-digit number has its value. */
  lemma HexSpelled(s: seq<byte>, a: nat, b: nat, c: nat, d: nat)
    requires |s| == 4 && a < 16 && b < 16 && c < 16 && d < 16
    requires Spells(s[0], a) && Spells(s[1], b) && Spells(s[2], c) && Spells(s[3], d)
    ensures Hex4(s) == a * 0x1000 + b * 0x100 + c * 0x10 + d
  {
    hide Spells, HexDigit, IsHex;
    HexDigitSpelled(s[0], a);
    HexDigitSpelled(s[1], b);
    HexDigitSpelled(s[2], c);
    HexDigitSpelled(s[3], d);
  }

  lemma HexOnly(c: byte)
    requires IsHex(c)
    ensures exists v: nat :: v < 16 && Spells(c, v)
  {
    var v: nat := HexDigit(c);
    assert Spells(c, v);
  }

  /** A printed Unicode escape is a backslash, a u and four digits in lower case. */
  lemma UnicodePrints(a: nat, b: nat, c: nat, d: nat)
    requires a < 16 && b < 16 && c < 16 && d < 16
    ensures UnicodeText(a * 0x1000 + b * 0x100 + c * 0x10 + d) ==
            [Code('\\'), Code('u'), LowerHex(a), LowerHex(b), LowerHex(c), LowerHex(d)]
  {
    var v1 := a * 0x10 + b;
    var v2 := v1 * 0x10 + c;
    var v := v2 * 0x10 + d;
    assert v / 16 == v2 && v % 16 == d;
    assert v2 / 16 == v1 && v2 % 16 == c;
    assert v1 / 16 == a && v1 % 16 == b;
  }

  lemma LowerHexSpells(v: nat)
    requires v < 16
    ensures LowerHex(v) == Code("0123456789abcdef"[v])
  {
  }

  /** The surrogate pair that section 2.5 of RFC 4627 gives for the G clef, U+1D11E. */
  lemma ClefReads()
    ensures UnicodeEscape(Ascii("\\uD834\\uDD1E")) == Some((0x1D11E, 12))
    ensures Enc(0x1D11E) == [0xF0, 0x9D, 0x84, 0x9E]
  {
    var b := Ascii("\\uD834\\uDD1E");
    assert b[2..6] == [0x44, 0x38, 0x33, 0x34] && b[6..][2..6] == b[8..12] == [0x44, 0x44, 0x31, 0x45];
    assert EscapeLen(b[6..]) == 6;
  }

  // ----- objects -----

  /** A repeated key gets the later value, and no other key changes. */
  lemma {:induction false} SetThenLookup(fields: seq<Field>, key: seq<byte>, value: Json, other: seq<byte>)
    ensures Lookup(SetField(fields, key, value), key) == Some(value)
    ensures other != key ==> Lookup(SetField(fields, key, value), other) == Lookup(fields, other)
  {
    if fields != [] && fields[0].key != key {
      SetThenLookup(fields[1..], key, value, other);
      assert ([fields[0]] + SetField(fields[1..], key, value))[1..] == SetField(fields[1..], key, value);
    } else if fields != [] {
      assert ([Field(key, value)] + fields[1..])[1..] == fields[1..];
    }
  }

  // ----- whole documents -----

  lemma DigitsPrint()
    ensures Digits(1234567890) == Ascii("1234567890")
  {
    assert Digits(1) == [0x31];
    assert Digits(12) == [0x31, 0x32];
    assert Digits(123) == [0x31, 0x32, 0x33];
    assert Digits(1234) == [0x31, 0x32, 0x33, 0x34];
    assert Digits(12345) == [0x31, 0x32, 0x33, 0x34, 0x35];
    assert Digits(123456) == [0x31, 0x32, 0x33, 0x34, 0x35, 0x36];
    assert Digits(1234567) == [0x31, 0x32, 0x33, 0x34, 0x35, 0x36, 0x37];
    assert Digits(12345678) == [0x31, 0x32, 0x33, 0x34, 0x35, 0x36, 0x37, 0x38];
    assert Digits(123456789) == [0x31, 0x32, 0x33, 0x34, 0x35, 0x36, 0x37, 0x38, 0x39];
  }

  lemma KeyPrints(ascii: bool)
    ensures Valid(Ascii("a")) && StringText(Ascii("a"), ascii) == Ascii("\"a\"")
  {
    var k := Ascii("a");
    assert k[1..] == [] && StepLen(k) == 1 && StepPoint(k) == 0x61;
    assert Escaped(k, ascii) == Enc(0x61) + [];
  }

  /** {"a": [true, -1]} */
  function Example(): Json {
    Object([Field(Ascii("a"), Array([True, Integer(-1)]))])
  }

  lemma ItemsPrint(f: Flags, depth: nat)
    ensures ItemsText([True, Integer(-1)], f, depth) ==
            Ascii("true") + ([Code(',')] + Indent(f, depth + 1, true) + Ascii("-1"))
  {
    hide Indent;
    assert [True, Integer(-1)][1..] == [Integer(-1)];
    WordsPrint(f, depth + 1);
    assert Digits(1) == [0x31] && IntText(-1) == Ascii("-1");
  }

  /** The array and the document around it, for any layout. */
  lemma ArrayPrints(f: Flags, depth: nat)
    ensures Text(Array([True, Integer(-1)]), f, depth) ==
            [Code('[')] + Indent(f, depth + 1, false) + (ItemsText([True, Integer(-1)], f, depth)
            + Indent(f, depth, false)) + [Code(']')]
  {
    hide Indent, ItemsText, Text;
    TextOfArray([True, Integer(-1)], f, depth);
  }

  lemma DocumentPrints(f: Flags)
    ensures Text(Example(), f, 0) ==
            [Code('{')] + Indent(f, 1, false)
            + ((Ascii("\"a\"") + Separator(f) + Text(Array([True, Integer(-1)]), f, 1)) + Indent(f, 0, false))
            + [Code('}')]
  {
    hide Indent, ItemsText, StringText, Separator;
    KeyPrints(f.ascii);
    var fields := Example().fields;
    var member := StringText(Ascii("a"), f.ascii) + Separator(f) + Text(Array([True, Integer(-1)]), f, 1);
    TextOfObject(fields, f, 0);
    assert MembersText(fields, f, 0) == member + [] == member;
  }

  /** On one line. */
  lemma PlainLayout(f: Flags)
    requires f == Flags(0, false, false, false)
    ensures Text(Array([True, Integer(-1)]), f, 1) == Ascii("[true, -1]")
    ensures Text(Example(), f, 0) == Ascii("{\"a\": ") + Ascii("[true, -1]") + Ascii("}")
  {
    hide *;
    PlainArray(f);
    PlainDocument(f);
  }

  lemma PlainArray(f: Flags)
    requires f == Flags(0, false, false, false)
    ensures Text(Array([True, Integer(-1)]), f, 1) == Ascii("[true, -1]")
  {
    hide Text, ItemsText;
    ItemsPrint(f, 1);
    ArrayPrints(f, 1);
    assert ItemsText([True, Integer(-1)], f, 1) == Ascii("true, -1");
    assert [Code('[')] + Ascii("true, -1") + [Code(']')] == Ascii("[true, -1]");
  }

  lemma PlainDocument(f: Flags)
    requires f == Flags(0, false, false, false)
    requires Text(Array([True, Integer(-1)]), f, 1) == Ascii("[true, -1]")
    ensures Text(Example(), f, 0) == Ascii("{\"a\": ") + Ascii("[true, -1]") + Ascii("}")
  {
    hide Text, ItemsText;
    DocumentPrints(f);
    assert [Code('{')] + Ascii("\"a\"") + Separator(f) == Ascii("{\"a\": ");
    assert [Code('}')] == Ascii("}");
  }

  /** Compact. */
  lemma CompactLayout(f: Flags)
    requires f == Flags(0, true, false, false)
    ensures Text(Array([True, Integer(-1)]), f, 1) == Ascii("[true,-1]")
    ensures Text(Example(), f, 0) == Ascii("{\"a\":") + Ascii("[true,-1]") + Ascii("}")
  {
    hide *;
    CompactArray(f);
    CompactDocument(f);
  }

  lemma CompactArray(f: Flags)
    requires f == Flags(0, true, false, false)
    ensures Text(Array([True, Integer(-1)]), f, 1) == Ascii("[true,-1]")
  {
    hide Text, ItemsText;
    ItemsPrint(f, 1);
    ArrayPrints(f, 1);
    assert ItemsText([True, Integer(-1)], f, 1) == Ascii("true,-1");
    assert [Code('[')] + Ascii("true,-1") + [Code(']')] == Ascii("[true,-1]");
  }

  lemma CompactDocument(f: Flags)
    requires f == Flags(0, true, false, false)
    requires Text(Array([True, Integer(-1)]), f, 1) == Ascii("[true,-1]")
    ensures Text(Example(), f, 0) == Ascii("{\"a\":") + Ascii("[true,-1]") + Ascii("}")
  {
    hide Text, ItemsText;
    DocumentPrints(f);
    assert [Code('{')] + Ascii("\"a\"") + Separator(f) == Ascii("{\"a\":");
    assert [Code('}')] == Ascii("}");
  }

  lemma TwoSpaces(f: Flags)
    requires f == Flags(2, false, false, false)
    ensures Indent(f, 0, false) == Ascii("\n") && Indent(f, 1, false) == Ascii("\n  ")
    ensures forall space :: Indent(f, 2, space) == Ascii("\n    ")
  {
    var two := Spaces(2);
    assert Repeat(two, 0) == [] && Repeat(two, 1) == [] + two && Repeat(two, 2) == Repeat(two, 1) + two;
  }

  /** Indented by two spaces. */
  lemma IndentedLayout(f: Flags)
    requires f == Flags(2, false, false, false)
    ensures Text(Array([True, Integer(-1)]), f, 1) == Ascii("[\n    ") + Ascii("true,\n    -1") + Ascii("\n  ]")
    ensures Text(Example(), f, 0) ==
            Ascii("{\n  \"a\": ") + Text(Array([True, Integer(-1)]), f, 1) + Ascii("\n}")
  {
    hide *;
    IndentedArray(f);
    IndentedDocument(f);
  }

  lemma IndentedArray(f: Flags)
    requires f == Flags(2, false, false, false)
    ensures Text(Array([True, Integer(-1)]), f, 1) == Ascii("[\n    ") + Ascii("true,\n    -1") + Ascii("\n  ]")
  {
    hide Text, Indent, ItemsText;
    TwoSpaces(f);
    ItemsPrint(f, 1);
    assert Ascii("true") + ([Code(',')] + Ascii("\n    ") + Ascii("-1")) == Ascii("true,\n    -1");
    ArrayPrints(f, 1);
    assert [Code('[')] + Ascii("\n    ") == Ascii("[\n    ") && Ascii("\n  ") + [Code(']')] == Ascii("\n  ]");
  }

  lemma IndentedDocument(f: Flags)
    requires f == Flags(2, false, false, false)
    ensures Text(Example(), f, 0) ==
            Ascii("{\n  \"a\": ") + Text(Array([True, Integer(-1)]), f, 1) + Ascii("\n}")
  {
    hide Text, Indent;
    TwoSpaces(f);
    DocumentPrints(f);
    assert [Code('{')] + Ascii("\n  ") + Ascii("\"a\"") + Separator(f) == Ascii("{\n  \"a\": ");
    assert Ascii("\n") + [Code('}')] == Ascii("\n}");
  }

  lemma ExampleIsPlain()
    ensures Printable(Example()) && KeysDistinct(Example()) && Arranged(Example(), false) == Example()
  {
    KeyPrints(false);
    var v, fields := Array([True, Integer(-1)]), Example().fields;
    ArrayIsPlain(v);
    assert seq(1, i requires 0 <= i < 1 => Field(fields[i].key, Arranged(fields[i].value, false))) == fields;
  }

  lemma ArrayIsPlain(v: Json)
    requires v == Array([True, Integer(-1)])
    ensures Arranged(v, false) == v && Printable(v) && KeysDistinct(v)
  {
    assert Arranged(v, false).items == v.items;
  }

  /** And the text is read as the value it was printed from. */
  lemma ExampleLoads()
    ensures Loads(Ascii("{\"a\": ") + Ascii("[true, -1]") + Ascii("}")) == Some(Example())
  {
    hide Text, Loads, Printable, KeysDistinct, Arranged, Example;
    var f := Flags(0, false, false, false);
    PlainLayout(f);
    ExampleIsPlain();
    ExampleIsObject();
    RoundTrip(Example(), f);
  }

  lemma ExampleIsObject()
    ensures Example().Object?
  {
  }
}
