/** compat/jansson/dump.c: printing JSON values. */
module JsonDump {
  import opened Words
  import opened Utf8
  import opened JsonText
  import opened JsonStrings

  /** The printing flags: JSON_INDENT, JSON_COMPACT, JSON_ENSURE_ASCII, JSON_SORT_KEYS. */
  datatype Flags = Flags(indent: nat, compact: bool, ascii: bool, sort: bool)

  // ----- strings -----

  function LowerHex(d: int): byte
    requires 0 <= d < 16
  {
    if d < 10 then 0x30 + d else 0x61 + (d - 10)
  }

  /** A backslash, a u, and "%04x". */
  function UnicodeText(v: int): seq<byte>
    requires 0 <= v <= 0xFFFF
  {
    [BACKSLASH, LOWER_U, LowerHex(v / 16 / 16 / 16), LowerHex(v / 16 / 16 % 16), LowerHex(v / 16 % 16),
        LowerHex(v % 16)]
  }

  predicate MustEscape(cp: int, ascii: bool) {
    cp == BACKSLASH || cp == QUOTE || cp < 0x20 || (ascii && cp > 0x7F)
  }

  /** The escape sequence for a code point. */
  function EscapeText(cp: int): seq<byte>
    requires 0 <= cp <= 0x10FFFF
  {
    if cp == BACKSLASH then [BACKSLASH, BACKSLASH]
    else if cp == QUOTE then [BACKSLASH, QUOTE]
    else if cp == 0x08 then [BACKSLASH, 0x62]
    else if cp == 0x0C then [BACKSLASH, 0x66]
    else if cp == 0x0A then [BACKSLASH, 0x6E]
    else if cp == 0x0D then [BACKSLASH, 0x72]
    else if cp == 0x09 then [BACKSLASH, 0x74]
    else if cp < 0x10000 then UnicodeText(cp)
    else UnicodeText(0xD800 + (cp - 0x10000) / 0x400) + UnicodeText(0xDC00 + (cp - 0x10000) % 0x400)
  }

  function CharText(cp: int, ascii: bool): seq<byte>
    requires 0 <= cp <= 0x10FFFF
  {
    if MustEscape(cp, ascii) then EscapeText(cp) else Enc(cp)
  }

  /** The body of the printed string, character by character, for valid `s`. */
  function Escaped(s: seq<byte>, ascii: bool): seq<byte>
    requires Valid(s)
  {
    if s == [] then []
    else
      StepIsEncoded(s);
      CharText(StepPoint(s), ascii) + Escaped(s[StepLen(s)..], ascii)
  }

  /** The length of the run of characters at the start of `s` that need no escape, or None when bytes that are
      no UTF-8 follow the run. */
  function Run(s: seq<byte>, ascii: bool): (n: Option<nat>)
    ensures n.Some? ==> n.value <= |s|
    ensures n.Some? && n.value < |s| ==>
              StepLen(s[n.value..]) > 0 && MustEscape(StepPoint(s[n.value..]), ascii)
  {
    if s == [] then Some(0)
    else if StepLen(s) == 0 then None
    else if MustEscape(StepPoint(s), ascii) then Some(0)
    else
      var n := Ahead(StepLen(s), Run(s[StepLen(s)..], ascii));
      assert n.Some? ==> s[n.value..] == s[StepLen(s)..][n.value - StepLen(s)..];
      n
  }

  /** What the loop prints of the string: runs are printed only together with what ends them, so that nothing of
      the run before bad bytes appears. */
  function Flushed(s: seq<byte>, ascii: bool): seq<byte>
    decreases |s|
  {
    match Run(s, ascii)
    case None => []
    case Some(n) =>
      if n == |s| then s
      else
        PointRange(s[n..]);
        s[..n] + (EscapeText(StepPoint(s[n..])) + Flushed(s[n + StepLen(s[n..])..], ascii))
  }

  lemma PointRange(u: seq<byte>)
    requires u != [] && StepLen(u) > 0
    ensures 0 <= StepPoint(u) <= 0x10FFFF
  {
    hide StepLen, StepPoint, Enc;
    StepIsEncoded(u);
  }

  /** What dump_string prints. For a string that is not UTF-8 that is the front of it, without a closing quote. */
  function StringText(s: seq<byte>, ascii: bool): seq<byte> {
    if Valid(s) then [QUOTE] + Escaped(s, ascii) + [QUOTE] else [QUOTE] + Flushed(s, ascii)
  }

  lemma RunPlain(s: seq<byte>, ascii: bool)
    requires s != [] && StepLen(s) > 0 && !MustEscape(StepPoint(s), ascii)
    ensures Run(s, ascii) == Ahead(StepLen(s), Run(s[StepLen(s)..], ascii))
  {
    hide StepLen, StepPoint, MustEscape;
  }

  lemma RunStops(u: seq<byte>, ascii: bool)
    requires u != []
    ensures StepLen(u) == 0 ==> Run(u, ascii) == None
    ensures StepLen(u) > 0 && MustEscape(StepPoint(u), ascii) ==> Run(u, ascii) == Some(0)
  {
    hide StepLen, StepPoint, MustEscape;
  }

  lemma RunNothing(u: seq<byte>, ascii: bool)
    requires u == []
    ensures Run(u, ascii) == Some(0)
  {
  }

  /** Bad bytes end a run only in text that is not valid. */
  lemma {:induction false} RunValid(s: seq<byte>, ascii: bool)
    ensures Run(s, ascii).None? ==> !Valid(s)
    ensures Run(s, ascii).Some? ==> (Valid(s) <==> Valid(s[Run(s, ascii).value..]))
  {
    hide StepLen, StepPoint, MustEscape;
    var n := Run(s, ascii);
    if s != [] && StepLen(s) > 0 && !MustEscape(StepPoint(s), ascii) {
      var k := StepLen(s);
      RunPlain(s, ascii);
      RunValid(s[k..], ascii);
      if n.Some? {
        assert s[n.value..] == s[k..][n.value - k..];
      }
    } else if n.Some? {
      assert s[0..] == s;
    }
  }

  lemma EscapedPlain(s: seq<byte>, ascii: bool)
    requires s != [] && StepLen(s) > 0 && Valid(s) && Valid(s[StepLen(s)..]) && !MustEscape(StepPoint(s), ascii)
    ensures Escaped(s, ascii) == s[..StepLen(s)] + Escaped(s[StepLen(s)..], ascii)
  {
    hide Enc, EscapeText, MustEscape, StepLen, StepPoint, Valid;
    StepIsEncoded(s);
  }

  /** A run stands in the printed string as it is. */
  lemma {:induction false} RunEscaped(s: seq<byte>, ascii: bool)
    requires Valid(s)
    ensures Run(s, ascii).Some? && Valid(s[Run(s, ascii).value..])
    ensures Escaped(s, ascii) == s[..Run(s, ascii).value] + Escaped(s[Run(s, ascii).value..], ascii)
  {
    hide Run, StepLen, StepPoint, MustEscape, Escaped;
    RunValid(s, ascii);
    if s == [] {
      RunNothing(s, ascii);
    } else if MustEscape(StepPoint(s), ascii) {
      RunStops(s, ascii);
      assert s[0..] == s && s[..0] == [];
    } else {
      var k := StepLen(s);
      RunPlain(s, ascii);
      RunEscaped(s[k..], ascii);
      EscapedPlain(s, ascii);
      var n := Run(s[k..], ascii).value;
      assert s[k + n..] == s[k..][n..] && s[..k + n] == s[..k] + s[k..][..n];
    }
  }

  /** A run and the escape that ends it are printed, and the rest goes on from there. */
  lemma FlushedStep(s: seq<byte>, ascii: bool)
    requires Run(s, ascii).Some? && Run(s, ascii).value < |s|
    ensures var n := Run(s, ascii).value;
            var u := s[n..];
            && StepLen(u) > 0 && 0 <= StepPoint(u) <= 0x10FFFF && n + StepLen(u) <= |s|
            && (Valid(s) <==> Valid(s[n + StepLen(u)..]))
            && Flushed(s, ascii) == s[..n] + (EscapeText(StepPoint(u)) + Flushed(s[n + StepLen(u)..], ascii))
  {
    hide Run, StepLen, StepPoint, EscapeText;
    RunValid(s, ascii);
    var n := Run(s, ascii).value;
    PointRange(s[n..]);
    assert s[n..][StepLen(s[n..])..] == s[n + StepLen(s[n..])..];
  }

  /** Valid text is printed whole. */
  lemma {:induction false} FlushedValid(s: seq<byte>, ascii: bool)
    requires Valid(s)
    ensures Flushed(s, ascii) == Escaped(s, ascii)
    decreases |s|
  {
    hide Run, StepLen, StepPoint, MustEscape, EscapeText, Enc;
    RunEscaped(s, ascii);
    var n := Run(s, ascii).value;
    if n < |s| {
      FlushedStep(s, ascii);
      var u := s[n..];
      var k := StepLen(u);
      assert s[n + k..] == u[k..];
      FlushedValid(u[k..], ascii);
    } else {
      assert s[n..] == [] && s[..n] == s && s + [] == s;
    }
  }

  // ----- numbers -----

  function Digits(n: nat): (s: seq<byte>)
    ensures |s| > 0
  {
    if n < 10 then [0x30 + n] else Digits(n / 10) + [0x30 + n % 10]
  }

  /** "%d". */
  function IntText(n: int): seq<byte> {
    if n < 0 then [MINUS] + Digits(0 - n) else Digits(n)
  }

  // ----- layout -----

  function Spaces(n: nat): (s: seq<byte>)
    ensures |s| == n
  {
    seq(n, _ => SPACE)
  }

  function Repeat(s: seq<byte>, n: nat): seq<byte> {
    if n == 0 then [] else Repeat(s, n - 1) + s
  }

  /** What dump_indent prints. */
  function Indent(f: Flags, depth: nat, space: bool): seq<byte> {
    if f.indent > 0 then [NEWLINE] + Repeat(Spaces(f.indent), depth)
    else if space && !f.compact then [SPACE]
    else []
  }

  function Separator(f: Flags): seq<byte> {
    if f.compact then [COLON] else [COLON, SPACE]
  }

  /** Values that print: no reals, and text in every string and key. */
  predicate Printable(v: Json) {
    match v
    case Real(_) => false
    case Integer(n) => FitsInt(n)
    case String(s) => ValidText(s)
    case Array(items) => forall i | 0 <= i < |items| :: Printable(items[i])
    case Object(fields) => forall i | 0 <= i < |fields| :: ValidText(fields[i].key) && Printable(fields[i].value)
    case _ => true
  }

  /** The printed text of a value, its fields in the order listed. Reals are not printed here. */
  function Text(v: Json, f: Flags, depth: nat): seq<byte>
    decreases v, 0
  {
    match v
    case Null => NULL_TEXT
    case True => TRUE_TEXT
    case False => FALSE_TEXT
    case Integer(n) => IntText(n)
    case Real(_) => []
    case String(s) => StringText(s, f.ascii)
    case Array(items) =>
      if items == [] then [LBRACKET, RBRACKET]
      else [LBRACKET] + Indent(f, depth + 1, false) + ItemsText(items, f, depth) + Indent(f, depth, false) + [RBRACKET]
    case Object(fields) =>
      if fields == [] then [LBRACE, RBRACE]
      else [LBRACE] + Indent(f, depth + 1, false) + MembersText(fields, f, depth) + Indent(f, depth, false) + [RBRACE]
  }

  /** The elements of an array with the commas between them. */
  function ItemsText(items: seq<Json>, f: Flags, depth: nat): seq<byte>
    requires items != []
    decreases items, 1
  {
    Text(items[0], f, depth + 1)
    + if |items| == 1 then [] else [COMMA] + Indent(f, depth + 1, true) + ItemsText(items[1..], f, depth)
  }

  function MembersText(fields: seq<Field>, f: Flags, depth: nat): seq<byte>
    requires fields != []
    decreases fields, 1
  {
    StringText(fields[0].key, f.ascii) + Separator(f) + Text(fields[0].value, f, depth + 1)
    + if |fields| == 1 then [] else [COMMA] + Indent(f, depth + 1, true) + MembersText(fields[1..], f, depth)
  }

  lemma TextOfArray(items: seq<Json>, f: Flags, depth: nat)
    ensures Text(Array(items), f, depth) ==
            if items == [] then [LBRACKET] + [RBRACKET]
            else [LBRACKET] + Indent(f, depth + 1, false) + (ItemsText(items, f, depth) + Indent(f, depth, false))
                 + [RBRACKET]
  {
    hide ItemsText, Indent;
  }

  lemma TextOfObject(fields: seq<Field>, f: Flags, depth: nat)
    ensures Text(Object(fields), f, depth) ==
            if fields == [] then [LBRACE] + [RBRACE]
            else [LBRACE] + Indent(f, depth + 1, false) + (MembersText(fields, f, depth) + Indent(f, depth, false))
                 + [RBRACE]
  {
    hide MembersText, Indent;
  }

  // ----- the order of fields, and equality -----

  /** strcmp(a, b) <= 0. */
  predicate KeyLe(a: seq<byte>, b: seq<byte>) {
    a == [] || (b != [] && (a[0] < b[0] || (a[0] == b[0] && KeyLe(a[1..], b[1..]))))
  }

  function InsertField(fields: seq<Field>, x: Field): seq<Field> {
    if fields == [] || KeyLe(x.key, fields[0].key) then [x] + fields
    else [fields[0]] + InsertField(fields[1..], x)
  }

  /** The order in which JSON_SORT_KEYS prints the fields: qsort by key. */
  function SortFields(fields: seq<Field>): seq<Field> {
    if fields == [] then [] else InsertField(SortFields(fields[1..]), fields[0])
  }

  function Ordered(fields: seq<Field>, sort: bool): seq<Field> {
    if sort then SortFields(fields) else fields
  }

  /** A value with the fields of every object in the order in which they are printed. */
  function Arranged(v: Json, sort: bool): Json {
    match v
    case Array(items) => Array(seq(|items|, i requires 0 <= i < |items| => Arranged(items[i], sort)))
    case Object(fields) =>
      Object(Ordered(seq(|fields|, i requires 0 <= i < |fields| =>
        Field(fields[i].key, Arranged(fields[i].value, sort))), sort))
    case _ => v
  }

  function Lookup(fields: seq<Field>, key: seq<byte>): Option<Json> {
    if fields == [] then None
    else if fields[0].key == key then Some(fields[0].value)
    else Lookup(fields[1..], key)
  }

  /** json_equal: objects are compared as maps. */
  ghost predicate JsonEqual(v: Json, w: Json)
    decreases v
  {
    match v
    case Array(items) =>
      w.Array? && |items| == |w.items| && forall i | 0 <= i < |items| :: JsonEqual(items[i], w.items[i])
    case Object(fields) =>
      w.Object? && |fields| == |w.fields|
      && forall i | 0 <= i < |fields| ::
           Lookup(w.fields, fields[i].key).Some? && JsonEqual(fields[i].value, Lookup(w.fields, fields[i].key).value)
    case _ => v == w
  }

  // ----- sorting and arranging -----

  lemma {:induction false} InsertMembers(fields: seq<Field>, x: Field)
    ensures |InsertField(fields, x)| == |fields| + 1
    ensures forall y :: y in InsertField(fields, x) <==> y in fields || y == x
    ensures multiset(InsertField(fields, x)) == multiset(fields) + multiset{x}
  {
    if fields != [] {
      assert fields == [fields[0]] + fields[1..];
      if !KeyLe(x.key, fields[0].key) {
        InsertMembers(fields[1..], x);
      }
    }
  }

  /** Sorting rearranges. */
  lemma {:induction false} SortMembers(fields: seq<Field>)
    ensures |SortFields(fields)| == |fields|
    ensures forall y :: y in SortFields(fields) <==> y in fields
    ensures multiset(SortFields(fields)) == multiset(fields)
  {
    if fields != [] {
      assert fields == [fields[0]] + fields[1..];
      SortMembers(fields[1..]);
      InsertMembers(SortFields(fields[1..]), fields[0]);
    }
  }

  lemma {:induction false} KeyLeTotal(a: seq<byte>, b: seq<byte>)
    ensures KeyLe(a, b) || KeyLe(b, a)
  {
    if a != [] && b != [] {
      KeyLeTotal(a[1..], b[1..]);
    }
  }

  lemma {:induction false} KeyLeTransitive(a: seq<byte>, b: seq<byte>, c: seq<byte>)
    requires KeyLe(a, b) && KeyLe(b, c)
    ensures KeyLe(a, c)
  {
    if a != [] && a[0] == b[0] && b[0] == c[0] {
      KeyLeTransitive(a[1..], b[1..], c[1..]);
    }
  }

  /** `a` comes before `b` at the first byte in which they differ, or by being its front. */
  ghost predicate Precedes(a: seq<byte>, b: seq<byte>) {
    a <= b || exists i :: 0 <= i < |a| && i < |b| && a[..i] == b[..i] && a[i] < b[i]
  }

  /** KeyLe is the order of strcmp on strings of unsigned bytes. */
  lemma {:induction false} KeyLeIs(a: seq<byte>, b: seq<byte>)
    ensures KeyLe(a, b) <==> Precedes(a, b)
  {
    if a != [] && b != [] {
      if a[0] < b[0] {
        assert a[..0] == b[..0];
      } else if a[0] == b[0] {
        KeyLeIs(a[1..], b[1..]);
        assert a == [a[0]] + a[1..] && b == [b[0]] + b[1..];
        if i :| 0 <= i < |a[1..]| && i < |b[1..]| && a[1..][..i] == b[1..][..i] && a[1..][i] < b[1..][i] {
          assert a[..i + 1] == [a[0]] + a[1..][..i] && b[..i + 1] == [b[0]] + b[1..][..i];
        }
        if i :| 0 <= i < |a| && i < |b| && a[..i] == b[..i] && a[i] < b[i] {
          assert i > 0 && a[1..][..i - 1] == a[..i][1..] && b[1..][..i - 1] == b[..i][1..];
          assert a[1..][i - 1] < b[1..][i - 1];
        }
      }
    }
  }

  ghost predicate SortedByKey(fields: seq<Field>) {
    forall i, j | 0 <= i < j < |fields| :: KeyLe(fields[i].key, fields[j].key)
  }

  lemma {:induction false} InsertSorted(fields: seq<Field>, x: Field)
    requires SortedByKey(fields)
    ensures SortedByKey(InsertField(fields, x))
  {
    if fields == [] {
    } else if KeyLe(x.key, fields[0].key) {
      forall j | 0 <= j < |fields| ensures KeyLe(x.key, fields[j].key) {
        if j > 0 { KeyLeTransitive(x.key, fields[0].key, fields[j].key); }
      }
    } else {
      KeyLeTotal(x.key, fields[0].key);
      InsertSorted(fields[1..], x);
      InsertMembers(fields[1..], x);
      var r := InsertField(fields[1..], x);
      forall j | 0 <= j < |r| ensures KeyLe(fields[0].key, r[j].key) {
        assert r[j] in r;
      }
    }
  }

  /** JSON_SORT_KEYS prints the same fields in the order of strcmp on their keys. */
  lemma {:induction false} SortIsSorted(fields: seq<Field>)
    ensures SortedByKey(SortFields(fields)) && multiset(SortFields(fields)) == multiset(fields)
  {
    SortMembers(fields);
    if fields != [] {
      SortIsSorted(fields[1..]);
      InsertSorted(SortFields(fields[1..]), fields[0]);
    }
  }

  function MapFields(fields: seq<Field>, sort: bool): (r: seq<Field>)
    ensures |r| == |fields|
    ensures forall i | 0 <= i < |fields| :: r[i] == Field(fields[i].key, Arranged(fields[i].value, sort))
  {
    seq(|fields|, i requires 0 <= i < |fields| => Field(fields[i].key, Arranged(fields[i].value, sort)))
  }

  lemma {:induction false} InsertMap(fields: seq<Field>, x: Field, sort: bool)
    ensures var y := Field(x.key, Arranged(x.value, sort));
            InsertField(MapFields(fields, sort), y) == MapFields(InsertField(fields, x), sort)
  {
    if fields != [] && !KeyLe(x.key, fields[0].key) {
      InsertMap(fields[1..], x, sort);
      assert MapFields(fields, sort)[1..] == MapFields(fields[1..], sort);
    }
  }

  /** The order depends on the keys only, so it can be chosen before the values are arranged. */
  lemma {:induction false} SortMap(fields: seq<Field>, sort: bool)
    ensures SortFields(MapFields(fields, sort)) == MapFields(SortFields(fields), sort)
  {
    if fields != [] {
      SortMap(fields[1..], sort);
      assert MapFields(fields, sort)[1..] == MapFields(fields[1..], sort);
      InsertMap(SortFields(fields[1..]), fields[0], sort);
    }
  }

  lemma OrderedMap(fields: seq<Field>, sort: bool)
    ensures Ordered(MapFields(fields, sort), sort) == MapFields(Ordered(fields, sort), sort)
    ensures |Ordered(fields, sort)| == |fields| && forall y :: y in Ordered(fields, sort) <==> y in fields
  {
    SortMap(fields, sort);
    SortMembers(fields);
  }

  lemma ArrangedObject(fields: seq<Field>, sort: bool)
    ensures Arranged(Object(fields), sort) == Object(MapFields(Ordered(fields, sort), sort))
  {
    OrderedMap(fields, sort);
  }

  /** Arranging keeps a value printable. */
  lemma {:induction false} ArrangedPrintable(v: Json, sort: bool)
    requires Printable(v)
    ensures Printable(Arranged(v, sort))
    decreases v
  {
    match v
    case Array(items) =>
      forall i | 0 <= i < |items| ensures Printable(Arranged(items[i], sort)) {
        ArrangedPrintable(items[i], sort);
      }
    case Object(fields) =>
      ArrangedObject(fields, sort);
      OrderedMap(fields, sort);
      var o := Ordered(fields, sort);
      forall i | 0 <= i < |o| ensures ValidText(o[i].key) && Printable(Arranged(o[i].value, sort)) {
        assert o[i] in o && o[i] in fields;
        var j :| 0 <= j < |fields| && fields[j] == o[i];
        ArrangedPrintable(fields[j].value, sort);
      }
    case _ =>
  }

  // ----- the printer -----

  /** What a caller hands to the printer: C strings, and no reals. */
  predicate Dumpable(v: Json) {
    match v
    case Real(_) => false
    case Integer(n) => FitsInt(n)
    case String(s) => 0 !in s
    case Array(items) => forall i | 0 <= i < |items| :: Dumpable(items[i])
    case Object(fields) => forall i | 0 <= i < |fields| :: 0 !in fields[i].key && Dumpable(fields[i].value)
    case _ => true
  }

  /** The strings among the values are valid UTF-8. Keys are another matter: do_dump ignores what
      dump_string says of them. */
  predicate StringsValid(v: Json) {
    match v
    case String(s) => Valid(s)
    case Array(items) => forall i | 0 <= i < |items| :: StringsValid(items[i])
    case Object(fields) => forall i | 0 <= i < |fields| :: StringsValid(fields[i].value)
    case _ => true
  }

  lemma {:induction false} PrintableStrings(v: Json)
    requires Printable(v)
    ensures StringsValid(v) && Dumpable(v)
    decreases v
  {
    match v
    case Array(items) =>
      forall i | 0 <= i < |items| ensures StringsValid(items[i]) && Dumpable(items[i]) { PrintableStrings(items[i]); }
    case Object(fields) =>
      forall i | 0 <= i < |fields| ensures StringsValid(fields[i].value) && Dumpable(fields[i].value) {
        PrintableStrings(fields[i].value);
      }
    case _ =>
  }

  /** The strbuffer that dump_to_strbuffer appends to. */
  class Dumper {
    var out: seq<byte>

    constructor ()
      ensures out == []
    {
      out := [];
    }

    /** dump_to_strbuffer. */
    method Dump(s: seq<byte>)
      modifies this
      ensures out == old(out) + s
    {
      out := out + s;
    }

    /** dump_indent. */
    method DumpIndent(f: Flags, depth: nat, space: bool)
      modifies this
      ensures out == old(out) + Indent(f, depth, space)
    {
      if f.indent > 0 {
        Dump([NEWLINE]);
        ghost var start := out;
        for i := 0 to depth
          invariant out == start + Repeat(Spaces(f.indent), i)
        {
          Dump(Spaces(f.indent));
        }
      } else if space && !f.compact {
        Dump([SPACE]);
      }
    }

    /** The inner loop of dump_string: from `a` over characters that need no escape. `pos` is where they
        end; `end` is past the character that does need one, or equal to `pos` at the end of the string. */
    method ScanPlain(str: seq<byte>, ascii: bool, a: nat) returns (ok: bool, pos: nat, end: nat, codepoint: int)
      requires a <= |str|
      ensures ok <==> Run(str[a..], ascii).Some?
      ensures ok ==> a <= |str| && pos == a + Run(str[a..], ascii).value
      ensures ok ==> if pos == |str| then end == pos
                     else end == pos + StepLen(str[pos..]) && codepoint == StepPoint(str[pos..])
    {
      hide Run, StepLen, StepPoint;
      end, pos, codepoint := a, a, 0;
      while end < |str|
        invariant a <= pos == end <= |str|
        invariant Run(str[a..], ascii) == Ahead(pos - a, Run(str[pos..], ascii))
        decreases |str| - pos
      {
        RunStops(str[pos..], ascii);
        ok, end, codepoint := Utf8Iterate(str, pos);
        if !ok {
          return;
        }
        assert str[pos..][end - pos..] == str[end..];
        if codepoint == BACKSLASH || codepoint == QUOTE || codepoint < 0x20 {
          return;
        }
        if ascii && codepoint > 0x7F {
          return;
        }
        RunPlain(str[pos..], ascii);
        pos := end;
      }
      ok := true;
      RunNothing(str[pos..], ascii);
    }

    /** dump_string: fails exactly on invalid UTF-8; what it prints then is also known. */
    method DumpString(str: seq<byte>, ascii: bool) returns (rc: int)
      requires 0 !in str
      modifies this
      ensures rc == if Valid(str) then 0 else -1
      ensures out == old(out) + StringText(str, ascii)
    {
      hide Run, Flushed, Escaped;
      if Valid(str) { FlushedValid(str, ascii); }
      Dump([QUOTE]);
      var a := 0;
      assert str[0..] == str;
      ghost var start := out;
      var done := false;
      while !done
        invariant a <= |str| && (Valid(str) <==> Valid(str[a..]))
        invariant if done then a == |str| && out == start + Flushed(str, ascii)
                  else out + Flushed(str[a..], ascii) == start + Flushed(str, ascii)
        decreases |str| - a, !done
      {
        var ok;
        ok, done, a := DumpRun(str, ascii, a);
        if !ok {
          return -1;
        }
      }
      assert str[|str|..] == [];
      Dump([QUOTE]);
      return 0;
    }

    /** One turn of dump_string: a run of plain characters, and the character after it as an escape. */
    method DumpRun(str: seq<byte>, ascii: bool, a: nat) returns (ok: bool, done: bool, a': nat)
      requires a <= |str|
      modifies this
      ensures !ok ==> !Valid(str[a..]) && out == old(out) + Flushed(str[a..], ascii)
      ensures ok ==> a <= a' <= |str| && (Valid(str[a..]) <==> Valid(str[a'..]))
      ensures ok ==> if done then a' == |str| && out == old(out) + Flushed(str[a..], ascii)
                     else a < a' && out + Flushed(str[a'..], ascii) == old(out) + Flushed(str[a..], ascii)
    {
      hide Run, StepLen, StepPoint, EscapeText, MustEscape, Valid, Flushed;
      ghost var u, start := str[a..], out;
      RunValid(u, ascii);
      FlushedNothing(u, ascii);
      var pos, end, codepoint;
      ok, pos, end, codepoint := ScanPlain(str, ascii, a);
      a', done := a, false;
      if !ok {
        return;
      }
      ghost var n := pos - a;
      assert str[a..pos] == u[..n] && str[pos..] == u[n..];
      if pos != a {
        Dump(str[a..pos]);
      }
      assert out == start + u[..n];
      if end == pos {
        a', done := pos, true;
        return;
      }
      FlushedStep(u, ascii);
      assert str[end..] == u[end - a..];
      DumpEscape(codepoint);
      a' := end;
      Appended(start, u[..n], EscapeText(codepoint), Flushed(str[a'..], ascii));
    }

    lemma FlushedNothing(u: seq<byte>, ascii: bool)
      ensures Run(u, ascii).None? ==> Flushed(u, ascii) == []
      ensures Run(u, ascii) == Some(|u|) ==> Flushed(u, ascii) == u
    {
    }

    lemma Appended(out: seq<byte>, a: seq<byte>, b: seq<byte>, c: seq<byte>)
      ensures out + a + b + c == out + (a + (b + c))
    {
    }

    /** The switch of dump_string. */
    method DumpEscape(codepoint: int)
      requires 0 <= codepoint <= 0x10FFFF
      modifies this
      ensures out == old(out) + EscapeText(codepoint)
    {
      var text;
      if codepoint == BACKSLASH { text := [BACKSLASH, BACKSLASH]; }
      else if codepoint == QUOTE { text := [BACKSLASH, QUOTE]; }
      else if codepoint == 0x08 { text := [BACKSLASH, 0x62]; }
      else if codepoint == 0x0C { text := [BACKSLASH, 0x66]; }
      else if codepoint == 0x0A { text := [BACKSLASH, 0x6E]; }
      else if codepoint == 0x0D { text := [BACKSLASH, 0x72]; }
      else if codepoint == 0x09 { text := [BACKSLASH, 0x74]; }
      else if codepoint < 0x10000 { text := UnicodeText(codepoint); }
      else {
        var rest := codepoint - 0x10000;
        var first, last := 0xD800 + rest / 0x400, 0xDC00 + rest % 0x400;
        text := UnicodeText(first) + UnicodeText(last);
      }
      Dump(text);
    }

    /** do_dump. It fails exactly when a string among the values is not UTF-8. */
    method DoDump(json: Json, f: Flags, depth: nat) returns (rc: int)
      requires Dumpable(json)
      modifies this
      ensures rc == if StringsValid(json) then 0 else -1
      ensures rc == 0 ==> out == old(out) + Text(Arranged(json, f.sort), f, depth)
      decreases json, 1
    {
      hide Escaped;
      match json
      case Null => Dump(NULL_TEXT); rc := 0;
      case True => Dump(TRUE_TEXT); rc := 0;
      case False => Dump(FALSE_TEXT); rc := 0;
      case Integer(n) => Dump(IntText(n)); rc := 0;
      case String(s) => rc := DumpString(s, f.ascii);
      case Array(items) => rc := DumpArray(items, f, depth, json);
      case Object(fields) => rc := DumpObject(fields, f, depth, json);
    }

    method DumpArray(items: seq<Json>, f: Flags, depth: nat, ghost json: Json) returns (rc: int)
      requires json == Array(items) && Dumpable(json)
      modifies this
      ensures rc == if StringsValid(json) then 0 else -1
      ensures rc == 0 ==> out == old(out) + Text(Arranged(json, f.sort), f, depth)
      decreases json, 0
    {
      hide ItemsText, Indent, Text, StringsValid, Dumpable;
      ghost var arr, start := Arranged(json, f.sort).items, out;
      TextOfArray(arr, f, depth);
      Dump([LBRACKET]);
      if |items| == 0 {
        EmptyIsValid(json);
        Dump([RBRACKET]);
        Appended(start, [LBRACKET], [RBRACKET], []);
        return 0;
      }
      DumpIndent(f, depth + 1, false);
      rc := DumpItems(items, f, depth, json);
      if rc != 0 {
        return -1;
      }
      Dump([RBRACKET]);
      Bracketed(start, [LBRACKET], Indent(f, depth + 1, false), ItemsText(arr, f, depth),
                Indent(f, depth, false), [RBRACKET]);
    }

    /** The loop of do_dump over the elements of an array. */
    method DumpItems(items: seq<Json>, f: Flags, depth: nat, ghost json: Json) returns (rc: int)
      requires json == Array(items) && items != [] && Dumpable(json)
      modifies this
      ensures rc == if StringsValid(json) then 0 else -1
      ensures rc == 0 ==>
                out == old(out) + ItemsText(Arranged(json, f.sort).items, f, depth) + Indent(f, depth, false)
      decreases json, 0, 0
    {
      hide Indent, Text, ItemsText, Dumpable, StringsValid;
      ghost var arr := Arranged(json, f.sort).items;
      var n := |items|;
      ghost var start := out;
      assert arr[0..] == arr;
      for i := 0 to n
        invariant forall j | 0 <= j < i :: StringsValid(items[j])
        invariant i < n ==> out + ItemsText(arr[i..], f, depth) == start + ItemsText(arr, f, depth)
        invariant i == n ==> out == start + ItemsText(arr, f, depth) + Indent(f, depth, false)
      {
        ItemOf(json, i);
        ghost var before := out;
        rc := DoDump(items[i], f, depth + 1);
        if rc != 0 {
          return -1;
        }
        DumpBetween(i < n - 1, f, depth);
        ItemsAppend(before, arr, i, f, depth);
      }
      AllItemsValid(json);
      return 0;
    }

    lemma ItemOf(json: Json, i: nat)
      requires json.Array? && i < |json.items| && Dumpable(json)
      ensures Dumpable(json.items[i])
      ensures json.items[i] < json && (!StringsValid(json.items[i]) ==> !StringsValid(json))
    {
    }

    lemma AllItemsValid(json: Json)
      requires json.Array? && forall j | 0 <= j < |json.items| :: StringsValid(json.items[j])
      ensures StringsValid(json)
    {
    }

    lemma ItemsStep(arr: seq<Json>, i: nat, f: Flags, depth: nat)
      requires i < |arr|
      ensures var item := Text(arr[i], f, depth + 1);
              ItemsText(arr[i..], f, depth) ==
              if i == |arr| - 1 then item
              else item + ([COMMA] + Indent(f, depth + 1, true) + ItemsText(arr[i + 1..], f, depth))
    {
      hide Text, Indent;
      assert arr[i..][1..] == arr[i + 1..];
    }

    lemma ItemsAppend(before: seq<byte>, arr: seq<Json>, i: nat, f: Flags, depth: nat)
      requires i < |arr|
      ensures before + ItemsText(arr[i..], f, depth) ==
              if i == |arr| - 1 then before + Text(arr[i], f, depth + 1)
              else before + Text(arr[i], f, depth + 1) + ([COMMA] + Indent(f, depth + 1, true))
                   + ItemsText(arr[i + 1..], f, depth)
    {
      hide Text, Indent, ItemsText;
      ItemsStep(arr, i, f, depth);
      if i < |arr| - 1 {
        Appended(before, Text(arr[i], f, depth + 1), [COMMA] + Indent(f, depth + 1, true),
                 ItemsText(arr[i + 1..], f, depth));
      }
    }

    lemma EmptyIsValid(json: Json)
      requires json == Object([]) || json == Array([])
      ensures StringsValid(json)
    {
    }

    lemma Bracketed(out: seq<byte>, a: seq<byte>, b: seq<byte>, c: seq<byte>, d: seq<byte>, e: seq<byte>)
      ensures out + a + b + c + d + e == out + (a + b + (c + d) + e)
    {
    }

    method DumpObject(fields: seq<Field>, f: Flags, depth: nat, ghost json: Json) returns (rc: int)
      requires json == Object(fields) && Dumpable(json)
      modifies this
      ensures rc == if StringsValid(json) then 0 else -1
      ensures rc == 0 ==> out == old(out) + Text(Arranged(json, f.sort), f, depth)
      decreases json, 0
    {
      hide MembersText, Indent, Ordered, Text, Arranged, MapFields, StringsValid, Dumpable;
      ArrangedObject(fields, f.sort);
      OrderedMap(fields, f.sort);
      ghost var arr, start := MapFields(Ordered(fields, f.sort), f.sort), out;
      TextOfObject(arr, f, depth);
      Dump([LBRACE]);
      if |fields| == 0 {
        EmptyIsValid(json);
        Dump([RBRACE]);
        Appended(start, [LBRACE], [RBRACE], []);
        return 0;
      }
      DumpIndent(f, depth + 1, false);
      rc := DumpMembers(Ordered(fields, f.sort), f, depth, json);
      if rc != 0 {
        return -1;
      }
      Dump([RBRACE]);
      Bracketed(start, [LBRACE], Indent(f, depth + 1, false), MembersText(arr, f, depth),
                Indent(f, depth, false), [RBRACE]);
    }

    /** The loops of do_dump over the fields of an object: `order` is the order chosen. The result of
        dump_string on the key is dropped, as in the code. */
    method DumpMembers(order: seq<Field>, f: Flags, depth: nat, ghost json: Json) returns (rc: int)
      requires json.Object? && order != [] && Dumpable(json) && order == Ordered(json.fields, f.sort)
      modifies this
      ensures rc == if StringsValid(json) then 0 else -1
      ensures rc == 0 ==>
                out == old(out) + MembersText(MapFields(order, f.sort), f, depth) + Indent(f, depth, false)
      decreases json, 0, 0
    {
      hide Indent, Text, StringText, Ordered, Valid, Separator, MembersText, Dumpable, StringsValid;
      ArrangedObject(json.fields, f.sort);
      OrderedMap(json.fields, f.sort);
      ghost var arr := MapFields(order, f.sort);
      var n := |order|;
      ghost var start := out;
      assert arr[0..] == arr;
      for i := 0 to n
        invariant forall j | 0 <= j < i :: StringsValid(order[j].value)
        invariant i < n ==> out + MembersText(arr[i..], f, depth) == start + MembersText(arr, f, depth)
        invariant i == n ==> out == start + MembersText(arr, f, depth) + Indent(f, depth, false)
      {
        FieldOf(json, order[i]);
        ghost var before := out;
        rc := DumpMember(order[i], f, depth, json);
        if rc != 0 {
          return -1;
        }
        DumpBetween(i < n - 1, f, depth);
        MembersAppend(before, arr, i, f, depth);
      }
      AllFieldsValid(json, order);
      return 0;
    }

    /** What stands after a member or an element: a comma before another, the closing indentation otherwise. */
    method DumpBetween(another: bool, f: Flags, depth: nat)
      modifies this
      ensures out == old(out) + if another then [COMMA] + Indent(f, depth + 1, true) else Indent(f, depth, false)
    {
      hide Indent;
      if another {
        Dump([COMMA]);
        DumpIndent(f, depth + 1, true);
      } else {
        DumpIndent(f, depth, false);
      }
    }

    /** One key, the separator and the value. */
    method DumpMember(x: Field, f: Flags, depth: nat, ghost json: Json) returns (rc: int)
      requires json.Object? && x in json.fields && Dumpable(json) && x.value < json && 0 !in x.key && Dumpable(x.value)
      modifies this
      ensures rc == if StringsValid(x.value) then 0 else -1
      ensures rc == 0 ==> out == old(out) + (StringText(x.key, f.ascii) + Separator(f)
                                             + Text(Arranged(x.value, f.sort), f, depth + 1))
      decreases json, 0, 0, 0
    {
      hide Text, StringText, Valid;
      var ignored := DumpString(x.key, f.ascii);
      Dump(Separator(f));
      rc := DoDump(x.value, f, depth + 1);
    }

    lemma FieldOf(json: Json, x: Field)
      requires json.Object? && x in json.fields && Dumpable(json)
      ensures 0 !in x.key && Dumpable(x.value)
      ensures x.value < json && (!StringsValid(x.value) ==> !StringsValid(json))
    {
      var i :| 0 <= i < |json.fields| && json.fields[i] == x;
    }

    lemma AllFieldsValid(json: Json, order: seq<Field>)
      requires json.Object? && (forall x | x in json.fields :: x in order)
      requires forall j | 0 <= j < |order| :: StringsValid(order[j].value)
      ensures StringsValid(json)
    {
      forall i | 0 <= i < |json.fields| ensures StringsValid(json.fields[i].value) {
        assert json.fields[i] in order;
      }
    }

    lemma MembersStep(arr: seq<Field>, i: nat, f: Flags, depth: nat)
      requires i < |arr|
      ensures var member := StringText(arr[i].key, f.ascii) + Separator(f) + Text(arr[i].value, f, depth + 1);
              MembersText(arr[i..], f, depth) ==
              if i == |arr| - 1 then member
              else member + ([COMMA] + Indent(f, depth + 1, true) + MembersText(arr[i + 1..], f, depth))
    {
      hide Text, Indent, StringText, Separator, Valid;
      assert arr[i..][1..] == arr[i + 1..];
    }

    lemma MembersAppend(before: seq<byte>, arr: seq<Field>, i: nat, f: Flags, depth: nat)
      requires i < |arr|
      ensures var m := StringText(arr[i].key, f.ascii) + Separator(f) + Text(arr[i].value, f, depth + 1);
              before + MembersText(arr[i..], f, depth) ==
              if i == |arr| - 1 then before + m
              else before + m + ([COMMA] + Indent(f, depth + 1, true)) + MembersText(arr[i + 1..], f, depth)
    {
      hide Text, Indent, StringText, Separator, Valid, MembersText;
      MembersStep(arr, i, f, depth);
      if i < |arr| - 1 {
        Appended(before, StringText(arr[i].key, f.ascii) + Separator(f) + Text(arr[i].value, f, depth + 1),
                 [COMMA] + Indent(f, depth + 1, true), MembersText(arr[i + 1..], f, depth));
      }
    }
  }

  /** json_dumps: NULL unless the value is an array or an object that prints. */
  method JsonDumps(json: Json, f: Flags) returns (text: Option<seq<byte>>)
    requires Dumpable(json)
    ensures text.Some? <==> (json.Array? || json.Object?) && StringsValid(json)
    ensures text.Some? ==> text.value == Text(Arranged(json, f.sort), f, 0)
  {
    if !json.Array? && !json.Object? {
      return None;
    }
    var d := new Dumper();
    var rc := d.DoDump(json, f, 0);
    if rc != 0 {
      return None;
    }
    return Some(d.out);
  }
}
