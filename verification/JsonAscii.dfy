/** compat/jansson/dump.c: with JSON_ENSURE_ASCII nothing but ASCII characters is printed. */
module JsonAscii {
  import opened Words
  import opened Utf8
  import opened JsonText
  import opened JsonDump
  import opened JsonRoundTrip

  predicate IsAscii(s: seq<byte>) {
    forall i | 0 <= i < |s| :: s[i] < 0x80
  }

  lemma AsciiConcat(s: seq<byte>, t: seq<byte>)
    requires IsAscii(s) && IsAscii(t)
    ensures IsAscii(s + t)
  {
  }

  lemma EscapeIsAscii(cp: int)
    requires 0 <= cp <= 0x10FFFF
    ensures IsAscii(EscapeText(cp))
  {
  }

  /** A character that needs no escape is a single byte. */
  lemma PlainIsAscii(u: seq<byte>)
    requires u != [] && StepLen(u) > 0 && !MustEscape(StepPoint(u), true)
    ensures IsAscii(u[..StepLen(u)])
  {
    hide StepLen, StepPoint;
    StepIsEncoded(u);
  }

  lemma {:induction false} RunIsAscii(s: seq<byte>)
    requires Run(s, true).Some?
    ensures IsAscii(s[..Run(s, true).value])
  {
    hide StepLen, StepPoint, MustEscape, IsAscii, Run;
    if s == [] {
      NoneIsAscii(s[..Run(s, true).value]);
    } else {
      RunStops(s, true);
      if StepLen(s) > 0 && !MustEscape(StepPoint(s), true) {
        var k := StepLen(s);
        RunPlain(s, true);
        RunIsAscii(s[k..]);
        PlainIsAscii(s);
        var n := Run(s[k..], true).value;
        AsciiConcat(s[..k], s[k..][..n]);
        assert s[..k + n] == s[..k] + s[k..][..n];
      } else {
        NoneIsAscii(s[..Run(s, true).value]);
      }
    }
  }

  lemma NoneIsAscii(s: seq<byte>)
    requires s == []
    ensures IsAscii(s)
  {
  }

  /** Whatever the loop prints of a string, valid or not. */
  lemma {:induction false} FlushedIsAscii(s: seq<byte>)
    ensures IsAscii(Flushed(s, true))
    decreases |s|
  {
    hide Run, StepLen, StepPoint, EscapeText, IsAscii;
    var r := Run(s, true);
    if r.None? {
      NoneIsAscii([]);
    } else {
      RunIsAscii(s);
      var n := r.value;
      if n < |s| {
        FlushedStep(s, true);
        var cp, rest := StepPoint(s[n..]), s[n + StepLen(s[n..])..];
        EscapeIsAscii(cp);
        FlushedIsAscii(rest);
        AsciiConcat(EscapeText(cp), Flushed(rest, true));
        AsciiConcat(s[..n], EscapeText(cp) + Flushed(rest, true));
      } else {
        assert s[..n] == s;
      }
    }
  }

  lemma QuoteIsAscii()
    ensures IsAscii([QUOTE])
  {
  }

  lemma StringIsAscii(s: seq<byte>)
    ensures IsAscii(StringText(s, true))
  {
    hide IsAscii, Flushed, Escaped, Valid;
    FlushedIsAscii(s);
    QuoteIsAscii();
    if Valid(s) {
      FlushedValid(s, true);
      AsciiConcat([QUOTE], Escaped(s, true));
      AsciiConcat([QUOTE] + Escaped(s, true), [QUOTE]);
    } else {
      AsciiConcat([QUOTE], Flushed(s, true));
    }
  }

  lemma IntIsAscii(n: int)
    ensures IsAscii(IntText(n))
  {
    hide Digits;
    DigitsAreDigits(if n < 0 then 0 - n else n);
  }

  lemma LayoutIsAscii(f: Flags, depth: nat)
    ensures IsAscii(Indent(f, depth, false)) && IsAscii(Indent(f, depth, true)) && IsAscii(Separator(f))
  {
    IndentIsBlank(f, depth, false);
    IndentIsBlank(f, depth, true);
  }

  lemma FourAscii(a: seq<byte>, b: seq<byte>, c: seq<byte>, d: seq<byte>)
    requires IsAscii(a) && IsAscii(b) && IsAscii(c) && IsAscii(d)
    ensures IsAscii(a + b + (c + d)) && IsAscii(a + (b + c + d)) && IsAscii(a + b + c + d)
  {
  }

  lemma {:induction false} ItemsAreAscii(items: seq<Json>, f: Flags, depth: nat)
    requires items != [] && f.ascii
    ensures IsAscii(ItemsText(items, f, depth))
    decreases items, 1
  {
    hide IsAscii, Text, Indent;
    TextIsAscii(items[0], f, depth + 1);
    LayoutIsAscii(f, depth + 1);
    PunctIsAscii();
    if |items| > 1 {
      ItemsAreAscii(items[1..], f, depth);
      FourAscii(Text(items[0], f, depth + 1), [COMMA], Indent(f, depth + 1, true), ItemsText(items[1..], f, depth));
    } else {
      assert Text(items[0], f, depth + 1) + [] == Text(items[0], f, depth + 1);
    }
  }

  lemma PunctIsAscii()
    ensures IsAscii([COMMA]) && IsAscii([LBRACKET]) && IsAscii([RBRACKET]) && IsAscii([LBRACE]) && IsAscii([RBRACE])
    ensures IsAscii([]) && IsAscii(TRUE_TEXT) && IsAscii(FALSE_TEXT) && IsAscii(NULL_TEXT)
  {
  }

  lemma {:induction false} MembersAreAscii(fields: seq<Field>, f: Flags, depth: nat)
    requires fields != [] && f.ascii
    ensures IsAscii(MembersText(fields, f, depth))
    decreases fields, 1
  {
    hide IsAscii, Text, Indent, StringText, Separator;
    var key, value := StringText(fields[0].key, f.ascii), Text(fields[0].value, f, depth + 1);
    StringIsAscii(fields[0].key);
    TextIsAscii(fields[0].value, f, depth + 1);
    LayoutIsAscii(f, depth + 1);
    PunctIsAscii();
    FourAscii(key, Separator(f), value, []);
    assert key + Separator(f) + value + [] == key + Separator(f) + value;
    if |fields| > 1 {
      MembersAreAscii(fields[1..], f, depth);
      FourAscii(key + Separator(f) + value, [COMMA], Indent(f, depth + 1, true), MembersText(fields[1..], f, depth));
    }
  }

  lemma BracketsAreAscii(a: seq<byte>, b: seq<byte>, c: seq<byte>, d: seq<byte>, e: seq<byte>)
    requires IsAscii(a) && IsAscii(b) && IsAscii(c) && IsAscii(d) && IsAscii(e)
    ensures IsAscii(a + b + (c + d) + e) && IsAscii(a + e)
  {
  }

  /** Every value, under every layout, invalid keys included. */
  lemma {:induction false} TextIsAscii(v: Json, f: Flags, depth: nat)
    requires f.ascii
    ensures IsAscii(Text(v, f, depth))
    decreases v, 0
  {
    hide IsAscii, Indent, StringText, IntText, ItemsText, MembersText;
    PunctIsAscii();
    LayoutIsAscii(f, depth);
    LayoutIsAscii(f, depth + 1);
    match v
    case Integer(n) => IntIsAscii(n);
    case String(s) => StringIsAscii(s);
    case Array(items) =>
      TextOfArray(items, f, depth);
      if items != [] {
        ItemsAreAscii(items, f, depth);
      }
      var all := if items == [] then [] else ItemsText(items, f, depth);
      BracketsAreAscii([LBRACKET], Indent(f, depth + 1, false), all, Indent(f, depth, false), [RBRACKET]);
    case Object(fields) =>
      TextOfObject(fields, f, depth);
      if fields != [] {
        MembersAreAscii(fields, f, depth);
      }
      var all := if fields == [] then [] else MembersText(fields, f, depth);
      BracketsAreAscii([LBRACE], Indent(f, depth + 1, false), all, Indent(f, depth, false), [RBRACE]);
    case _ =>
  }
}
