/** compat/jansson/load.c: the character stream with pushback, and the lexical analyzer over it. */
module JsonLexer {
  import opened Words
  import opened Utf8
  import opened JsonText
  import opened NumberText

  lemma SequenceHasNoEof(raw: seq<byte>)
    requires raw != [] && StepLen(raw) > 0
    ensures forall i | 0 <= i < StepLen(raw) :: raw[i] != EOF
  {
    var n := StepLen(raw);
    if n > 1 {
      assert forall i | 1 <= i < n :: Continuation(raw[..n][i]);
    }
  }

  lemma SequenceInside(raw: seq<byte>)
    requires raw != [] && StepLen(raw) > 0
    ensures Visible(raw) == raw[..StepLen(raw)] + Visible(raw[StepLen(raw)..])
    ensures Clean(raw) == Clean(raw[StepLen(raw)..])
    ensures forall i | 0 <= i < StepLen(raw) :: raw[i] != EOF
  {
    SequenceHasNoEof(raw);
  }

  lemma BadByte(raw: seq<byte>)
    requires raw != [] && CheckFirst(raw[0]) == 0
    ensures Visible(raw) == [] && (Clean(raw) <==> |raw| == 1)
  {
  }

  lemma NotAscii(raw: seq<byte>)
    requires raw != [] && raw[0] >= 0x80
    ensures CheckFirst(raw[0]) != 1
  {
  }

  lemma BadSequence(raw: seq<byte>)
    requires raw != [] && CheckFirst(raw[0]) >= 2 && StepLen(raw) == 0
    ensures Visible(raw) == [] && (Clean(raw) <==> |raw| <= CheckFirst(raw[0]))
  {
  }

  /** The branch for a single character: ASCII, the EOF byte, or the end of the text. */
  lemma SingleByte(raw: seq<byte>, c: byte)
    requires c == At(raw, 0) && (c < 0x80 || c == EOF)
    ensures c == EOF <==> Visible(raw) == []
    ensures c == EOF ==> (Clean(raw) <==> |raw| <= 1)
    ensures c != EOF ==> Visible(raw) == raw[..1] + Visible(raw[1..]) && (Clean(raw) <==> Clean(raw[1..]))
  {
  }

  /** After one well-formed Unicode escape, a backslash and a u start another. */
  lemma SecondEscape(b: seq<byte>)
    requires WellFormed(b) && EscapeLen(b) == 6
    requires |b| > 7 && b[6] == BACKSLASH && b[7] == LOWER_U
    ensures EscapeLen(b[6..]) == 6
  {
  }

  /** lex_t, with the stream_t inside it and the string_data_t behind that. The text is a C string. */
  class Lexer {
    const data: seq<byte>
    var pos: nat
    const buffer: array<byte>
    var bufferPos: nat
    var saved: seq<byte>
    var token: Token
    var line: nat
    /** Where the NUL of the buffer is, and whether the buffer holds the EOF character. */
    ghost var bufferLen: nat
    ghost var ended: bool

    ghost predicate Valid()
      reads this`pos, this`bufferPos, this`bufferLen, this`ended, buffer
    {
      buffer.Length == 5 && pos <= |data| && 0 !in data
      && bufferPos <= bufferLen <= 4 && buffer[bufferLen] == 0
      && (forall i | 0 <= i < bufferLen :: buffer[i] != 0)
      && if ended then bufferLen == 1 && buffer[0] == EOF && (pos == |data| <==> Clean(data))
         else (forall i | 0 <= i < bufferLen :: buffer[i] != EOF) && (Clean(data[pos..]) <==> Clean(data))
    }

    /** The characters still to come before EOF. */
    ghost function Rest(): seq<byte>
      requires Valid()
      reads this`pos, this`bufferPos, this`bufferLen, this`ended, buffer
    {
      if ended then [] else buffer[bufferPos..bufferLen] + Visible(data[pos..])
    }

    /** The EOF character has not been consumed for good, so the stream may be read on. */
    ghost predicate Ready()
      reads this`ended, this`bufferPos
    {
      !(ended && bufferPos == 1)
    }

    /** lex_init, for json_loads. */
    constructor (text: seq<byte>)
      requires 0 !in text
      ensures Valid() && Ready() && Rest() == Visible(text) && data == text && fresh(buffer)
    {
      data := text;
      pos, bufferPos, bufferLen, ended := 0, 0, 0, false;
      buffer := new byte[5](_ => 0);
      saved, token, line := [], TInvalid, 1;
      new;
      assert data[0..] == data;
      assert Rest() == [] + Visible(data);
    }

    /** string_get: the next byte, or EOF at the terminating NUL. */
    method StringGet() returns (c: byte)
      requires pos <= |data|
      modifies this`pos
      ensures c == At(data, old(pos))
      ensures pos == if old(pos) < |data| then old(pos) + 1 else old(pos)
    {
      if pos == |data| {
        return EOF;
      }
      c := data[pos];
      pos := pos + 1;
    }

    /** The rest of a multi-byte sequence whose first byte is in the buffer; true if the whole is UTF-8. */
    method ReadSequence(count: nat, ghost raw: seq<byte>) returns (full: bool)
      requires buffer.Length == 5 && 0 < pos <= |data| && 0 !in data && raw == data[pos - 1..]
      requires buffer[0] == raw[0] && CheckFirst(raw[0]) == count >= 2
      modifies this`pos, buffer
      ensures pos == |data| - |raw| + if count <= |raw| then count else |raw|
      ensures full <==> StepLen(raw) > 0
      ensures full ==> StepLen(raw) == count && buffer[..count] == raw[..count]
    {
      ghost var start := pos - 1;
      for i := 1 to count
        modifies this`pos, buffer
        invariant pos == if start + i <= |data| then start + i else |data|
        invariant forall j | 0 <= j < i :: buffer[j] == At(raw, j)
      {
        assert At(data, pos) == At(raw, i);
        buffer[i] := StringGet();
      }
      ghost var s := buffer[..count];
      var cp;
      full, cp := Utf8CheckFull(buffer[..count]);
      if |raw| >= count {
        assert raw[..count] == s;
      } else {
        assert !Continuation(s[|raw|]);
      }
    }

    /** The multi-byte branch of stream_get. False for the jump to `out`. */
    method RefillSequence(ghost raw: seq<byte>) returns (good: bool)
      requires buffer.Length == 5 && 0 < pos <= |data| && 0 !in data && raw == data[pos - 1..] && !ended
      requires (Clean(raw) <==> Clean(data)) && buffer[0] == raw[0] && raw[0] >= 0x80 && bufferPos == 0
      modifies this`pos, this`bufferLen, buffer
      ensures good ==> Valid() && bufferLen > 0 && Rest() == Visible(raw) && Visible(raw) != []
      ensures !good ==> Visible(raw) == [] && pos <= |data| && (pos == |data| <==> Clean(data))
    {
      hide FullOk, CheckFirst, StepLen, Visible, Clean;
      var count := CheckFirst(buffer[0]);
      if count == 0 {
        BadByte(raw);
        return false;
      }
      NotAscii(raw);
      assert count >= 2;
      good := ReadSequence(count, raw);
      if !good {
        BadSequence(raw);
        return false;
      }
      buffer[count] := 0;
      bufferLen := count;
      SequenceInside(raw);
      assert raw[count..] == data[pos..];
      assert buffer[0..count] == raw[..count];
      forall i | 0 <= i < count ensures buffer[i] == raw[i] && buffer[i] != 0 {
        assert buffer[i] == buffer[0..count][i];
        assert raw[i] in data;
      }
      assert Rest() == raw[..count] + Visible(raw[count..]);
      assert Visible(raw)[0] == raw[0];
    }

    /** The other branch: one ASCII character, or EOF. */
    method RefillSingle(c: byte, ghost raw: seq<byte>)
      requires buffer.Length == 5 && pos <= |data| && 0 !in data && !ended && bufferPos == 0
      requires raw != [] ==> pos > 0 && raw == data[pos - 1..]
      requires raw == [] ==> pos == |data|
      requires (Clean(raw) <==> Clean(data)) && c == At(raw, 0) && (c < 0x80 || c == EOF) && buffer[0] == c
      modifies this`bufferLen, this`ended, buffer
      ensures Valid() && bufferLen > 0 && Rest() == Visible(raw) && (ended <==> Visible(raw) == [])
    {
      hide StepLen, Visible, Clean;
      buffer[1] := 0;
      bufferLen := 1;
      ended := c == EOF;
      SingleByte(raw, c);
      if !ended {
        assert buffer[0..1] == raw[..1];
        assert raw[1..] == data[pos..];
      }
    }

    /** Fills the buffer: the branch of stream_get that reads the data. */
    method Refill() returns (good: bool)
      requires Valid() && !ended && bufferPos == bufferLen
      modifies this`pos, this`bufferPos, this`bufferLen, this`ended, buffer
      ensures good ==> Valid() && bufferPos == 0 && bufferLen > 0 && Rest() == old(Rest())
      ensures good ==> (ended <==> old(Rest()) == [])
      ensures !good ==> old(Rest()) == [] && pos <= |data| && (pos == |data| <==> Clean(data))
    {
      hide Visible, Clean;
      ghost var raw := data[pos..];
      assert Rest() == [] + Visible(raw);
      buffer[0] := StringGet();
      bufferPos := 0;
      var c := buffer[0];
      if c >= 0x80 && c != EOF {
        good := RefillSequence(raw);
      } else {
        RefillSingle(c, raw);
        good := true;
      }
    }

    /** stream_get. */
    method StreamGet() returns (c: byte)
      requires Valid() && Ready()
      modifies this`pos, this`bufferPos, this`bufferLen, this`ended, buffer
      ensures Valid() && c == At(old(Rest()), 0) && (c == EOF <==> old(Rest()) == [])
      ensures Rest() == if old(Rest()) == [] then [] else old(Rest())[1..]
      ensures Ready() <==> c != EOF
      ensures bufferPos > 0 && buffer[bufferPos - 1] == c
    {
      hide Visible, Clean;
      ghost var u := Rest();
      if buffer[bufferPos] == 0 {
        var good := Refill();
        if !good {
          buffer[0] := EOF;
          buffer[1] := 0;
          bufferPos := 1;
          ended, bufferLen := true, 1;
          return EOF;
        }
      }
      bufferPos := bufferPos + 1;
      return buffer[bufferPos - 1];
    }

    /** stream_unget. Its two assertions are the precondition, which StreamGet establishes. */
    method StreamUnget(c: byte)
      requires Valid() && bufferPos > 0 && buffer[bufferPos - 1] == c
      modifies this`bufferPos
      ensures Valid() && Ready()
      ensures Rest() == if c == EOF then [] else [c] + old(Rest())
    {
      hide Visible, Clean;
      PutBack(buffer[..], bufferPos - 1, bufferLen);
      ghost var tail := Visible(data[pos..]);
      ghost var after := buffer[bufferPos..bufferLen];
      bufferPos := bufferPos - 1;
      assert buffer[bufferPos] == c;
      Regroup(c, after, tail);
    }

    lemma PutBack(b: seq<byte>, p: nat, n: nat)
      requires p < n <= |b|
      ensures b[p..n] == [b[p]] + b[p + 1..n]
    {
    }

    lemma Regroup(c: byte, s: seq<byte>, t: seq<byte>)
      ensures ([c] + s) + t == [c] + (s + t)
    {
    }

    // ----- saved text -----

    /** The character `c` at position `k` of `u` has just been read and saved: saved text, stream and
        pushback agree. `first` is what was saved before `u`. */
    ghost predicate Reading(first: seq<byte>, u: seq<byte>, k: nat, c: byte)
      reads this`pos, this`bufferPos, this`bufferLen, this`ended, this`saved, buffer
    {
      Valid() && k <= |u| && c == At(u, k) && (c == EOF <==> k == |u|)
      && saved == first + u[..k] + [c]
      && Rest() == (if k < |u| then u[k + 1..] else [])
      && (Ready() <==> c != EOF)
      && bufferPos > 0 && buffer[bufferPos - 1] == c
    }

    lemma ReadingAt(first: seq<byte>, u: seq<byte>, k: nat, c: byte)
      requires Reading(first, u, k, c)
      ensures Valid() && k <= |u| && c == At(u, k) && (c == EOF <==> k == |u|)
    {
    }

    lemma ReadingState(first: seq<byte>, u: seq<byte>, k: nat, c: byte)
      requires Reading(first, u, k, c) && c != EOF
      ensures k < |u| && u[k] == c && Valid() && Ready() && Rest() == u[k + 1..] && saved == first + u[..k] + [c]
    {
    }

    /** lex_get_save, at the start of `u`. */
    method GetSave(ghost first: seq<byte>, ghost u: seq<byte>) returns (c: byte)
      requires Valid() && Ready() && saved == first && u == Rest()
      modifies this`pos, this`bufferPos, this`bufferLen, this`ended, this`saved, buffer
      ensures Reading(first, u, 0, c)
    {
      c := StreamGet();
      saved := saved + [c];
      assert u[..0] == [];
    }

    /** lex_get_save, further on. */
    method NextSave(ghost first: seq<byte>, ghost u: seq<byte>, ghost k: nat, ghost c0: byte) returns (c: byte)
      requires Reading(first, u, k, c0) && c0 != EOF
      modifies this`pos, this`bufferPos, this`bufferLen, this`ended, this`saved, buffer
      ensures Reading(first, u, k + 1, c)
    {
      hide Valid, Rest, Ready;
      c := StreamGet();
      saved := saved + [c];
      assert u[..k + 1] == u[..k] + [c0];
    }

    /** lex_unget_unsave. Both its assertions and those of stream_unget hold. */
    method UngetUnsave(c: byte, ghost first: seq<byte>, ghost u: seq<byte>, ghost k: nat)
      requires Reading(first, u, k, c)
      modifies this`bufferPos, this`saved
      ensures Valid() && Ready() && Rest() == u[k..] && saved == first + u[..k]
    {
      StreamUnget(c);
      var d := saved[|saved| - 1];
      saved := saved[..|saved| - 1];
      assert c == d;
      if c != EOF {
        assert u[k..] == [c] + u[k + 1..];
      }
    }

    // ----- strings -----

    lemma HexIsNoEof(c: byte)
      requires IsHex(c)
      ensures c != EOF
    {
    }

    /** When a backslash and a u start an escape sequence. */
    lemma HexEscape(u: seq<byte>, k: nat)
      requires k + 1 < |u| && u[k] == BACKSLASH && u[k + 1] == LOWER_U
      ensures EscapeLen(u[k..]) == 6 <==> k + 6 <= |u| && forall j | k + 2 <= j < k + 6 :: IsHex(u[j])
    {
      hide IsHex;
      var v := u[k..];
      assert forall j | 0 <= j < |v| :: v[j] == u[k + j];
      assert k + 6 <= |u| ==> u[k + 2] == v[2] && u[k + 3] == v[3] && u[k + 4] == v[4] && u[k + 5] == v[5];
    }

    /** The four hex digits after a backslash and a u, from position `k` + 2 on. */
    method ScanHex(ghost u: seq<byte>, ghost k: nat, ghost c0: byte) returns (good: bool, c: byte)
      requires Reading([QUOTE], u, k + 1, c0) && c0 == LOWER_U && u[k] == BACKSLASH
      modifies this`pos, this`bufferPos, this`bufferLen, this`ended, this`saved, buffer
      ensures good <==> EscapeLen(u[k..]) == 6
      ensures good ==> k + 6 <= |u| && Reading([QUOTE], u, k + 6, c)
    {
      hide Reading, Valid, Rest, IsHex, EscapeLen;
      ReadingAt([QUOTE], u, k + 1, c0);
      HexEscape(u, k);
      c := NextSave([QUOTE], u, k + 1, c0);
      for i := 0 to 4
        invariant k + 2 + i <= |u| && Reading([QUOTE], u, k + 2 + i, c)
        invariant forall j | k + 2 <= j < k + 2 + i :: IsHex(u[j])
      {
        ReadingAt([QUOTE], u, k + 2 + i, c);
        if !IsHex(c) {
          UngetUnsave(c, [QUOTE], u, k + 2 + i);
          return false, c;
        }
        HexIsNoEof(c);
        c := NextSave([QUOTE], u, k + 2 + i, c);
        ReadingAt([QUOTE], u, k + 3 + i, c);
      }
      return true, c;
    }

    /** The first pass of lex_scan_string: saves everything up to the closing quote, or gives up. */
    method ScanBody() returns (good: bool)
      requires Valid() && Ready() && saved == [QUOTE]
      modifies this`pos, this`bufferPos, this`bufferLen, this`ended, this`saved, buffer
      ensures good <==> BodyLen(old(Rest())).Some?
      ensures good ==> Valid() && Ready() && Rest() == old(Rest())[BodyLen(old(Rest())).value + 1..]
      ensures good ==> saved == [QUOTE] + old(Rest())[..BodyLen(old(Rest())).value] + [QUOTE]
    {
      hide Reading, Valid, Rest, Ready, EscapeLen;
      ghost var u := Rest();
      ghost var k := 0;
      var c := GetSave([QUOTE], u);
      ReadingAt([QUOTE], u, 0, c);
      assert u[0..] == u;
      while c != QUOTE
        invariant k <= |u| && Reading([QUOTE], u, k, c)
        invariant BodyLen(u) == Ahead(k, BodyLen(u[k..]))
        decreases |u| - k
      {
        ghost var step;
        good, step, c := ScanStep(u, k, c);
        if !good {
          return false;
        }
        assert u[k..][step..] == u[k + step..];
        k := k + step;
        ReadingAt([QUOTE], u, k, c);
      }
      ReadingState([QUOTE], u, k, c);
      return true;
    }

    /** One turn of that pass: a plain character or an escape sequence. */
    method ScanStep(ghost u: seq<byte>, ghost k: nat, c0: byte) returns (good: bool, ghost step: nat, c: byte)
      requires Reading([QUOTE], u, k, c0) && c0 != QUOTE
      modifies this`pos, this`bufferPos, this`bufferLen, this`ended, this`saved, buffer
      ensures !good ==> BodyLen(u[k..]) == None
      ensures good ==> 0 < step <= |u| - k && Reading([QUOTE], u, k + step, c)
      ensures good ==> BodyLen(u[k..]) == Ahead(step, BodyLen(u[k..][step..]))
    {
      hide Valid, Rest, Ready;
      c, step := c0, 0;
      if c == EOF {
        UngetUnsave(c, [QUOTE], u, k);
        return false, step, c;
      } else if c <= 0x1F {
        UngetUnsave(c, [QUOTE], u, k);
        return false, step, c;
      } else if c == BACKSLASH {
        c := NextSave([QUOTE], u, k, c);
        if c == LOWER_U {
          good, c := ScanHex(u, k, c);
          step := 6;
          return good, step, c;
        } else if IsSimpleEscape(c) {
          c := NextSave([QUOTE], u, k + 1, c);
          step := 2;
        } else {
          UngetUnsave(c, [QUOTE], u, k + 1);
          return false, step, c;
        }
      } else {
        c := NextSave([QUOTE], u, k, c);
        step := 1;
      }
      return true, step, c;
    }

    /** decode_unicode_escape: `p` is the place of the u in the saved text. */
    method DecodeUnicodeEscape(p: nat) returns (value: int)
      requires p + 4 < |saved| && saved[p] == LOWER_U
      requires IsHex(saved[p + 1]) && IsHex(saved[p + 2]) && IsHex(saved[p + 3]) && IsHex(saved[p + 4])
      ensures value == Hex4(saved[p + 1..p + 5])
    {
      value := 0;
      var i := 1;
      while i <= 4
        invariant 1 <= i <= 5
        invariant i == 1 ==> value == 0
        invariant i == 2 ==> value == HexDigit(saved[p + 1])
        invariant i == 3 ==> value == HexDigit(saved[p + 1]) * 16 + HexDigit(saved[p + 2])
        invariant i == 4 ==>
                    value == (HexDigit(saved[p + 1]) * 16 + HexDigit(saved[p + 2])) * 16 + HexDigit(saved[p + 3])
        invariant i == 5 ==> value == Hex4(saved[p + 1..p + 5])
      {
        var c := saved[p + i];
        value := value * 16;
        if IsDigit(c) {
          value := value + (c - 0x30);
        } else if IsLower(c) {
          value := value + (c - 0x61 + 10);
        } else if IsUpper(c) {
          value := value + (c - 0x41 + 10);
        } else {
          assert false;
        }
        i := i + 1;
      }
    }

    /** A Unicode escape in the second pass: `p` is the place of its u. Returns the place after it. */
    method ReadUnicode(p: nat, ghost b: seq<byte>) returns (good: bool, value: int, p': nat)
      requires 1 < p <= |saved| && b == saved[p - 1..|saved| - 1] && saved[|saved| - 1] == QUOTE
      requires WellFormed(b) && EscapeLen(b) == 6
      ensures good <==> UnicodeEscape(b).Some?
      ensures good ==> (value, p' - (p - 1)) == UnicodeEscape(b).value
    {
      hide WellFormed;
      assert forall i | 0 <= i < |b| :: saved[p - 1 + i] == b[i];
      value := DecodeUnicodeEscape(p);
      assert saved[p + 1..p + 5] == b[2..6];
      p' := p + 5;
      if 0xD800 <= value <= 0xDBFF {
        if saved[p'] == BACKSLASH && saved[p' + 1] == LOWER_U {
          SecondEscape(b);
          assert forall i | 0 <= i < 6 :: saved[p' + i] == b[6..][i];
          var value2 := DecodeUnicodeEscape(p' + 1);
          assert saved[p' + 2..p' + 6] == b[8..12];
          p' := p' + 6;
          if 0xDC00 <= value2 <= 0xDFFF {
            value := (value - 0xD800) * 0x400 + (value2 - 0xDC00) + 0x10000;
          } else {
            return false, value, p';
          }
        } else {
          return false, value, p';
        }
      } else if 0xDC00 <= value <= 0xDFFF {
        return false, value, p';
      } else if value == 0 {
        return false, value, p';
      }
      return true, value, p';
    }

    /** The call of utf8_encode, which cannot fail here, and the copy of its bytes to the target. */
    static method StoreEncoded(t: array<byte>, tn: nat, value: int) returns (tn': nat)
      requires 0 <= value <= 0x10FFFF && tn + |Enc(value)| <= t.Length
      modifies t
      ensures tn' == tn + |Enc(value)| && t[..tn'] == old(t[..tn]) + Enc(value)
    {
      hide Enc;
      var buffer := new byte[4](_ => 0);
      var rc, length := Utf8Encode(value, buffer);
      assert rc == 0;
      for i := 0 to length
        modifies t
        invariant t[..tn + i] == old(t[..tn]) + Enc(value)[..i]
      {
        t[tn + i] := buffer[i];
      }
      return tn + length;
    }

    /** One turn of the second pass. */
    method DecodeOne(t: array<byte>, tn: nat, p: nat, ghost b: seq<byte>) returns (good: bool, tn': nat, p': nat)
      requires 0 < p < |saved| && b == saved[p..|saved| - 1] && saved[|saved| - 1] == QUOTE
      requires b != [] && WellFormed(b) && tn + |b| <= t.Length
      modifies t
      ensures good <==> DecodeStep(b).Some?
      ensures good ==> (p' - p) == DecodeStep(b).value.1 && tn' <= t.Length
      ensures good ==> t[..tn'] == old(t[..tn]) + DecodeStep(b).value.0
    {
      hide Enc, UnicodeEscape, Hex4;
      assert forall i | 0 <= i < |b| :: saved[p + i] == b[i];
      tn', p' := tn, p;
      if saved[p'] == BACKSLASH {
        p' := p' + 1;
        if saved[p'] == LOWER_U {
          UnicodeEscapeFits(b);
          var value;
          good, value, p' := ReadUnicode(p', b);
          if !good {
            return false, tn', p';
          }
          tn' := StoreEncoded(t, tn', value);
        } else {
          var c := saved[p'];
          assert IsSimpleEscape(c);
          t[tn'] := if c == 0x62 then 0x08 else if c == 0x66 then 0x0C else if c == 0x6E then 0x0A
                    else if c == 0x72 then 0x0D else if c == 0x74 then 0x09 else c;
          tn' := tn' + 1;
          p' := p' + 1;
        }
      } else {
        t[tn'] := saved[p'];
        tn', p' := tn' + 1, p' + 1;
      }
      return true, tn', p';
    }

    /** The second pass of lex_scan_string. The target has room for the saved text and never overflows. */
    method DecodeSaved() returns (value: Option<seq<byte>>)
      requires |saved| >= 2 && saved[|saved| - 1] == QUOTE && WellFormed(saved[1..|saved| - 1])
      ensures value == Decode(saved[1..|saved| - 1])
    {
      hide DecodeStep, WellFormed;
      var t := new byte[|saved| + 1](_ => 0);
      var tn, p := 0, 1;
      ghost var all := saved[1..|saved| - 1];
      GlueNothing(Decode(all));
      while saved[p] != QUOTE
        modifies t
        invariant 1 <= p < |saved| && 0 <= tn < p && t.Length == |saved| + 1
        invariant WellFormed(saved[p..|saved| - 1])
        invariant Decode(all) == Glue(t[..tn], Decode(saved[p..|saved| - 1]))
        decreases |saved| - p
      {
        ghost var b, out := saved[p..|saved| - 1], t[..tn];
        DecodeStepFits(b);
        var good, tn', p' := DecodeOne(t, tn, p, b);
        if !good {
          return None;
        }
        assert b[p' - p..] == saved[p'..|saved| - 1];
        GlueTwice(out, DecodeStep(b).value.0, Decode(saved[p'..|saved| - 1]));
        tn, p := tn', p';
      }
      if p < |saved| - 1 {
        WellFormedStart(saved[p..|saved| - 1]);
        assert false;
      }
      assert saved[p..|saved| - 1] == [];
      t[tn] := 0;
      assert t[..tn] + [] == t[..tn];
      return Some(t[..tn]);
    }

    /** lex_scan_string: both passes. */
    method LexScanString()
      requires Valid() && Ready() && saved == [QUOTE]
      modifies this`pos, this`bufferPos, this`bufferLen, this`ended, this`saved, this`token, buffer
      ensures token == LexString(old(Rest())).token
      ensures token != TInvalid ==> Valid() && Ready() && Rest() == LexString(old(Rest())).rest
    {
      hide Valid, Rest, Ready, BodyLen, Decode, WellFormed;
      ghost var u := Rest();
      token := TInvalid;
      var good := ScanBody();
      if !good {
        return;
      }
      ghost var n := BodyLen(u).value;
      assert saved[1..|saved| - 1] == u[..n];
      BodyIsWellFormed(u);
      var value := DecodeSaved();
      if value.Some? {
        token := TString(value.value);
      }
    }

    // ----- numbers and words -----

    /** The loops that save a run of digits. */
    method SaveDigits(ghost u: seq<byte>, ghost k: nat, c0: byte) returns (c: byte, ghost j: nat)
      requires Reading([], u, k, c0)
      modifies this`pos, this`bufferPos, this`bufferLen, this`ended, this`saved, buffer
      ensures k <= |u| && j == DigitsEnd(u, k) && Reading([], u, j, c)
    {
      hide Reading, Valid, Rest;
      c, j := c0, k;
      ReadingAt([], u, k, c);
      while IsDigit(c)
        invariant k <= j <= |u| && Reading([], u, j, c)
        invariant DigitsEnd(u, k) == DigitsEnd(u, j)
        decreases |u| - j
      {
        ReadingAt([], u, j, c);
        assert u[j..][1..] == u[j + 1..];
        c := NextSave([], u, j, c);
        j := j + 1;
        ReadingAt([], u, j, c);
      }
      ReadingAt([], u, j, c);
    }

    /** The integer part of lex_scan_number: an optional sign, and a zero alone or digits. */
    method SaveInteger(ghost u: seq<byte>, c0: byte) returns (good: bool, c: byte, ghost j: nat)
      requires Reading([], u, 0, c0) && c0 != EOF
      modifies this`pos, this`bufferPos, this`bufferLen, this`ended, this`saved, buffer
      ensures good <==> IntEnd(u).Some?
      ensures good ==> j == IntEnd(u).value && j <= |u| && Reading([], u, j, c)
    {
      hide Reading, Valid, Rest, DigitsEnd;
      c := c0;
      ghost var i := 0;
      ReadingAt([], u, 0, c);
      if c == MINUS {
        c := NextSave([], u, 0, c);
        i := 1;
      }
      ReadingAt([], u, i, c);
      j := i;
      if c == ZERO {
        c := NextSave([], u, i, c);
        ReadingAt([], u, i + 1, c);
        if IsDigit(c) {
          UngetUnsave(c, [], u, i + 1);
          return false, c, j;
        }
        j := i + 1;
      } else if IsDigit(c) {
        c, j := SaveDigits(u, i, c);
      } else {
        UngetUnsave(c, [], u, i);
        return false, c, j;
      }
      return true, c, j;
    }

    /** The exponent: `c` is the e. */
    method SaveExponent(ghost u: seq<byte>, ghost k: nat, c0: byte) returns (good: bool, c: byte, ghost j: nat)
      requires Reading([], u, k, c0) && c0 != EOF
      modifies this`pos, this`bufferPos, this`bufferLen, this`ended, this`saved, buffer
      ensures k <= |u| && (good <==> ExpEnd(u, k).Some?)
      ensures good ==> j == ExpEnd(u, k).value && j <= |u| && Reading([], u, j, c)
    {
      hide Reading, Valid, Rest, DigitsEnd;
      ReadingAt([], u, k, c0);
      c := NextSave([], u, k, c0);
      j := k + 1;
      ReadingAt([], u, j, c);
      if c == PLUS || c == MINUS {
        c := NextSave([], u, j, c);
        j := j + 1;
        ReadingAt([], u, j, c);
      }
      if !IsDigit(c) {
        UngetUnsave(c, [], u, j);
        return false, c, j;
      }
      c, j := SaveDigits(u, j, c);
      good := true;
    }

    /** Fraction and exponent: `c` is the character after the integer part. */
    method SaveReal(ghost u: seq<byte>, ghost k: nat, c0: byte) returns (good: bool, c: byte, ghost j: nat)
      requires Reading([], u, k, c0) && (c0 == DOT || IsExp(c0))
      modifies this`pos, this`bufferPos, this`bufferLen, this`ended, this`saved, buffer
      ensures k <= |u| && (good <==> RealEnd(u, k).Some?)
      ensures good ==> j == RealEnd(u, k).value && j <= |u| && Reading([], u, j, c)
    {
      hide Reading, Valid, Rest, Ready, DigitsEnd, ExpEnd;
      ReadingAt([], u, k, c0);
      c, j := c0, k;
      if c == DOT {
        c := GetAfterDot(u, k, c);
        if !IsDigit(c) {
          return false, c, j;
        }
        SaveAfterDot(u, k, c);
        c, j := SaveDigits(u, k + 1, c);
        ReadingAt([], u, j, c);
      }
      if IsExp(c) {
        good, c, j := SaveExponent(u, j, c);
        return;
      }
      good := true;
    }

    /** lex_get after the dot: the character is not saved before it is known to be a digit. */
    method GetAfterDot(ghost u: seq<byte>, ghost k: nat, c0: byte) returns (c: byte)
      requires Reading([], u, k, c0) && c0 == DOT
      modifies this`pos, this`bufferPos, this`bufferLen, this`ended, buffer
      ensures k < |u| && c == At(u, k + 1) && saved == old(saved)
      ensures IsDigit(c) ==> Valid() && Ready() && Rest() == u[k + 2..] && saved == u[..k + 1]
                             && bufferPos > 0 && buffer[bufferPos - 1] == c
    {
      hide Visible, Clean;
      ReadingState([], u, k, c0);
      c := StreamGet();
      assert [] + u[..k] + [DOT] == u[..k + 1];
    }

    method SaveAfterDot(ghost u: seq<byte>, ghost k: nat, c: byte)
      requires Valid() && Ready() && k < |u| && c == At(u, k + 1) && IsDigit(c) && saved == u[..k + 1]
      requires Rest() == u[k + 2..] && bufferPos > 0 && buffer[bufferPos - 1] == c
      modifies this`saved
      ensures Reading([], u, k + 1, c)
    {
      saved := saved + [c];
      assert saved == [] + u[..k + 1] + [c];
    }

    /** lex_scan_number. */
    method LexScanNumber(ghost u: seq<byte>, c0: byte)
      requires Reading([], u, 0, c0) && c0 != EOF
      modifies this`pos, this`bufferPos, this`bufferLen, this`ended, this`saved, this`token, buffer
      ensures token == LexNumber(u).token
      ensures token != TInvalid ==> Valid() && Ready() && Rest() == LexNumber(u).rest
    {
      hide Reading, Valid, Rest, Ready, IntEnd, RealEnd, IntValue, StrtolEnd, StrtolValue, StrtodEnd, IsDecimal;
      token := TInvalid;
      var good, c, j := SaveInteger(u, c0);
      if !good {
        return;
      }
      ReadingAt([], u, j, c);
      if c != DOT && !IsExp(c) {
        UngetUnsave(c, [], u, j);
        assert [] + u[..j] == u[..j];
        IntRead(u);
        var value, end := Strtol(saved);
        assert end == |saved|;
        if value > 0x7FFF_FFFF {
          return;
        } else if value < -0x8000_0000 {
          return;
        }
        token := TInteger(value);
        return;
      }
      RealRead(u, j);
      good, c, j := SaveReal(u, j, c);
      if !good {
        return;
      }
      UngetUnsave(c, [], u, j);
      assert [] + u[..j] == u[..j];
      assert StrtodEnd(saved) == |saved|;
      token := TReal(saved);
    }

    /** The branch of lex_scan for identifiers. */
    method LexScanWord(ghost u: seq<byte>, c0: byte)
      requires Reading([], u, 0, c0) && IsAlpha(c0)
      modifies this`pos, this`bufferPos, this`bufferLen, this`ended, this`saved, this`token, buffer
      ensures token == WordToken(u[..AlphaLen(u)])
      ensures Valid() && Ready() && Rest() == u[AlphaLen(u)..]
    {
      hide Reading, Valid, Rest, Ready;
      ReadingAt([], u, 0, c0);
      var c := c0;
      ghost var j := 0;
      assert u[0..] == u;
      while IsAlpha(c)
        invariant 0 <= j <= |u| && Reading([], u, j, c)
        invariant AlphaLen(u) == j + AlphaLen(u[j..])
        decreases |u| - j
      {
        ReadingAt([], u, j, c);
        assert u[j..][1..] == u[j + 1..];
        c := NextSave([], u, j, c);
        j := j + 1;
        ReadingAt([], u, j, c);
      }
      ReadingAt([], u, j, c);
      UngetUnsave(c, [], u, j);
      assert [] + u[..j] == u[..j];
      token := if saved == TRUE_TEXT then TTrue
               else if saved == FALSE_TEXT then TFalse
               else if saved == NULL_TEXT then TNull
               else TInvalid;
    }

    // ----- tokens -----

    /** The loop of lex_scan over white space: the first other character, not yet saved. */
    method GetNonBlank() returns (c: byte)
      requires Valid() && Ready()
      modifies this`pos, this`bufferPos, this`bufferLen, this`ended, this`line, buffer
      ensures Valid() && c == At(SkipBlanks(old(Rest())), 0)
      ensures c == EOF <==> SkipBlanks(old(Rest())) == []
      ensures c != EOF ==>
                Ready() && Rest() == SkipBlanks(old(Rest()))[1..] && bufferPos > 0 && buffer[bufferPos - 1] == c
      ensures c == EOF ==> (pos == |data| <==> Clean(data))
    {
      hide Rest, Visible, Clean;
      ghost var u := Rest();
      ghost var w := u;
      c := StreamGet();
      while IsBlank(c)
        invariant Valid() && c == At(w, 0) && (c == EOF <==> w == [])
        invariant SkipBlanks(u) == SkipBlanks(w)
        invariant Rest() == if w == [] then [] else w[1..]
        invariant Ready() <==> c != EOF
        invariant bufferPos > 0 && buffer[bufferPos - 1] == c
        decreases |w|
      {
        if c == NEWLINE {
          line := line + 1;
        }
        w := w[1..];
        c := StreamGet();
      }
    }

    /** lex_save_cached: keeps the rest of a character for the error message. */
    method SaveCached()
      requires Valid()
      modifies this`saved, this`bufferPos
      ensures Valid() && bufferPos == bufferLen
    {
      while buffer[bufferPos] != 0
        invariant Valid()
        decreases bufferLen - bufferPos
      {
        saved := saved + [buffer[bufferPos]];
        bufferPos := bufferPos + 1;
      }
    }

    /** lex_scan: the next token. */
    method LexScan()
      requires Valid() && Ready()
      modifies this, buffer
      ensures token == Lex(old(Rest()), Clean(data)).token
      ensures token != TEof && token != TInvalid ==>
                Valid() && Ready() && Rest() == Lex(old(Rest()), Clean(data)).rest
    {
      hide Valid, Rest, Ready, SkipBlanks, LexNumber, LexString, WordToken;
      ghost var u := SkipBlanks(Rest());
      saved := [];
      var c := GetNonBlank();
      if c == EOF {
        token := if pos == |data| then TEof else TInvalid;
        return;
      }
      saved := saved + [c];
      if IsPunct(c) {
        token := TPunct(c);
      } else if c == QUOTE {
        LexScanString();
      } else if IsDigit(c) || c == MINUS {
        StartReading(u, c);
        LexScanNumber(u, c);
      } else if IsAlpha(c) {
        StartReading(u, c);
        LexScanWord(u, c);
      } else {
        SaveCached();
        token := TInvalid;
      }
    }

    lemma StartReading(u: seq<byte>, c: byte)
      requires Valid() && Ready() && u != [] && c == u[0] && c != EOF && Rest() == u[1..] && saved == [c]
      requires bufferPos > 0 && buffer[bufferPos - 1] == c
      ensures Reading([], u, 0, c)
    {
      assert [] + u[..0] + [c] == [c];
    }

    // ----- the parser -----

    /** After a token that ends the parse nothing is read; after any other the stream is in order. */
    ghost predicate Usable()
      reads this, buffer
    {
      token == TEof || token == TInvalid || (Valid() && Ready())
    }

    /** The characters after the current token. */
    ghost function Left(): seq<byte>
      reads this, buffer
    {
      if Valid() then Rest() else []
    }

    /** The termination measure of the recursive descent: the unread input. */
    ghost function Measure(): nat
      reads this, buffer
    {
      if token == TEof || token == TInvalid then 0 else |Left()| + 1
    }

    /** What a parsing method must deliver, given what the grammar says. */
    ghost predicate Delivers(json: Option<Json>, p: Option<Parsed>)
      reads this, buffer
    {
      (json.Some? <==> p.Some?)
      && (p.Some? ==> json.value == p.value.value && Valid() && Ready() && Rest() == p.value.rest)
    }

    /** parse_value. */
    method ReadValue() returns (json: Option<Json>)
      requires Usable()
      modifies this, buffer
      ensures Delivers(json, ParseValue(old(token), old(Left()), Clean(data)))
      decreases Measure(), 1
    {
      hide Valid, Rest, Ready, ParseArray, ParseObject;
      match token
      case TString(s) => json := Some(String(s));
      case TInteger(n) => json := Some(Integer(n));
      case TReal(text) => json := Some(Real(text));
      case TTrue => json := Some(True);
      case TFalse => json := Some(False);
      case TNull => json := Some(Null);
      case TPunct(c) =>
        if c == LBRACE {
          json := ReadObject();
        } else if c == LBRACKET {
          json := ReadArray();
        } else {
          json := None;
        }
      case _ => json := None;
    }

    /** parse_array. */
    method ReadArray() returns (json: Option<Json>)
      requires Valid() && Ready()
      modifies this, buffer
      ensures Delivers(json, ParseArray(old(Left()), Clean(data)))
      decreases |Left()| + 1, 0
    {
      hide Valid, Rest, Ready, Lex;
      ghost var u := Rest();
      ghost var clean := Clean(data);
      LexProgress(u, clean);
      LexScan();
      if token == TPunct(RBRACKET) {
        return Some(Array([]));
      }
      var items: seq<Json> := [];
      while token != TEof
        invariant Usable()
        invariant token != TEof && token != TInvalid ==> |Rest()| < |u|
        invariant ParseArray(u, clean) ==
                  if token == TEof || token == TInvalid then None else ParseElements(token, Rest(), items, clean)
        decreases Measure()
      {
        var elem := ReadValue();
        if elem == None {
          return None;
        }
        items := items + [elem.value];
        LexProgress(Rest(), clean);
        LexScan();
        if token != TPunct(COMMA) {
          break;
        }
        BadTokenFails(Lex(Rest(), clean), items, clean);
        LexProgress(Rest(), clean);
        LexScan();
      }
      if token != TPunct(RBRACKET) {
        return None;
      }
      return Some(Array(items));
    }

    /** parse_object. */
    method ReadObject() returns (json: Option<Json>)
      requires Valid() && Ready()
      modifies this, buffer
      ensures Delivers(json, ParseObject(old(Left()), Clean(data)))
      decreases |Left()| + 1, 0
    {
      hide Valid, Rest, Ready, Lex;
      ghost var u := Rest();
      ghost var clean := Clean(data);
      LexProgress(u, clean);
      LexScan();
      if token == TPunct(RBRACE) {
        return Some(Object([]));
      }
      var fields: seq<Field> := [];
      while true
        invariant Usable()
        invariant token != TEof && token != TInvalid ==> |Rest()| < |u|
        invariant ParseObject(u, clean) ==
                  if token.TString? then ParseMembers(token, Rest(), fields, clean) else None
        decreases Measure()
      {
        if !token.TString? {
          return None;
        }
        var key := token.s;
        var value := ReadMember();
        if value == None {
          return None;
        }
        fields := SetField(fields, key, value.value);
        LexProgress(Rest(), clean);
        LexScan();
        if token != TPunct(COMMA) {
          break;
        }
        LexProgress(Rest(), clean);
        LexScan();
      }
      if token != TPunct(RBRACE) {
        return None;
      }
      return Some(Object(fields));
    }

    /** The colon of a member and its value. */
    method ReadMember() returns (value: Option<Json>)
      requires Valid() && Ready() && token.TString?
      modifies this, buffer
      ensures Delivers(value, MemberValue(old(Left()), Clean(data)))
      decreases Measure(), 0
    {
      hide Valid, Rest, Ready, Lex;
      ghost var clean := Clean(data);
      LexProgress(Rest(), clean);
      LexScan();
      if token != TPunct(COLON) {
        return None;
      }
      LexProgress(Rest(), clean);
      LexScan();
      value := ReadValue();
    }

    /** parse_json. */
    method ReadDocument() returns (json: Option<Json>)
      requires Valid() && Ready()
      modifies this, buffer
      ensures Delivers(json, ParseDocument(old(Rest()), Clean(data)))
    {
      hide Valid, Rest, Ready, Lex;
      LexScan();
      if token != TPunct(LBRACKET) && token != TPunct(LBRACE) {
        return None;
      }
      json := ReadValue();
    }
  }

  /** json_loads. */
  method JsonLoads(text: seq<byte>) returns (json: Option<Json>)
    requires 0 !in text
    ensures json == Loads(text)
  {
    hide Lexer.Valid, Lexer.Rest, Lexer.Ready, Lex;
    var lex := new Lexer(text);
    json := lex.ReadDocument();
    if json == None {
      return None;
    }
    lex.LexScan();
    if lex.token != TEof {
      return None;
    }
  }
}
