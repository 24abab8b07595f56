/**
 * The forms that the writers of src/mime choose: which bytes are written as they
 * are, which are escaped, and that what is written is text that the standards allow.
 */
module TextForms {
  import opened Wrappers
  import opened Text
  import opened Grammar
  import EncodedWord
  import HeaderText
  import opened MediaParams
  import opened MediaWritten

  /** A mark and the two digits of the byte, letters among them being capitals. */
  predicate InCapitals(p: Bytes, mark: Byte, b: Byte)
  {
    |p| == 3 && p[0] == mark && p[1] == CAPITALS[b / 16] && p[2] == CAPITALS[b % 16]
  }

  // ---------- the Q encoding ----------

  /** Printable ASCII other than = ? _ stands for itself, the space is an underscore, and the rest is in hexadecimal. */
  predicate QForm(p: Bytes, b: Byte)
  {
    if b == 32 then p == [95] else if 33 <= b <= 126 && b !in {61, 63, 95} then p == [b] else InCapitals(p, 61, b)
  }

  lemma QByteForm(b: Byte)
    ensures QForm(EncodedWord.QByte(b), b) && HeaderText.QPiece(EncodedWord.QByte(b), b)
  {
    HexDigitIs(b / 16);
    HexDigitIs(b % 16);
  }

  lemma HexDigitIs(v: nat)
    requires v < 16
    ensures HexDigit(v) == CAPITALS[v] && IsDigit(HexDigit(v), v)
  {
    FromHexIs(HexDigit(v), v);
  }

  /** The Q encoding is a piece of that form for each byte, and so a way to write the content. */
  lemma {:induction false} QTextForm(s: Bytes) returns (pieces: seq<Bytes>)
    ensures EncodedWord.QText(s) == Concat(pieces) && HeaderText.QPieces(pieces, s)
    ensures forall i :: 0 <= i < |s| ==> QForm(pieces[i], s[i])
  {
    pieces := [];
    if s != [] {
      var more := QTextForm(s[1..]);
      QByteForm(s[0]);
      pieces := [EncodedWord.QByte(s[0])] + more;
      assert pieces[1..] == more;
    }
  }

  // ---------- percent-encoding ----------

  /** Printable ASCII but * ' % and the special characters of RFC 2045. */
  predicate AttributeChar(b: Byte) { IsTokenChar(b) && b !in {42, 39, 37} }

  predicate PercentForm(p: Bytes, b: Byte) { if AttributeChar(b) then p == [b] else InCapitals(p, 37, b) }

  lemma PercentByteForm(b: Byte)
    ensures PercentForm(PercentByte(b), b) && PercentPiece(PercentByte(b), b)
  {
    HexDigitIs(b / 16);
    HexDigitIs(b % 16);
  }

  lemma {:induction false} PercentTextForm(s: Bytes) returns (pieces: seq<Bytes>)
    ensures PercentEncoded(s) == Concat(pieces) && PercentPieces(pieces, s)
    ensures forall i :: 0 <= i < |s| ==> PercentForm(pieces[i], s[i])
  {
    pieces := [];
    if s != [] {
      var more := PercentTextForm(s[1..]);
      PercentByteForm(s[0]);
      pieces := [PercentByte(s[0])] + more;
      assert pieces[1..] == more;
    }
  }

  // ---------- quoted strings ----------

  /** Only quotes and backslashes have a backslash. */
  predicate QuotedForm(p: Bytes, b: Byte) { if b == 34 || b == 92 then p == [92, b] else p == [b] }

  lemma {:induction false} EscapedForm(s: Bytes) returns (pieces: seq<Bytes>)
    requires EncodedWord.Sendable(s)
    ensures Escaped(s) == Concat(pieces) && QuotedPieces(pieces, s)
    ensures forall i :: 0 <= i < |s| ==> QuotedForm(pieces[i], s[i])
  {
    pieces := [];
    if s != [] {
      var more := EscapedForm(s[1..]);
      pieces := [EscapedByte(s[0])] + more;
      assert pieces[1..] == more;
    }
  }

  // ---------- parameters ----------

  /** "; attribute=text" */
  function Simple(attr: Bytes, text: Bytes): Written { Written([], [SPACE], attr, [], [], text) }

  /** utf-8'' and the percent-encoded value. */
  ghost predicate PercentText(text: Bytes, value: Bytes)
  {
    exists pieces :: PercentPieces(pieces, value) && text == [117, 116, 102, 45, 56, 39, 39] + Concat(pieces) &&
      forall i :: 0 <= i < |value| ==> PercentForm(pieces[i], value[i])
  }

  ghost predicate QuotedText(text: Bytes, value: Bytes)
  {
    exists pieces :: QuotedPieces(pieces, value) && text == [QUOTE] + (Concat(pieces) + [QUOTE]) &&
      forall i :: 0 <= i < |value| ==> QuotedForm(pieces[i], value[i])
  }

  /**
   * A parameter is written with its name in lower case. A value of printable ASCII and
   * tabs is written as it is if it is a token, and quoted otherwise; any other value
   * is percent-encoded under the name with a star.
   */
  lemma ParamForm(k: Bytes, value: Bytes, tail: Bytes) returns (attr: Bytes, text: Bytes)
    ensures Param(k, value) + tail == WrittenThen(Simple(attr, text), tail)
    ensures EncodedWord.Sendable(value) ==> attr == LowerAll(k) && SaysValue(text, value)
    ensures EncodedWord.Sendable(value) ==> if IsToken(value) then text == value else QuotedText(text, value)
    ensures !EncodedWord.Sendable(value) ==> attr == LowerAll(k) + [STAR] && PercentText(text, value) && SaysCoded(text, true, true, value)
  {
    attr, text := Attribute(k, value), ValueText(value);
    Assoc([SEMICOLON, SPACE], attr + ([EQUALS] + text), tail);
    Assoc(attr, [EQUALS] + text, tail);
    Assoc([EQUALS], text, tail);
    SimpleThen(attr, text, tail);
    if EncodedWord.Sendable(value) {
      assert attr == LowerAll(k);
      if !IsToken(value) { var pieces := EscapedForm(value); }
    } else {
      var pieces := PercentTextForm(value);
      assert CHARSET == [117, 116, 102, 45, 56, 39, 39];
      assert PercentText(text, value);
      CodedForm(text, pieces, value);
    }
  }

  lemma SimpleThen(attr: Bytes, text: Bytes, tail: Bytes)
    ensures WrittenThen(Simple(attr, text), tail) == [SEMICOLON, SPACE] + (attr + ([EQUALS] + (text + tail)))
  {
    assert [] + (text + tail) == text + tail;
    var named := attr + ([EQUALS] + (text + tail));
    assert [] + ([EQUALS] + (text + tail)) == [EQUALS] + (text + tail);
    assert [SEMICOLON] + ([SPACE] + named) == [SEMICOLON, SPACE] + named;
  }

  lemma CodedForm(text: Bytes, pieces: seq<Bytes>, value: Bytes)
    requires PercentPieces(pieces, value) && text == CHARSET + Concat(pieces)
    ensures SaysCoded(text, true, true, value)
  {
    var charset, lang: Bytes := UTF_8, [];
    assert Prefix(charset, lang) == CHARSET;
    assert LowerAll(charset) == UTF_8;
    assert AllTokenChars(charset) && AllTokenChars(lang) && APOSTROPHE !in charset && KnownCharset(charset);
  }
}
