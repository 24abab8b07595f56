/**
 * Parameters of a media type as anybody may write them (RFC 2045 section 5.1,
 * RFC 2231 section 4): white space around the marks, names in either case, values
 * quoted with more or fewer backslashes, percent-encoded in either case of digits.
 * What the parser of src/mime/mediatype.go consumes of them.
 */
module MediaWritten {
  import opened Wrappers
  import opened Text
  import opened Grammar
  import opened MediaParams
  import opened MediaType

  // ---------- white space and tokens ----------

  predicate Blank(s: Bytes) { forall i :: 0 <= i < |s| ==> 9 <= s[i] <= 13 || s[i] == SPACE }

  lemma {:induction false} BlankTrimmed(sp: Bytes, s: Bytes)
    requires Blank(sp) && SpaceLen(s) == 0
    ensures TrimLeft(sp + s) == s
  {
    if sp == [] {
      assert sp + s == s;
    } else {
      assert (sp + s)[0] == sp[0] && (sp + s)[1..] == sp[1..] + s;
      BlankTrimmed(sp[1..], s);
    }
  }

  /** The characters that RFC 2045 allows in a token: letters, digits, and these. */
  lemma TokenChars(b: Byte)
    ensures IsTokenChar(b) <==>
            48 <= b <= 57 || 65 <= b <= 90 || 97 <= b <= 122 ||
            b in {33, 35, 36, 37, 38, 39, 42, 43, 45, 46, 94, 95, 96, 123, 124, 125, 126}
  {
  }

  /** A type, or a type and a subtype. */
  ghost predicate IsMediaType(t: Bytes)
  {
    IsToken(t) || exists major, sub :: IsToken(major) && IsToken(sub) && t == major + ([SLASH] + sub)
  }

  /** The parser accepts exactly these. */
  lemma DispositionMeans(t: Bytes)
    ensures DispositionOk(t) <==> IsMediaType(t)
  {
    if IsToken(t) { OneTokenOk(t); }
    if major, sub :| IsToken(major) && IsToken(sub) && t == major + ([SLASH] + sub) { TwoTokensOk(major, sub); }
    if DispositionOk(t) {
      var major, rest := ConsumeToken(t).0, ConsumeToken(t).1;
      assert t == major + rest;
      if rest == [] {
        assert major + [] == major;
      } else {
        var sub := ConsumeToken(rest[1..]).0;
        assert rest == [SLASH] + rest[1..] && sub + [] == sub && rest[1..] == sub + ConsumeToken(rest[1..]).1;
        assert IsToken(major) && IsToken(sub) && t == major + ([SLASH] + sub);
      }
    }
  }

  // ---------- values ----------

  /** A way to write one byte of a quoted value. */
  predicate QuotedPiece(p: Bytes, b: Byte)
  {
    b != CR && b != LF && ((p == [b] && b != QUOTE && b != BACKSLASH) || (p == [BACKSLASH, b] && IsTSpecial(b)))
  }

  predicate QuotedPieces(pieces: seq<Bytes>, value: Bytes)
  {
    |pieces| == |value| && forall i :: 0 <= i < |pieces| ==> QuotedPiece(pieces[i], value[i])
  }

  lemma QuotedPieceRead(p: Bytes, b: Byte, rest: Bytes)
    requires QuotedPiece(p, b)
    ensures Quoted(p + rest) == QuotedMore(b, Quoted(rest))
  {
    Cut(p, rest);
    if |p| == 2 { assert (p + rest)[1] == b; }
  }

  lemma {:induction false} QuotedPiecesRead(pieces: seq<Bytes>, value: Bytes, tail: Bytes)
    requires QuotedPieces(pieces, value)
    ensures Quoted(Concat(pieces) + ([QUOTE] + tail)) == Some((value, tail))
  {
    if value == [] {
      assert [] + ([QUOTE] + tail) == [QUOTE] + tail;
      Cut([QUOTE], tail);
    } else {
      QuotedPiecesRead(pieces[1..], value[1..], tail);
      Assoc(pieces[0], Concat(pieces[1..]), [QUOTE] + tail);
      QuotedPieceRead(pieces[0], value[0], Concat(pieces[1..]) + ([QUOTE] + tail));
      assert value == [value[0]] + value[1..];
    }
  }

  /** text is the value as a token or between quotes. */
  ghost predicate SaysValue(text: Bytes, value: Bytes)
  {
    (IsToken(value) && text == value) ||
    exists pieces :: QuotedPieces(pieces, value) && text == [QUOTE] + (Concat(pieces) + [QUOTE])
  }

  lemma ValueRead(text: Bytes, value: Bytes, tail: Bytes)
    requires SaysValue(text, value) && EndsToken(tail)
    ensures ConsumedValue(text + tail) == (value, tail) && text != [] && 0x20 < text[0] < 0x7f
  {
    if IsToken(value) && text == value {
      TokenConsumed(value, tail);
    } else {
      var pieces :| QuotedPieces(pieces, value) && text == [QUOTE] + (Concat(pieces) + [QUOTE]);
      QuotedPiecesRead(pieces, value, tail);
      Assoc([QUOTE], Concat(pieces) + [QUOTE], tail);
      Assoc(Concat(pieces), [QUOTE], tail);
      Cut([QUOTE], Concat(pieces) + ([QUOTE] + tail));
    }
  }

  /** A way to write one byte of a percent-encoded value. */
  predicate PercentPiece(p: Bytes, b: Byte)
  {
    (p == [b] && IsTokenChar(b) && b != PERCENT) ||
    (|p| == 3 && p[0] == PERCENT && IsDigit(p[1], b / 16) && IsDigit(p[2], b % 16))
  }

  predicate PercentPieces(pieces: seq<Bytes>, value: Bytes)
  {
    |pieces| == |value| && forall i :: 0 <= i < |pieces| ==> PercentPiece(pieces[i], value[i])
  }

  lemma PercentPieceRead(p: Bytes, b: Byte, rest: Bytes)
    requires PercentPiece(p, b)
    ensures PercentDecoded(p + rest) == Prepend([b], PercentDecoded(rest)) && AllTokenChars(p)
  {
    Cut(p, rest);
    if |p| == 3 {
      assert (p + rest)[1] == p[1] && (p + rest)[2] == p[2];
      HexPairIs(p[1], p[2], b);
    }
  }

  lemma {:induction false} PercentPiecesRead(pieces: seq<Bytes>, value: Bytes)
    requires PercentPieces(pieces, value)
    ensures PercentDecoded(Concat(pieces)) == Some(value) && AllTokenChars(Concat(pieces))
  {
    if value != [] {
      PercentPiecesRead(pieces[1..], value[1..]);
      PercentPieceRead(pieces[0], value[0], Concat(pieces[1..]));
      assert value == [value[0]] + value[1..];
    }
  }

  /** "charset'language'" */
  function Prefix(charset: Bytes, lang: Bytes): Bytes { charset + ([APOSTROPHE] + (lang + [APOSTROPHE])) }

  predicate KnownCharset(charset: Bytes) { LowerAll(charset) == UTF_8 || LowerAll(charset) == US_ASCII }

  /** text is the value percent-encoded, on the first part with a charset, known or not, and a language. */
  ghost predicate SaysCoded(text: Bytes, first: bool, known: bool, value: Bytes)
  {
    text != [] && exists pieces, charset, lang ::
      PercentPieces(pieces, value) && AllTokenChars(charset) && AllTokenChars(lang) &&
      APOSTROPHE !in charset && APOSTROPHE !in lang && KnownCharset(charset) == known &&
      text == (if first then Prefix(charset, lang) else []) + Concat(pieces)
  }

  lemma PrefixDecoded(charset: Bytes, lang: Bytes, e: Bytes)
    requires APOSTROPHE !in charset && APOSTROPHE !in lang
    ensures Decode2231(Prefix(charset, lang) + e) == if KnownCharset(charset) then PercentDecoded(e) else None
  {
    var rest := lang + ([APOSTROPHE] + e);
    Assoc(charset, [APOSTROPHE] + (lang + [APOSTROPHE]), e);
    Assoc([APOSTROPHE], lang + [APOSTROPHE], e);
    Assoc(lang, [APOSTROPHE], e);
    IndexAfter(charset, [APOSTROPHE], rest);
    IndexAfter(lang, [APOSTROPHE], e);
    AfterMark(charset, rest);
    AfterMark(lang, e);
  }

  lemma AfterMark(a: Bytes, b: Bytes)
    ensures (a + ([APOSTROPHE] + b))[..|a|] == a && (a + ([APOSTROPHE] + b))[|a| + 1..] == b
  {
    Assoc(a, [APOSTROPHE], b);
    Cut(a, [APOSTROPHE] + b);
    Cut(a + [APOSTROPHE], b);
  }

  /** The text is consumed whole, as it is, and decodes to the value. */
  lemma CodedRead(text: Bytes, first: bool, known: bool, value: Bytes, tail: Bytes)
    requires SaysCoded(text, first, known, value) && EndsToken(tail)
    ensures ConsumedValue(text + tail) == (text, tail) && 0x20 < text[0] < 0x7f
    ensures first ==> Decode2231(text) == if known then Some(value) else None
    ensures !first ==> PercentDecoded(text) == Some(value)
  {
    var pieces, charset, lang :|
      PercentPieces(pieces, value) && AllTokenChars(charset) && AllTokenChars(lang) &&
      APOSTROPHE !in charset && APOSTROPHE !in lang && KnownCharset(charset) == known &&
      text == (if first then Prefix(charset, lang) else []) + Concat(pieces);
    var e, front := Concat(pieces), if first then Prefix(charset, lang) else [];
    PercentPiecesRead(pieces, value);
    PrefixIsToken(charset, lang);
    TokenCharsJoined(front, e);
    TokenConsumed(text, tail);
    if first { PrefixDecoded(charset, lang, e); } else { assert text == e; }
  }

  lemma PrefixIsToken(charset: Bytes, lang: Bytes)
    requires AllTokenChars(charset) && AllTokenChars(lang)
    ensures AllTokenChars(Prefix(charset, lang))
  {
    TokenCharsJoined(lang, [APOSTROPHE]);
    TokenCharsJoined([APOSTROPHE], lang + [APOSTROPHE]);
    TokenCharsJoined(charset, [APOSTROPHE] + (lang + [APOSTROPHE]));
  }

  lemma TokenCharsJoined(a: Bytes, b: Bytes)
    requires AllTokenChars(a) && AllTokenChars(b)
    ensures AllTokenChars(a + b)
  {
  }

  // ---------- parameters ----------

  /** before ; gap attr left = right text */
  datatype Written = Written(before: Bytes, gap: Bytes, attr: Bytes, left: Bytes, right: Bytes, text: Bytes)

  predicate WellFormed(w: Written)
  {
    Blank(w.before) && Blank(w.gap) && Blank(w.left) && Blank(w.right) && IsToken(w.attr)
  }

  function FromEquals(w: Written, tail: Bytes): Bytes { [EQUALS] + (w.right + (w.text + tail)) }

  function FromMark(w: Written, tail: Bytes): Bytes { [SEMICOLON] + (w.gap + (w.attr + (w.left + FromEquals(w, tail)))) }

  /** The parameter, and what comes after it. */
  function WrittenThen(w: Written, tail: Bytes): Bytes { w.before + FromMark(w, tail) }

  lemma EqualsConsumed(w: Written, raw: Bytes, tail: Bytes)
    requires WellFormed(w) && w.text != [] && 0x20 < w.text[0] < 0x7f && ConsumedValue(w.text + tail) == (raw, tail)
    ensures NamedValue(w.attr, w.left + FromEquals(w, tail)) == Some((LowerAll(w.attr), raw, tail))
  {
    var value := w.text + tail;
    assert value[0] == w.text[0] && |tail| < |value|;
    NoSpace(value);
    BlankTrimmed(w.left, FromEquals(w, tail));
    AfterFirst(EQUALS, w.right + value);
    BlankTrimmed(w.right, value);
  }

  /** Behind the white space in front of it, it is consumed whole. */
  lemma WrittenConsumed(w: Written, raw: Bytes, tail: Bytes)
    requires WellFormed(w) && w.text != [] && 0x20 < w.text[0] < 0x7f && ConsumedValue(w.text + tail) == (raw, tail)
    ensures TrimLeft(WrittenThen(w, tail)) == FromMark(w, tail) != []
    ensures ConsumedParam(FromMark(w, tail)) == Some((LowerAll(w.attr), raw, tail))
  {
    var afterName := w.left + FromEquals(w, tail);
    var name := w.attr + afterName;
    EqualsConsumed(w, raw, tail);
    BlankTrimmed(w.before, FromMark(w, tail));
    AfterFirst(SEMICOLON, w.gap + name);
    assert name[0] == w.attr[0];
    NoSpace(name);
    BlankTrimmed(w.gap, name);
    assert EndsToken(afterName) by { if w.left != [] { assert afterName[0] == w.left[0]; } else { assert afterName[0] == EQUALS; } }
    TokenConsumed(w.attr, afterName);
  }
}
