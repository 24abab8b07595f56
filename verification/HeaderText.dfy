/**
 * Whole headers (src/mime/encodedword.go:240-345): text and encoded-words of any
 * charset mixed, and what DecodeHeader makes of them.
 */
module HeaderText {
  import opened Wrappers
  import opened Text
  import opened EncodedWord
  import Base64

  // ---------- charsets ----------

  /** bs is the given code points in UTF-8, one after the other. */
  predicate Utf8Text(bs: Bytes, codes: seq<int>)
  {
    if codes == [] then bs == []
    else bs != [] && Utf8(bs[..RuneLen(bs)], codes[0]) && Utf8Text(bs[RuneLen(bs)..], codes[1..])
  }

  lemma Utf8Cons(c: Bytes, x: int, bs: Bytes, codes: seq<int>)
    requires Utf8(c, x) && Utf8Text(bs, codes)
    ensures Utf8Text(c + bs, [x] + codes)
  {
    RuneLenOfUtf8(c, x, bs);
    Cut(c, bs);
    assert ([x] + codes)[1..] == codes;
  }

  /** ISO 8859-1 has the first 256 code points. */
  function Latin1Codes(content: Bytes): seq<int> { seq(|content|, i requires 0 <= i < |content| => content[i]) }

  /** What is not ASCII becomes the replacement character. */
  function AsciiCode(b: Byte): int { if b < 0x80 then b as int else 0xFFFD }

  function AsciiCodes(content: Bytes): seq<int> { seq(|content|, i requires 0 <= i < |content| => AsciiCode(content[i])) }

  lemma Latin1Byte(b: Byte)
    requires b >= 0x80
    ensures Utf8([0xC0 + b / 64, 0x80 + b % 64], b)
  {
    var h, l := b / 64, b % 64;
    assert (0xC0 + h) / 32 == 6 && (0xC0 + h) % 32 == h && (0x80 + l) / 64 == 2 && (0x80 + l) % 64 == l;
  }

  lemma {:induction false} Latin1Means(content: Bytes)
    ensures Utf8Text(Latin1(content), Latin1Codes(content))
  {
    if content != [] {
      Latin1Means(content[1..]);
      assert Latin1Codes(content) == [content[0] as int] + Latin1Codes(content[1..]);
      if content[0] < 0x80 {
        Utf8Cons([content[0]], content[0], Latin1(content[1..]), Latin1Codes(content[1..]));
      } else {
        Latin1Byte(content[0]);
        Utf8Cons([0xC0 + content[0] / 64, 0x80 + content[0] % 64], content[0], Latin1(content[1..]), Latin1Codes(content[1..]));
      }
    }
  }

  lemma {:induction false} AsciiMeans(content: Bytes)
    ensures Utf8Text(Ascii(content), AsciiCodes(content))
  {
    if content != [] {
      var x := AsciiCode(content[0]);
      AsciiMeans(content[1..]);
      assert AsciiCodes(content) == [x] + AsciiCodes(content[1..]);
      Utf8Cons(if content[0] < 0x80 then [content[0]] else [0xEF, 0xBF, 0xBD], x, Ascii(content[1..]), AsciiCodes(content[1..]));
    }
  }

  /** result is what the content of a word in that charset says, in UTF-8; other charsets than these three are up to the reader. */
  predicate Says(reader: Reader, charset: Bytes, content: Bytes, result: Bytes)
  {
    if EqualFold(UTF_8, charset) then result == content
    else if EqualFold(ISO_8859_1, charset) then Utf8Text(result, Latin1Codes(content))
    else if EqualFold(US_ASCII, charset) then Utf8Text(result, AsciiCodes(content))
    else reader(LowerAll(charset), content) == Some(result)
  }

  /** The reader is asked, and fails. */
  predicate Fails(reader: Reader, charset: Bytes, content: Bytes)
  {
    !EqualFold(UTF_8, charset) && !EqualFold(ISO_8859_1, charset) && !EqualFold(US_ASCII, charset) &&
    reader(LowerAll(charset), content).None?
  }

  lemma ConvertSays(reader: Reader, charset: Bytes, content: Bytes)
    ensures var c := Convert(reader, charset, content);
            if c.Some? then Says(reader, charset, content, c.value) else Fails(reader, charset, content)
    ensures Fails(reader, charset, content) ==> Convert(reader, charset, content).None?
  {
    Latin1Means(content);
    AsciiMeans(content);
  }

  // ---------- encoded text, however it is written ----------

  /** A way to write one byte in the Q encoding (RFC 2047 section 4.2); white space and capitals are not insisted on. */
  predicate QPiece(p: Bytes, b: Byte)
  {
    (p == [b] && (SPACE <= b <= 126 || b == TAB || b == LF || b == CR) && b != EQUALS && b != QUESTION && b != UNDERSCORE) ||
    (p == [UNDERSCORE] && b == SPACE) ||
    (|p| == 3 && p[0] == EQUALS && IsDigit(p[1], b / 16) && IsDigit(p[2], b % 16))
  }

  predicate QPieces(pieces: seq<Bytes>, content: Bytes)
  {
    |pieces| == |content| && forall i :: 0 <= i < |pieces| ==> QPiece(pieces[i], content[i])
  }

  lemma QPieceDecodes(p: Bytes, b: Byte, rest: Bytes)
    requires QPiece(p, b)
    ensures QDecoded(p + rest) == Prepend([b], QDecoded(rest)) && QUESTION !in p
  {
    Cut(p, rest);
    if |p| == 3 {
      assert (p + rest)[1] == p[1] && (p + rest)[2] == p[2];
      HexPairIs(p[1], p[2], b);
    }
  }

  lemma {:induction false} QPiecesDecode(pieces: seq<Bytes>, content: Bytes)
    requires QPieces(pieces, content)
    ensures QDecoded(Concat(pieces)) == Some(content) && QUESTION !in Concat(pieces)
  {
    if content != [] {
      QPiecesDecode(pieces[1..], content[1..]);
      QPieceDecodes(pieces[0], content[0], Concat(pieces[1..]));
      assert content == [content[0]] + content[1..];
    }
  }

  /** text says content in the encoding of the letter, q or b in either case; base64 may be broken into lines. */
  ghost predicate Carries(letter: Byte, text: Bytes, content: Bytes)
  {
    if letter == 81 || letter == 113 then exists pieces :: QPieces(pieces, content) && text == Concat(pieces)
    else (letter == 66 || letter == 98) && Base64.StripNewlines(text) == Base64.Encode(content)
  }

  lemma {:induction false} NoQuestionInLines(text: Bytes)
    requires QUESTION !in Base64.StripNewlines(text)
    ensures QUESTION !in text
  {
    if text != [] { NoQuestionInLines(text[1..]); }
  }

  lemma CarriedDecodes(letter: Byte, text: Bytes, content: Bytes)
    requires Carries(letter, text, content)
    ensures DecodeText(letter, text) == Some(content) && QUESTION !in text
  {
    if letter == 81 || letter == 113 {
      var pieces :| QPieces(pieces, content) && text == Concat(pieces);
      QPiecesDecode(pieces, content);
    } else {
      Base64.EncodeIsText(content);
      NoQuestionInLines(text);
      Base64.QuantaRoundTrip(content);
    }
  }

  // ---------- headers ----------

  /** A word, what it says in its charset, and the text in front of it. */
  datatype Item = Item(lead: Bytes, charset: Bytes, letter: Byte, text: Bytes, content: Bytes)

  /** "=?charset?letter?text?=" */
  function WordText(item: Item): Bytes
  {
    [EQUALS, QUESTION] + (item.charset + ([QUESTION] + ([item.letter, QUESTION] + (item.text + CLOSE))))
  }

  /** Text that does not look like the beginning of a word. */
  predicate Unmarked(t: Bytes) { forall i :: 0 <= i < |t| - 1 ==> !(t[i] == EQUALS && t[i + 1] == QUESTION) }

  ghost predicate ProperItem(item: Item)
  {
    Unmarked(item.lead) && QUESTION !in item.charset && Carries(item.letter, item.text, item.content)
  }

  ghost predicate Proper(items: seq<Item>) { forall i :: 0 <= i < |items| ==> ProperItem(items[i]) }

  /** The header: the words with the text in front of each, and the text at the end. */
  function Header(items: seq<Item>, tail: Bytes): Bytes
  {
    if items == [] then tail
    else items[0].lead + (WordText(items[0]) + Header(items[1..], tail))
  }

  predicate White(t: Bytes) { forall i :: 0 <= i < |t| ==> t[i] == SPACE || t[i] == TAB || t[i] == LF || t[i] == CR }

  /** What it says: white space alone between two words does not count, all other text does. */
  function Meaning(items: seq<Item>, results: seq<Bytes>, tail: Bytes, afterWord: bool): Bytes
    requires |results| == |items|
  {
    if items == [] then tail
    else (if afterWord && White(items[0].lead) then [] else items[0].lead) + results[0] + Meaning(items[1..], results[1..], tail, true)
  }

  lemma BetweenIs(lead: Bytes, afterWord: bool)
    ensures Between(lead, afterWord) == if afterWord && White(lead) then [] else lead
  {
  }

  lemma {:induction false} MarkAfter(lead: Bytes, w: Bytes)
    requires Unmarked(lead)
    ensures Index(lead + ([EQUALS, QUESTION] + w), [EQUALS, QUESTION]) == |lead|
  {
    var s := lead + ([EQUALS, QUESTION] + w);
    if lead == [] {
      assert s == [EQUALS, QUESTION] + w;
    } else {
      assert s[1..] == lead[1..] + ([EQUALS, QUESTION] + w);
      assert s[0] == lead[0] && s[1] == if |lead| > 1 then lead[1] else EQUALS;
      forall i | 0 <= i < |lead[1..]| - 1 ensures !(lead[1..][i] == EQUALS && lead[1..][i + 1] == QUESTION) {
        assert !(lead[i + 1] == EQUALS && lead[i + 2] == QUESTION);
      }
      MarkAfter(lead[1..], w);
    }
  }

  lemma NoMark(t: Bytes)
    requires Unmarked(t)
    ensures Index(t, [EQUALS, QUESTION]) == -1
  {
    if Index(t, [EQUALS, QUESTION]) >= 0 { MarkFound(t); }
  }

  lemma MarkFound(t: Bytes)
    requires Index(t, [EQUALS, QUESTION]) >= 0
    ensures !Unmarked(t)
  {
    var i := Index(t, [EQUALS, QUESTION]);
    var m := t[i..i + 2];
    assert m[0] == t[i] && m[1] == t[i + 1];
  }

  /** What follows the "=?" of a word, and goes on after it. */
  function Inside(item: Item, rest: Bytes): Bytes
  {
    item.charset + ([QUESTION] + ([item.letter, QUESTION] + (item.text + (CLOSE + rest))))
  }

  lemma WordTextShape(item: Item, rest: Bytes)
    ensures WordText(item) + rest == [EQUALS, QUESTION] + Inside(item, rest)
    ensures |WordText(item)| == 2 + |item.charset| + |item.text| + 5
  {
    var mark: Bytes, q: Bytes, l: Bytes := [EQUALS, QUESTION], [QUESTION], [item.letter, QUESTION];
    Assoc(mark, item.charset + (q + (l + (item.text + CLOSE))), rest);
    Assoc(item.charset, q + (l + (item.text + CLOSE)), rest);
    Assoc(q, l + (item.text + CLOSE), rest);
    Assoc(l, item.text + CLOSE, rest);
    Assoc(item.text, CLOSE, rest);
  }

  /** The word is found behind its lead, whatever follows it. */
  lemma ItemFound(item: Item, rest: Bytes)
    requires ProperItem(item)
    ensures NextWord(item.lead + (WordText(item) + rest)) ==
            Found(|item.lead|, item.charset, item.content, |item.lead| + |WordText(item)|)
  {
    var f := Fields(item.charset, item.letter, item.text, |item.charset| + |item.text| + 5);
    CarriedDecodes(item.letter, item.text, item.content);
    WordTextShape(item, rest);
    FieldsFound(item.charset, item.letter, item.text, rest);
    MarkedFound(item.lead, Inside(item, rest), f, item.content);
  }

  lemma MarkedFound(lead: Bytes, w: Bytes, f: Fields, content: Bytes)
    requires Unmarked(lead) && f.Fields? && Parse(w) == f && DecodeText(f.encoding, f.text) == Some(content)
    ensures NextWord(lead + ([EQUALS, QUESTION] + w)) == Found(|lead|, f.charset, content, |lead| + 2 + f.size)
  {
    MarkAfter(lead, w);
    Behind(lead, w);
  }

  lemma Behind(lead: Bytes, w: Bytes)
    ensures (lead + ([EQUALS, QUESTION] + w))[|lead| + 2..] == w
  {
    Assoc(lead, [EQUALS, QUESTION], w);
    Cut(lead + [EQUALS, QUESTION], w);
  }

  /** The loop gets past one item. */
  lemma ItemPassed(reader: Reader, item: Item, rest: Bytes, afterWord: bool)
    requires ProperItem(item)
    ensures var h := item.lead + (WordText(item) + rest);
            var c := Convert(reader, item.charset, item.content);
            DecodedRest(reader, h, afterWord) ==
            if c.None? then None
            else Prepend((if afterWord && White(item.lead) then [] else item.lead) + c.value, DecodedRest(reader, rest, true))
  {
    var w := WordText(item);
    ItemFound(item, rest);
    WordCut(item.lead, w, rest);
    WordTaken(reader, item.lead + (w + rest), item, |item.lead| + |w|, rest, afterWord);
  }

  lemma WordTaken(reader: Reader, h: Bytes, item: Item, end: nat, rest: Bytes, afterWord: bool)
    requires NextWord(h) == Found(|item.lead|, item.charset, item.content, end)
    requires |item.lead| <= |h| && h[..|item.lead|] == item.lead && h[end..] == rest
    ensures var c := Convert(reader, item.charset, item.content);
            DecodedRest(reader, h, afterWord) ==
            if c.None? then None
            else Prepend((if afterWord && White(item.lead) then [] else item.lead) + c.value, DecodedRest(reader, rest, true))
  {
    BetweenIs(item.lead, afterWord);
  }

  /** Some word has a charset that the reader fails on. */
  predicate AnyFails(reader: Reader, items: seq<Item>)
  {
    exists i :: 0 <= i < |items| && Fails(reader, items[i].charset, items[i].content)
  }

  predicate AllSay(reader: Reader, items: seq<Item>, results: seq<Bytes>)
  {
    |results| == |items| && forall i :: 0 <= i < |items| ==> Says(reader, items[i].charset, items[i].content, results[i])
  }

  lemma {:induction false} ItemsDecode(reader: Reader, items: seq<Item>, tail: Bytes, afterWord: bool) returns (results: seq<Bytes>)
    requires Proper(items) && Unmarked(tail)
    ensures AnyFails(reader, items) ==> DecodedRest(reader, Header(items, tail), afterWord).None?
    ensures !AnyFails(reader, items) ==>
              AllSay(reader, items, results) && DecodedRest(reader, Header(items, tail), afterWord) == Some(Meaning(items, results, tail, afterWord))
  {
    if items == [] {
      results := [];
      NoMark(tail);
    } else {
      var item, more := items[0], items[1..];
      results := ItemsDecode(reader, more, tail, true);
      ItemPassed(reader, item, Header(more, tail), afterWord);
      ConvertSays(reader, item.charset, item.content);
      assert items == [item] + more;
      FailsOrMore(reader, item, more, items);
      var c := Convert(reader, item.charset, item.content);
      if c.Some? && !AnyFails(reader, more) {
        OneMoreSays(reader, item, more, items, c.value, results, tail, afterWord);
        results := [c.value] + results;
      }
    }
  }

  lemma OneMoreSays(
    reader: Reader, item: Item, more: seq<Item>, items: seq<Item>, c: Bytes, results: seq<Bytes>, tail: Bytes, afterWord: bool)
    requires items == [item] + more && AllSay(reader, more, results) && Says(reader, item.charset, item.content, c)
    ensures AllSay(reader, items, [c] + results)
    ensures Meaning(items, [c] + results, tail, afterWord) ==
            (if afterWord && White(item.lead) then [] else item.lead) + c + Meaning(more, results, tail, true)
  {
    assert items[1..] == more && ([c] + results)[1..] == results;
  }

  lemma FailsOrMore(reader: Reader, item: Item, more: seq<Item>, items: seq<Item>)
    requires items == [item] + more
    ensures AnyFails(reader, items) <==> Fails(reader, item.charset, item.content) || AnyFails(reader, more)
  {
    if i :| 0 <= i < |more| && Fails(reader, more[i].charset, more[i].content) { assert items[i + 1] == more[i]; }
    if i :| 0 <= i < |items| && Fails(reader, items[i].charset, items[i].content) {
      if i == 0 { assert items[0] == item; } else { assert more[i - 1] == items[i]; }
    }
    assert items[0] == item;
  }

  /**
   * DecodeHeader of any header: each word says what it says in its charset, the
   * text around the words stays, and only white space alone between two words is
   * dropped. It fails exactly if the reader does.
   */
  lemma HeaderDecodes(reader: Reader, items: seq<Item>, tail: Bytes) returns (results: seq<Bytes>)
    requires Proper(items) && Unmarked(tail)
    ensures AnyFails(reader, items) ==> Decoded(reader, Header(items, tail)).None?
    ensures !AnyFails(reader, items) ==>
              AllSay(reader, items, results) && Decoded(reader, Header(items, tail)) == Some(Meaning(items, results, tail, false))
  {
    results := ItemsDecode(reader, items, tail, false);
    if items == [] {
      NoMark(tail);
    } else {
      FromFirstWord(reader, items, tail);
    }
  }

  /** The search that comes before the loop changes nothing. */
  lemma FromFirstWord(reader: Reader, items: seq<Item>, tail: Bytes)
    requires items != [] && Proper(items)
    ensures Decoded(reader, Header(items, tail)) == DecodedRest(reader, Header(items, tail), false)
  {
    var item, rest := items[0], Header(items[1..], tail);
    var bare, word := item.(lead := []), WordText(item) + rest;
    ItemPassed(reader, item, rest, false);
    ItemPassed(reader, bare, rest, false);
    WordTextShape(item, rest);
    MarkAfter(item.lead, Inside(item, rest));
    Cut(item.lead, word);
    assert [] + word == word;
    var c := Convert(reader, item.charset, item.content);
    if c.Some? {
      PrependTwice(item.lead, c.value, DecodedRest(reader, rest, true));
      assert [] + c.value == c.value;
    }
  }
}
