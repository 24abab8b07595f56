/**
 * RFC 2047 encoded-words (src/mime/encodedword.go): the encoder's two schemes
 * with their word splitting, and DecodeHeader.
 */
module EncodedWord {
  import opened Wrappers
  import opened Text
  import Base64

  const EQUALS: Byte := 61
  const QUESTION: Byte := 63
  const UNDERSCORE: Byte := 95

  datatype Scheme = B | Q

  function SchemeLetter(e: Scheme): Byte { if e.B? then 98 else 113 }

  const ISO_8859_1: Bytes := [105, 115, 111, 45, 56, 56, 53, 57, 45, 49]

  const MAX_CONTENT: nat := 63
  const MAX_BASE64: nat := Base64.DecodedLen(63)

  predicate IsUtf8(charset: Bytes) { EqualFold(UTF_8, charset) }

  /** The bytes of a character outside ASCII are all large, so looking at bytes finds what looking at characters does. */
  predicate NeedsEncoding(s: Bytes)
  {
    exists i :: 0 <= i < |s| && (s[i] < SPACE || s[i] > 126) && s[i] != TAB
  }

  /** Printable ASCII and tabs: what a header may hold as it is. */
  predicate Sendable(s: Bytes) { forall i :: 0 <= i < |s| ==> 32 <= s[i] <= 126 || s[i] == 9 }

  /** Printable ASCII, of which no byte needs encoding. */
  predicate Plain(s: Bytes) { forall i :: 0 <= i < |s| ==> SPACE <= s[i] <= 126 }

  // ---------- the Q encoding ----------

  function QByte(b: Byte): (t: Bytes)
    ensures 1 <= |t| <= 3 && forall i :: 0 <= i < |t| ==> t[i] != QUESTION
  {
    if b == SPACE then [UNDERSCORE]
    else if 33 <= b <= 126 && b != EQUALS && b != QUESTION && b != UNDERSCORE then [b]
    else [EQUALS, HexDigit(b / 16), HexDigit(b % 16)]
  }

  function QText(s: Bytes): Bytes
  {
    if s == [] then [] else QByte(s[0]) + QText(s[1..])
  }

  lemma {:induction false} QTextAppend(a: Bytes, b: Bytes)
    ensures QText(a + b) == QText(a) + QText(b)
  {
    if a == [] {
      assert a + b == b;
      assert QText(a) + QText(b) == QText(b);
    } else {
      QTextAppend(a[1..], b);
      assert (a + b)[1..] == a[1..] + b;
      Assoc(QByte(a[0]), QText(a[1..]), QText(b));
    }
  }

  lemma QTextSnoc(s: Bytes, i: nat)
    requires i < |s|
    ensures QText(s[..i + 1]) == QText(s[..i]) + QByte(s[i])
  {
    assert s[..i + 1] == s[..i] + [s[i]];
    QTextAppend(s[..i], [s[i]]);
    assert QText([s[i]]) == QByte(s[i]) + QText([]);
    assert QByte(s[i]) + [] == QByte(s[i]);
  }

  lemma {:induction false} QTextPlain(s: Bytes)
    ensures QUESTION !in QText(s)
  {
    if s != [] { QTextPlain(s[1..]); }
  }

  /** qDecode's result: None for the error. */
  function QDecoded(t: Bytes): Option<Bytes>
  {
    if t == [] then Some([])
    else if t[0] == UNDERSCORE then Prepend([SPACE], QDecoded(t[1..]))
    else if t[0] == EQUALS then
      if |t| < 3 || FromHexPair(t[1], t[2]).None? then None
      else Prepend([FromHexPair(t[1], t[2]).value], QDecoded(t[3..]))
    else if SPACE <= t[0] <= 126 || t[0] == LF || t[0] == CR || t[0] == TAB then Prepend([t[0]], QDecoded(t[1..]))
    else None
  }

  lemma {:induction false} QRoundTrip(s: Bytes)
    ensures QDecoded(QText(s)) == Some(s)
  {
    if s != [] {
      var t, rest := QText(s), QText(s[1..]);
      QRoundTrip(s[1..]);
      HexPair(s[0]);
      assert t[|QByte(s[0])|..] == rest;
      assert s == [s[0]] + s[1..];
    }
  }

  /** qDecode's loop body on the front of t: size bytes of input give one byte of output. */
  lemma QDecodedStep(t: Bytes, size: nat, b: Byte)
    requires t != []
    requires if t[0] == EQUALS then size == 3 <= |t| && FromHexPair(t[1], t[2]) == Some(b) else
               size == 1 && (if t[0] == UNDERSCORE then b == SPACE
                             else b == t[0] && (SPACE <= t[0] <= 126 || t[0] == LF || t[0] == CR || t[0] == TAB))
    ensures QDecoded(t) == Prepend([b], QDecoded(t[size..]))
  {
  }

  method QDecode(s: Bytes) returns (r: Option<Bytes>)
    ensures r == QDecoded(s)
  {
    var dec := new Byte[|s|];
    var n, i := 0, 0;
    PrependNothing(QDecoded(s));
    while i < |s|
      invariant 0 <= n <= i <= |s|
      invariant QDecoded(s) == Prepend(dec[..n], QDecoded(s[i..]))
    {
      var c := s[i];
      ghost var was, at := dec[..n], i;
      if c == UNDERSCORE {
        dec[n] := SPACE;
      } else if c == EQUALS {
        if i + 2 >= |s| { return None; }
        var b := FromHexPair(s[i + 1], s[i + 2]);
        if b.None? { return None; }
        dec[n] := b.value;
        i := i + 2;
      } else if SPACE <= c <= 126 || c == LF || c == CR || c == TAB {
        dec[n] := c;
      } else {
        return None;
      }
      n := n + 1;
      i := i + 1;
      assert dec[..n] == was + [dec[n - 1]];
      PrependTwice(was, [dec[n - 1]], QDecoded(s[i..]));
      QDecodedStep(s[at..], i - at, dec[n - 1]);
    }
    assert s[i..] == [] && dec[..n] + [] == dec[..n];
    return Some(dec[..n]);
  }

  method WriteQString(buf: Bytes, s: Bytes) returns (out: Bytes)
    ensures out == buf + QText(s)
  {
    out := buf;
    for i := 0 to |s|
      invariant out == buf + QText(s[..i])
    {
      var b := s[i];
      ghost var was := out;
      if b == SPACE {
        out := out + [UNDERSCORE];
      } else if 33 <= b <= 126 && b != EQUALS && b != QUESTION && b != UNDERSCORE {
        out := out + [b];
      } else {
        out := out + [EQUALS] + [HexDigit(b / 16)] + [HexDigit(b % 16)];
      }
      assert out == was + QByte(b);
      QTextSnoc(s, i);
      Assoc(buf, QText(s[..i]), QByte(b));
    }
    assert s[..|s|] == s;
  }

  // ---------- words ----------

  function Open(e: Scheme, charset: Bytes): Bytes
  {
    [EQUALS, QUESTION] + (charset + [QUESTION, SchemeLetter(e), QUESTION])
  }

  const CLOSE: Bytes := [QUESTION, EQUALS]

  function EncodedText(e: Scheme, content: Bytes): Bytes
  {
    if e.B? then Base64.Encode(content) else QText(content)
  }

  /** One encoded-word. */
  function Word(e: Scheme, charset: Bytes, content: Bytes): Bytes
  {
    Open(e, charset) + (EncodedText(e, content) + CLOSE)
  }

  /** Encoded-words, each followed by a space. */
  function Words(e: Scheme, charset: Bytes, contents: seq<Bytes>): Bytes
  {
    if contents == [] then []
    else Word(e, charset, contents[0]) + ([SPACE] + Words(e, charset, contents[1..]))
  }

  lemma {:induction false} WordsAppend(e: Scheme, charset: Bytes, contents: seq<Bytes>, last: Bytes)
    ensures Words(e, charset, contents + [last]) == Words(e, charset, contents) + (Word(e, charset, last) + [SPACE])
  {
    var w := Word(e, charset, last) + [SPACE];
    if contents == [] {
      assert contents + [last] == [last];
      assert Words(e, charset, [last][1..]) == [];
    } else {
      var first, rest := Word(e, charset, contents[0]), Words(e, charset, contents[1..]);
      WordsAppend(e, charset, contents[1..], last);
      assert (contents + [last])[1..] == contents[1..] + [last];
      Assoc([SPACE], rest, w);
      Assoc(first, [SPACE] + rest, w);
    }
  }

  // ---------- decoding ----------

  /** A CharsetReader: converts content from a charset, or fails; a nil one always fails. */
  type Reader = (Bytes, Bytes) -> Option<Bytes>

  function Latin1(content: Bytes): Bytes
  {
    if content == [] then []
    else (if content[0] < 0x80 then [content[0]] else [0xC0 + content[0] / 64, 0x80 + content[0] % 64]) + Latin1(content[1..])
  }

  function Ascii(content: Bytes): Bytes
  {
    if content == [] then []
    else (if content[0] < 0x80 then [content[0]] else [0xEF, 0xBF, 0xBD]) + Ascii(content[1..])
  }

  function Convert(reader: Reader, charset: Bytes, content: Bytes): Option<Bytes>
  {
    if EqualFold(UTF_8, charset) then Some(content)
    else if EqualFold(ISO_8859_1, charset) then Some(Latin1(content))
    else if EqualFold(US_ASCII, charset) then Some(Ascii(content))
    else reader(LowerAll(charset), content)
  }

  function DecodeText(encoding: Byte, text: Bytes): Option<Bytes>
  {
    if encoding == 66 || encoding == 98 then Base64.Decode(text)
    else if encoding == 81 || encoding == 113 then QDecoded(text)
    else None
  }

  /** The parts of a word after its "=?", and how long they are together with its "?=". */
  datatype Fields = NoFields | Fields(charset: Bytes, encoding: Byte, text: Bytes, size: nat)

  function Parse(w: Bytes): (r: Fields)
    ensures r.Fields? ==> r.size <= |w|
  {
    var i := Index(w, [QUESTION]);
    if i == -1 then NoFields
    else
      var rest := w[i + 1..];
      if |rest| < 4 then NoFields
      else if rest[1] != QUESTION then NoFields
      else
        var j := Index(rest[2..], CLOSE);
        if j == -1 then NoFields else Fields(w[..i], rest[0], rest[2..][..j], i + 1 + 2 + j + 2)
  }

  /** What one pass of DecodeHeader's loop finds in the rest of the header. */
  datatype Scan =
    | NoWord
    | BadWord(start: nat)
    | Found(start: nat, charset: Bytes, content: Bytes, end: nat)

  function NextWord(h: Bytes): (r: Scan)
    ensures r.BadWord? ==> r.start + 2 <= |h|
    ensures r.Found? ==> r.start < r.end <= |h|
  {
    var start := Index(h, [EQUALS, QUESTION]);
    if start == -1 then NoWord
    else
      var f := Parse(h[start + 2..]);
      if f.NoFields? then NoWord
      else
        var content := DecodeText(f.encoding, f.text);
        if content.None? then BadWord(start) else Found(start, f.charset, content.value, start + 2 + f.size)
  }

  predicate HasNonWhitespace(s: Bytes)
  {
    exists i :: 0 <= i < |s| && s[i] != SPACE && s[i] != TAB && s[i] != LF && s[i] != CR
  }

  /** The text between words, dropped when it is white space between two encoded-words. */
  function Between(lead: Bytes, betweenWords: bool): Bytes
  {
    if lead != [] && (!betweenWords || HasNonWhitespace(lead)) then lead else []
  }

  /** What the rest h of a header decodes to; None for an error of the charset reader. */
  function DecodedRest(reader: Reader, h: Bytes, betweenWords: bool): Option<Bytes>
    decreases |h|
  {
    match NextWord(h)
    case NoWord => Some(h)
    case BadWord(start) => Prepend(h[..start + 2], DecodedRest(reader, h[start + 2..], false))
    case Found(start, charset, content, end) =>
      var converted := Convert(reader, charset, content);
      if converted.None? then None
      else Prepend(Between(h[..start], betweenWords) + converted.value, DecodedRest(reader, h[end..], true))
  }

  function Decoded(reader: Reader, header: Bytes): Option<Bytes>
  {
    var i := Index(header, [EQUALS, QUESTION]);
    if i == -1 then Some(header) else Prepend(header[..i], DecodedRest(reader, header[i..], false))
  }

  lemma FoundStep(reader: Reader, buf: Bytes, h: Bytes, betweenWords: bool)
    requires NextWord(h).Found? && Convert(reader, NextWord(h).charset, NextWord(h).content).Some?
    ensures var w := NextWord(h);
            Prepend(buf, DecodedRest(reader, h, betweenWords)) ==
            Prepend(buf + Between(h[..w.start], betweenWords) + Convert(reader, w.charset, w.content).value,
                    DecodedRest(reader, h[w.end..], true))
  {
    var w := NextWord(h);
    var lead, converted := Between(h[..w.start], betweenWords), Convert(reader, w.charset, w.content).value;
    Assoc(buf, lead, converted);
    PrependTwice(buf, lead + converted, DecodedRest(reader, h[w.end..], true));
  }

  lemma BadStep(reader: Reader, buf: Bytes, h: Bytes, betweenWords: bool)
    requires NextWord(h).BadWord?
    ensures var cut := NextWord(h).start + 2;
            Prepend(buf, DecodedRest(reader, h, betweenWords)) == Prepend(buf + h[..cut], DecodedRest(reader, h[cut..], false))
  {
    var cut := NextWord(h).start + 2;
    PrependTwice(buf, h[..cut], DecodedRest(reader, h[cut..], false));
  }

  method DecodeHeader(reader: Reader, header: Bytes) returns (r: Option<Bytes>)
    ensures r == Decoded(reader, header)
  {
    var i := Index(header, [EQUALS, QUESTION]);
    if i == -1 { return Some(header); }
    var buf := header[..i];
    var rest := header[i..];
    var betweenWords := false;
    while true
      invariant Decoded(reader, header) == Prepend(buf, DecodedRest(reader, rest, betweenWords))
      decreases |rest|
    {
      match NextWord(rest)
      case NoWord =>
        break;
      case BadWord(start) =>
        BadStep(reader, buf, rest, betweenWords);
        betweenWords := false;
        buf := buf + rest[..start + 2];
        rest := rest[start + 2..];
      case Found(start, charset, content, end) =>
        ghost var was := buf;
        if start > 0 && (!betweenWords || HasNonWhitespace(rest[..start])) { buf := buf + rest[..start]; }
        assert buf == was + Between(rest[..start], betweenWords);
        var converted := Convert(reader, charset, content);
        if converted.None? { return None; }
        FoundStep(reader, was, rest, betweenWords);
        buf := buf + converted.value;
        rest := rest[end..];
        betweenWords := true;
    }
    return Some(buf + rest);
  }

  // ---------- decoding what was encoded ----------

  lemma EncodedTextDecodes(e: Scheme, content: Bytes)
    ensures DecodeText(SchemeLetter(e), EncodedText(e, content)) == Some(content)
    ensures QUESTION !in EncodedText(e, content)
  {
    if e.B? {
      Base64.RoundTrip(content);
      Base64.EncodeIsText(content);
    } else {
      QRoundTrip(content);
      QTextPlain(content);
    }
  }

  /** A word's parts are found, whatever follows it. */
  lemma FieldsFound(charset: Bytes, encoding: Byte, text: Bytes, tail: Bytes)
    requires QUESTION !in charset && QUESTION !in text
    ensures Parse(charset + ([QUESTION] + ([encoding, QUESTION] + (text + (CLOSE + tail))))) ==
            Fields(charset, encoding, text, |charset| + |text| + 5)
  {
    var body := text + (CLOSE + tail);
    var rest := [encoding, QUESTION] + body;
    var w := charset + ([QUESTION] + rest);
    IndexAfter(charset, [QUESTION], rest);
    Cut(charset, [QUESTION] + rest);
    assert w[|charset| + 1..] == rest;
    Cut([encoding, QUESTION], body);
    IndexAfter(text, CLOSE, tail);
    Cut(text, CLOSE + tail);
  }

  lemma WordShape(e: Scheme, charset: Bytes, content: Bytes, tail: Bytes)
    ensures Word(e, charset, content) + tail ==
            [EQUALS, QUESTION] + (charset + ([QUESTION] + ([SchemeLetter(e), QUESTION] + (EncodedText(e, content) + (CLOSE + tail)))))
  {
    var text := EncodedText(e, content);
    var mid: Bytes := [QUESTION, SchemeLetter(e), QUESTION];
    Assoc(Open(e, charset), text + CLOSE, tail);
    Assoc(text, CLOSE, tail);
    Assoc([EQUALS, QUESTION], charset + mid, text + (CLOSE + tail));
    Assoc(charset, mid, text + (CLOSE + tail));
    Assoc([QUESTION], [SchemeLetter(e), QUESTION], text + (CLOSE + tail));
    assert mid == [QUESTION] + [SchemeLetter(e), QUESTION];
  }

  lemma ScanFinds(lead: Bytes, w: Bytes, f: Fields, content: Bytes)
    requires EQUALS !in lead && f.Fields? && Parse(w) == f && DecodeText(f.encoding, f.text) == Some(content)
    ensures NextWord(lead + ([EQUALS, QUESTION] + w)) == Found(|lead|, f.charset, content, |lead| + 2 + f.size)
  {
    IndexAfter(lead, [EQUALS, QUESTION], w);
    Assoc(lead, [EQUALS, QUESTION], w);
    Cut(lead + [EQUALS, QUESTION], w);
  }

  /** A word is found where it starts, whatever follows it. */
  lemma WordFound(e: Scheme, charset: Bytes, content: Bytes, lead: Bytes, tail: Bytes)
    requires lead == [] || lead == [SPACE]
    requires QUESTION !in charset
    ensures NextWord(lead + (Word(e, charset, content) + tail)) ==
            Found(|lead|, charset, content, |lead| + |Word(e, charset, content)|)
  {
    var text, letter := EncodedText(e, content), SchemeLetter(e);
    var w, f := charset + ([QUESTION] + ([letter, QUESTION] + (text + (CLOSE + tail)))), Fields(charset, letter, text, |charset| + |text| + 5);
    EncodedTextDecodes(e, content);
    WordShape(e, charset, content, tail);
    FieldsFound(charset, letter, text, tail);
    ScanFinds(lead, w, f, content);
    assert |Word(e, charset, content)| == 2 + f.size;
  }

  lemma WordCut(lead: Bytes, w: Bytes, tail: Bytes)
    ensures (lead + (w + tail))[..|lead|] == lead && (lead + (w + tail))[|lead| + |w|..] == tail
  {
    Cut(lead, w + tail);
    Assoc(lead, w, tail);
    Cut(lead + w, tail);
  }

  /** DecodeHeader's loop body on a word it finds, with no text or one space before it. */
  lemma FoundDecodes(
    reader: Reader, h: Bytes, charset: Bytes, content: Bytes, start: nat, end: nat, lead: Bytes, tail: Bytes, betweenWords: bool)
    requires IsUtf8(charset) && NextWord(h) == Found(start, charset, content, end)
    requires start <= |h| && h[..start] == lead && h[end..] == tail
    requires lead == [] || (lead == [SPACE] && betweenWords)
    ensures DecodedRest(reader, h, betweenWords) == Prepend(content, DecodedRest(reader, tail, true))
  {
    assert Between(lead, betweenWords) == [];
    assert [] + content == content;
  }

  lemma WordPassed(reader: Reader, w: Bytes, charset: Bytes, content: Bytes, lead: Bytes, tail: Bytes, betweenWords: bool)
    requires IsUtf8(charset)
    requires lead == [] || (lead == [SPACE] && betweenWords)
    requires NextWord(lead + (w + tail)) == Found(|lead|, charset, content, |lead| + |w|)
    ensures DecodedRest(reader, lead + (w + tail), betweenWords) == Prepend(content, DecodedRest(reader, tail, true))
  {
    WordCut(lead, w, tail);
    FoundDecodes(reader, lead + (w + tail), charset, content, |lead|, |lead| + |w|, lead, tail, betweenWords);
  }

  /** Decoding gets past one word. */
  lemma WordDecodes(reader: Reader, e: Scheme, charset: Bytes, content: Bytes, lead: Bytes, tail: Bytes, betweenWords: bool)
    requires IsUtf8(charset)
    requires lead == [] || (lead == [SPACE] && betweenWords)
    ensures DecodedRest(reader, lead + (Word(e, charset, content) + tail), betweenWords) ==
            Prepend(content, DecodedRest(reader, tail, true))
  {
    Utf8Plain(charset);
    WordFound(e, charset, content, lead, tail);
    WordPassed(reader, Word(e, charset, content), charset, content, lead, tail, betweenWords);
  }

  /** Encoded-words in a row decode to their contents in a row: the spaces between them vanish. */
  lemma {:induction false} WordsDecode(
    reader: Reader, e: Scheme, charset: Bytes, contents: seq<Bytes>, last: Bytes, lead: Bytes, betweenWords: bool)
    requires IsUtf8(charset)
    requires lead == [] || (lead == [SPACE] && betweenWords)
    ensures DecodedRest(reader, lead + (Words(e, charset, contents) + Word(e, charset, last)), betweenWords) ==
            Some(Concat(contents) + last)
    decreases |contents|
  {
    if contents == [] {
      var w := Word(e, charset, last);
      WordDecodes(reader, e, charset, last, lead, [], betweenWords);
      assert w + [] == w && [] + w == w && last + [] == last && [] + last == last;
      assert DecodedRest(reader, [], true) == Some([]);
    } else {
      var rest := Words(e, charset, contents[1..]);
      var w, z := Word(e, charset, contents[0]), Word(e, charset, last);
      WordDecodes(reader, e, charset, contents[0], lead, [SPACE] + (rest + z), betweenWords);
      WordsDecode(reader, e, charset, contents[1..], last, [SPACE], true);
      Assoc(w, [SPACE] + rest, z);
      Assoc([SPACE], rest, z);
      Assoc(contents[0], Concat(contents[1..]), last);
    }
  }

  lemma Utf8Plain(charset: Bytes)
    requires IsUtf8(charset)
    ensures |charset| == 5 && QUESTION !in charset && Plain(charset)
  {
    FoldedIsLower(charset);
    forall i | 0 <= i < |charset| ensures SPACE <= charset[i] <= 126 && charset[i] != QUESTION { assert LowerAll(charset)[i] == UTF_8[i]; }
  }

  // ---------- encoding ----------

  /** Every word fits the 75 characters of RFC 2047 section 2. */
  predicate AllFit(e: Scheme, charset: Bytes, contents: seq<Bytes>)
  {
    forall i :: 0 <= i < |contents| ==> |Word(e, charset, contents[i])| <= 75
  }

  /** Word k has no room for the character of s that comes after it. */
  predicate FullAt(e: Scheme, charset: Bytes, s: Bytes, contents: seq<Bytes>, k: nat)
    requires k < |contents|
  {
    var at := |Concat(contents[..k + 1])|;
    at < |s| && |Word(e, charset, contents[k] + RuneAt(s, at))| > 75
  }

  /** No word ends before it has to. */
  predicate AllFull(e: Scheme, charset: Bytes, s: Bytes, contents: seq<Bytes>)
  {
    forall k: nat :: k < |contents| ==> FullAt(e, charset, s, contents, k)
  }

  lemma OneMoreFull(e: Scheme, charset: Bytes, s: Bytes, contents: seq<Bytes>, last: nat, i: nat)
    requires AllFull(e, charset, s, contents) && last <= i < |s| && Concat(contents + [s[last..i]]) == s[..i]
    requires |Word(e, charset, s[last..i] + RuneAt(s, i))| > 75
    ensures AllFull(e, charset, s, contents + [s[last..i]])
  {
    var more := contents + [s[last..i]];
    forall k: nat | k < |more| ensures FullAt(e, charset, s, more, k) {
      if k < |contents| {
        assert FullAt(e, charset, s, contents, k) && more[..k + 1] == contents[..k + 1];
      } else {
        assert more[..k + 1] == more;
      }
    }
  }

  /**
   * buf is encoded-words for the given contents, one space apart: they make up s,
   * none cuts a character (RFC 2047 section 5), and each takes as many as fit.
   */
  ghost predicate IsSplit(e: Scheme, charset: Bytes, s: Bytes, buf: Bytes, contents: seq<Bytes>, last: Bytes)
  {
    buf == Words(e, charset, contents) + Word(e, charset, last) &&
    Concat(contents) + last == s &&
    AllRunes(contents) + Runes(last) == Runes(s) &&
    AllFit(e, charset, contents) && |Word(e, charset, last)| <= 75 &&
    AllFull(e, charset, s, contents)
  }

  /** The words written so far, an open word, and where in s it started. */
  ghost predicate Writing(e: Scheme, charset: Bytes, s: Bytes, buf: Bytes, contents: seq<Bytes>, last: nat)
  {
    last <= |s| && buf == Words(e, charset, contents) + Open(e, charset) &&
    Concat(contents) == s[..last] && AllRunes(contents) + Runes(s[last..]) == Runes(s) &&
    AllFit(e, charset, contents) && AllFull(e, charset, s, contents)
  }

  lemma WordLength(e: Scheme, charset: Bytes, content: Bytes)
    requires IsUtf8(charset)
    ensures |Word(e, charset, content)| == 12 + |EncodedText(e, content)|
  {
    Utf8Plain(charset);
  }

  lemma SplitBytes(words: Bytes, open: Bytes, text: Bytes, close: Bytes, space: Bytes)
    ensures words + open + text + close + space + open == words + (open + (text + close) + space) + open
  {
    CloseBytes(words, open, text, close);
    Assoc(words, open + (text + close), space);
  }

  lemma CloseBytes(words: Bytes, open: Bytes, text: Bytes, close: Bytes)
    ensures words + open + text + close == words + (open + (text + close))
  {
    Assoc(words, open, text);
    Assoc(words, open + text, close);
    Assoc(open, text, close);
  }

  lemma SplitContents(s: Bytes, contents: seq<Bytes>, last: nat, i: nat)
    requires last <= i <= |s| && Concat(contents) == s[..last]
    ensures Concat(contents + [s[last..i]]) == s[..i]
  {
    ConcatAppend(contents, s[last..i]);
    assert s[..last] + s[last..i] == s[..i];
  }

  lemma SplitRunes(s: Bytes, contents: seq<Bytes>, last: nat, i: nat)
    requires Aligned(s, last, i) && AllRunes(contents) + Runes(s[last..]) == Runes(s)
    ensures AllRunes(contents + [s[last..i]]) + Runes(s[i..]) == Runes(s)
  {
    var c := s[last..i];
    RunesSplit(s, last, i);
    Cut(contents, [c]);
    Assoc(AllRunes(contents), Runes(c), Runes(s[i..]));
  }

  /** splitWord: close the open word, and open the next. */
  lemma SplitKeepsWriting(e: Scheme, charset: Bytes, s: Bytes, buf: Bytes, contents: seq<Bytes>, last: nat, i: nat)
    requires IsUtf8(charset) && Writing(e, charset, s, buf, contents, last)
    requires last <= i < |s| && Aligned(s, last, i) && |EncodedText(e, s[last..i])| <= MAX_CONTENT
    requires |EncodedText(e, s[last..i] + RuneAt(s, i))| > MAX_CONTENT
    ensures Writing(e, charset, s, buf + EncodedText(e, s[last..i]) + CLOSE + [SPACE] + Open(e, charset), contents + [s[last..i]], i)
  {
    var c := s[last..i];
    WordLength(e, charset, c);
    WordLength(e, charset, c + RuneAt(s, i));
    WordsAppend(e, charset, contents, c);
    SplitContents(s, contents, last, i);
    OneMoreFull(e, charset, s, contents, last, i);
    SplitRunes(s, contents, last, i);
    SplitBytes(Words(e, charset, contents), Open(e, charset), EncodedText(e, c), CLOSE, [SPACE]);
  }

  lemma CloseIsSplit(e: Scheme, charset: Bytes, s: Bytes, buf: Bytes, contents: seq<Bytes>, last: nat)
    requires IsUtf8(charset) && Writing(e, charset, s, buf, contents, last)
    requires |EncodedText(e, s[last..])| <= MAX_CONTENT
    ensures IsSplit(e, charset, s, buf + EncodedText(e, s[last..]) + CLOSE, contents, s[last..])
  {
    WordLength(e, charset, s[last..]);
    assert s[..last] + s[last..] == s;
    CloseBytes(Words(e, charset, contents), Open(e, charset), EncodedText(e, s[last..]), CLOSE);
  }

  /** What starts with a word is looked at from its first byte. */
  lemma DecodedFromStart(reader: Reader, buf: Bytes)
    requires [EQUALS, QUESTION] <= buf
    ensures Decoded(reader, buf) == DecodedRest(reader, buf, false)
  {
    assert Index(buf, [EQUALS, QUESTION]) == 0;
    assert buf[..0] == [] && buf[0..] == buf;
    PrependNothing(DecodedRest(reader, buf, false));
  }

  lemma WordsStart(e: Scheme, charset: Bytes, contents: seq<Bytes>, last: Bytes)
    ensures [EQUALS, QUESTION] <= Words(e, charset, contents) + Word(e, charset, last)
  {
    assert [EQUALS, QUESTION] <= Word(e, charset, last);
    if contents != [] { assert [EQUALS, QUESTION] <= Word(e, charset, contents[0]); }
  }

  /** Encoded-words for s, and nothing else: the DecodeHeader of any reader gives s back. */
  lemma SplitDecodes(reader: Reader, e: Scheme, charset: Bytes, s: Bytes, buf: Bytes, contents: seq<Bytes>, last: Bytes)
    requires IsUtf8(charset) && IsSplit(e, charset, s, buf, contents, last)
    ensures Decoded(reader, buf) == Some(s)
  {
    WordsDecode(reader, e, charset, contents, last, [], false);
    assert [] + buf == buf;
    WordsStart(e, charset, contents, last);
    DecodedFromStart(reader, buf);
  }

  /** One encoded-word by itself decodes to what the reader makes of its content, whatever its charset. */
  lemma OneWordDecodes(reader: Reader, e: Scheme, charset: Bytes, content: Bytes)
    requires QUESTION !in charset
    ensures Decoded(reader, Word(e, charset, content)) == Convert(reader, charset, content)
  {
    var w := Word(e, charset, content);
    var none := w[|w|..];
    assert none + (w + none) == w && none + w == w && |none| == 0;
    WordFound(e, charset, content, none, none);
    WordsStart(e, charset, [], content);
    DecodedFromStart(reader, w);
    WholeWord(reader, w, charset, content, none);
  }

  lemma WholeWord(reader: Reader, w: Bytes, charset: Bytes, content: Bytes, none: Bytes)
    requires NextWord(w) == Found(0, charset, content, |w|) && none == w[|w|..]
    ensures DecodedRest(reader, w, false) == Convert(reader, charset, content)
  {
    if Convert(reader, charset, content).Some? {
      FoundStep(reader, none, w, false);
      NothingLeft(reader, none);
      PrependNothing(DecodedRest(reader, w, false));
      JustOne(none, w[..0], Convert(reader, charset, content).value);
    }
  }

  lemma JustOne(none: Bytes, lead: Bytes, c: Bytes)
    requires |none| == 0 && |lead| == 0
    ensures Prepend(none + Between(lead, false) + c, Some(none)) == Some(c)
  {
    assert none + Between(lead, false) + c + none == c;
  }

  lemma NothingLeft(reader: Reader, none: Bytes)
    requires |none| == 0
    ensures DecodedRest(reader, none, true) == Some(none)
  {
    assert NextWord(none).NoWord?;
  }

  /** Bytes that a Q encoding writes as they are, or as an underscore. */
  predicate QPlain(b: Byte) { SPACE <= b <= 126 && b != EQUALS && b != QUESTION && b != UNDERSCORE }

  lemma {:induction false} QTextLength(t: Bytes)
    requires forall i :: 0 <= i < |t| ==> !QPlain(t[i])
    ensures |QText(t)| == 3 * |t|
  {
    if t != [] { QTextLength(t[1..]); }
  }

  /** What qEncode counts for the character at i is what writeQString writes for it. */
  lemma QTextOfRune(s: Bytes, i: nat)
    requires i < |s|
    ensures |QText(RuneAt(s, i))| == if QPlain(s[i]) then 1 else 3 * Width(s, i)
    ensures QPlain(s[i]) ==> Width(s, i) == 1
  {
    var n := Width(s, i);
    var c := RuneAt(s, i);
    if QPlain(s[i]) {
      assert c == [s[i]] && c[1..] == [];
      assert QByte(s[i]) + [] == QByte(s[i]);
    } else {
      forall k | 0 <= k < n ensures !QPlain(c[k]) { assert c[k] == s[i..][k]; }
      QTextLength(c);
    }
  }

  /** The open word takes one more character. */
  lemma QGrows(s: Bytes, base: Bytes, start: nat, i: nat, i': nat, c: Bytes)
    requires start <= i < |s| && Aligned(s, start, i) && c == RuneAt(s, i) && i' == i + |c|
    ensures Aligned(s, start, i')
    ensures base + QText(s[start..i]) + QText(c) == base + QText(s[start..i'])
    ensures |QText(s[start..i'])| == |QText(s[start..i])| + |QText(c)|
  {
    AlignedNext(s, start, i, i');
    QTextOfBoth(base, s[start..i], c, s[start..i']);
  }

  lemma QTextOfBoth(base: Bytes, a: Bytes, c: Bytes, both: Bytes)
    requires both == a + c
    ensures base + QText(a) + QText(c) == base + QText(both) && |QText(both)| == |QText(a)| + |QText(c)|
  {
    QTextAppend(a, c);
    Assoc(base, QText(a), QText(c));
  }

  lemma NothingWritten(e: Scheme, charset: Bytes, s: Bytes)
    ensures Writing(e, charset, s, Open(e, charset), [], 0)
  {
    assert s[0..] == s && s[..0] == [];
    assert [] + Open(e, charset) == Open(e, charset);
    assert AllRunes([]) + Runes(s) == Runes(s);
  }

  /** The state of qEncode's loop at byte i: base ends in an open word that has taken s[start..i]. */
  ghost predicate QLoop(charset: Bytes, s: Bytes, out: Bytes, base: Bytes, contents: seq<Bytes>, start: nat, i: nat, currentLen: nat)
  {
    start <= i <= |s| && Writing(Q, charset, s, base, contents, start) && Aligned(s, start, i) &&
    out == base + QText(s[start..i]) && currentLen == |QText(s[start..i])| <= MAX_CONTENT
  }

  lemma QLoopStarts(charset: Bytes, s: Bytes, base: Bytes, contents: seq<Bytes>, start: nat)
    requires Writing(Q, charset, s, base, contents, start)
    ensures QLoop(charset, s, base, base, contents, start, start, 0)
  {
    assert s[start..start] == [];
    assert base + [] == base;
  }

  lemma QLoopSplits(charset: Bytes, s: Bytes, out: Bytes, base: Bytes, contents: seq<Bytes>, start: nat, i: nat, currentLen: nat)
    requires IsUtf8(charset) && QLoop(charset, s, out, base, contents, start, i, currentLen)
    requires i < |s| && currentLen + |QText(RuneAt(s, i))| > MAX_CONTENT
    ensures var next := out + CLOSE + [SPACE] + Open(Q, charset);
            QLoop(charset, s, next, next, contents + [s[start..i]], i, i, 0)
  {
    QTextAppend(s[start..i], RuneAt(s, i));
    SplitKeepsWriting(Q, charset, s, base, contents, start, i);
    QLoopStarts(charset, s, out + CLOSE + [SPACE] + Open(Q, charset), contents + [s[start..i]], i);
  }

  lemma QLoopGrows(
    charset: Bytes, s: Bytes, out: Bytes, out': Bytes, base: Bytes, contents: seq<Bytes>, start: nat,
    i: nat, i': nat, currentLen: nat, currentLen': nat, c: Bytes)
    requires QLoop(charset, s, out, base, contents, start, i, currentLen)
    requires i < |s| && c == RuneAt(s, i) && i' == i + |c|
    requires out' == out + QText(c) && currentLen' == currentLen + |QText(c)| <= MAX_CONTENT
    ensures QLoop(charset, s, out', base, contents, start, i', currentLen')
  {
    QGrows(s, base, start, i, i', c);
  }

  lemma QLoopEnds(charset: Bytes, s: Bytes, out: Bytes, base: Bytes, contents: seq<Bytes>, start: nat, currentLen: nat)
    requires IsUtf8(charset) && QLoop(charset, s, out, base, contents, start, |s|, currentLen)
    ensures IsSplit(Q, charset, s, out + CLOSE, contents, s[start..])
  {
    assert s[start..|s|] == s[start..];
    CloseIsSplit(Q, charset, s, base, contents, start);
  }

  /** The part of qEncode's loop body that measures the character at i. */
  method Measure(s: Bytes, i: nat) returns (runeLen: nat, encLen: nat, ghost c: Bytes)
    requires i < |s|
    ensures i + runeLen <= |s| && s[i..i + runeLen] == c == RuneAt(s, i)
    ensures runeLen == |c| >= 1 && encLen == |QText(c)| <= 12
  {
    c := RuneAt(s, i);
    var b := s[i];
    QTextOfRune(s, i);
    if b >= SPACE && b <= 126 && b != EQUALS && b != QUESTION && b != UNDERSCORE {
      runeLen, encLen := 1, 1;
    } else {
      runeLen := Width(s, i);
      encLen := 3 * runeLen;
    }
  }

  /** qEncode, from an open word to one that only has to be closed. */
  method QEncode(buf: Bytes, charset: Bytes, s: Bytes) returns (out: Bytes, ghost contents: seq<Bytes>, ghost start: nat)
    requires buf == Open(Q, charset)
    ensures !IsUtf8(charset) ==> out == buf + QText(s)
    ensures IsUtf8(charset) ==> start <= |s| && IsSplit(Q, charset, s, out + CLOSE, contents, s[start..])
  {
    contents, start := [], 0;
    if !IsUtf8(charset) {
      out := WriteQString(buf, s);
      return;
    }
    out := buf;
    ghost var base := buf;
    var currentLen: nat, runeLen: nat := 0, 0;
    var i: nat := 0;
    NothingWritten(Q, charset, s);
    QLoopStarts(charset, s, base, contents, start);
    while i < |s|
      invariant i <= |s| && QLoop(charset, s, out, base, contents, start, i, currentLen)
    {
      var encLen;
      ghost var c;
      runeLen, encLen, c := Measure(s, i);
      if currentLen + encLen > MAX_CONTENT {
        QLoopSplits(charset, s, out, base, contents, start, i, currentLen);
        out := out + CLOSE + [SPACE] + Open(Q, charset);
        contents, start, base := contents + [s[start..i]], i, out;
        currentLen := 0;
      }
      ghost var was, at, length := out, i, currentLen;
      out := WriteQString(out, s[i..i + runeLen]);
      currentLen := currentLen + encLen;
      i := i + runeLen;
      QLoopGrows(charset, s, was, out, base, contents, start, at, i, length, currentLen, c);
    }
    QLoopEnds(charset, s, out, base, contents, start, currentLen);
  }

  /** The state of bEncode's loop at byte i: out ends in an open word that is to take s[last..i]. */
  ghost predicate BLoop(charset: Bytes, s: Bytes, out: Bytes, contents: seq<Bytes>, last: nat, i: nat, currentLen: nat)
  {
    last <= i <= |s| && Writing(B, charset, s, out, contents, last) && Aligned(s, last, i) &&
    currentLen == i - last <= MAX_BASE64
  }

  lemma Base64Fits(c: Bytes)
    requires |c| <= MAX_BASE64
    ensures |EncodedText(B, c)| <= MAX_CONTENT
  {
  }

  lemma Base64Overflows(c: Bytes, r: Bytes)
    requires |c| + |r| > MAX_BASE64
    ensures |EncodedText(B, c + r)| > MAX_CONTENT
  {
  }

  lemma BLoopGrows(
    charset: Bytes, s: Bytes, out: Bytes, contents: seq<Bytes>, last: nat, i: nat, i': nat, currentLen: nat, currentLen': nat)
    requires BLoop(charset, s, out, contents, last, i, currentLen) && i < |s|
    requires i' == i + Width(s, i) && currentLen' == currentLen + Width(s, i) <= MAX_BASE64
    ensures BLoop(charset, s, out, contents, last, i', currentLen')
  {
    AlignedNext(s, last, i, i');
  }

  lemma BLoopSplits(charset: Bytes, s: Bytes, out: Bytes, contents: seq<Bytes>, last: nat, i: nat, currentLen: nat)
    requires IsUtf8(charset) && BLoop(charset, s, out, contents, last, i, currentLen)
    requires i < |s| && currentLen + Width(s, i) > MAX_BASE64
    ensures BLoop(charset, s, out + Base64.Encode(s[last..i]) + CLOSE + [SPACE] + Open(B, charset), contents + [s[last..i]], i, i, 0)
  {
    Base64Fits(s[last..i]);
    Base64Overflows(s[last..i], RuneAt(s, i));
    SplitKeepsWriting(B, charset, s, out, contents, last, i);
  }

  /** bEncode; a base64 encoder that is written to once and closed writes the encoding of what it was given. */
  method BEncode(buf: Bytes, charset: Bytes, s: Bytes) returns (out: Bytes, ghost contents: seq<Bytes>, ghost start: nat)
    requires buf == Open(B, charset)
    ensures !IsUtf8(charset) ==> out == buf + Base64.Encode(s)
    ensures IsUtf8(charset) ==> start <= |s| && IsSplit(B, charset, s, out + CLOSE, contents, s[start..])
  {
    contents, start := [], 0;
    NothingWritten(B, charset, s);
    if !IsUtf8(charset) || Base64.EncodedLen(|s|) <= MAX_CONTENT {
      out := buf + Base64.Encode(s);
      assert s[0..] == s;
      if IsUtf8(charset) { CloseIsSplit(B, charset, s, buf, contents, 0); }
      return;
    }
    out := buf;
    var currentLen: nat, last: nat, runeLen: nat := 0, 0, 0;
    var i: nat := 0;
    while i < |s|
      invariant i <= |s| && BLoop(charset, s, out, contents, last, i, currentLen)
    {
      runeLen := Width(s, i);
      ghost var at, length := i, currentLen;
      if currentLen + runeLen <= MAX_BASE64 {
        currentLen := currentLen + runeLen;
      } else {
        BLoopSplits(charset, s, out, contents, last, i, currentLen);
        out := out + Base64.Encode(s[last..i]) + CLOSE + [SPACE] + Open(B, charset);
        contents := contents + [s[last..i]];
        last := i;
        length := 0;
        currentLen := runeLen;
      }
      i := i + runeLen;
      BLoopGrows(charset, s, out, contents, last, at, i, length, currentLen);
    }
    Base64Fits(s[last..]);
    CloseIsSplit(B, charset, s, out, contents, last);
    out := out + Base64.Encode(s[last..]);
    start := last;
  }

  /**
   * WordEncoder.Encode. Text that a header may hold is left alone, and the result is
   * always such text. For UTF-8 the result is encoded-words of at most 75
   * characters that cut no character, and any DecodeHeader takes it back to s.
   * For another charset it is one word, which decodes to the reader's conversion of s.
   */
  method Encode(e: Scheme, charset: Bytes, s: Bytes) returns (r: Bytes)
    ensures Sendable(s) ==> r == s
    ensures Plain(charset) ==> Sendable(r)
    ensures NeedsEncoding(s) && !IsUtf8(charset) ==> r == Word(e, charset, s)
    ensures NeedsEncoding(s) && IsUtf8(charset) ==> exists contents, last :: IsSplit(e, charset, s, r, contents, last)
    ensures NeedsEncoding(s) && IsUtf8(charset) ==> forall reader: Reader :: Decoded(reader, r) == Some(s)
    ensures NeedsEncoding(s) && !IsUtf8(charset) && QUESTION !in charset ==>
      forall reader: Reader :: Decoded(reader, r) == Convert(reader, charset, s)
  {
    if !NeedsEncoding(s) { return s; }
    var buf := Open(e, charset);
    ghost var contents, start;
    if e.B? {
      buf, contents, start := BEncode(buf, charset, s);
    } else {
      buf, contents, start := QEncode(buf, charset, s);
    }
    r := buf + CLOSE;
    if IsUtf8(charset) {
      forall reader: Reader ensures Decoded(reader, r) == Some(s) {
        SplitDecodes(reader, e, charset, s, r, contents, s[start..]);
      }
      WordsPlain(e, charset, contents, s[start..]);
    } else {
      Assoc(Open(e, charset), EncodedText(e, s), CLOSE);
      if Plain(charset) { WordIsPlain(e, charset, s); }
      if QUESTION !in charset {
        forall reader: Reader ensures Decoded(reader, r) == Convert(reader, charset, s) { OneWordDecodes(reader, e, charset, s); }
      }
    }
  }

  // ---------- text that Encode leaves as it is ----------

  /** DecodeHeader's loop finds an encoded-word in the rest h of a header. */
  predicate WordIn(h: Bytes)
    decreases |h|
  {
    match NextWord(h)
    case NoWord => false
    case BadWord(start) => WordIn(h[start + 2..])
    case Found(_, _, _, _) => true
  }

  /** DecodeHeader finds an encoded-word in the header. */
  predicate HasWord(header: Bytes)
  {
    var i := Index(header, [EQUALS, QUESTION]);
    i != -1 && WordIn(header[i..])
  }

  predicate HasHigh(s: Bytes) { exists i :: 0 <= i < |s| && s[i] >= 0x80 }

  /** What comes out of decoding n bytes: no more bytes than that, or one outside ASCII. */
  predicate Within(r: Option<Bytes>, n: int) { r.Some? ==> |r.value| <= n || HasHigh(r.value) }

  /** A reader whose ASCII results are no longer than what it converts. */
  ghost predicate Modest(reader: Reader) { forall charset, content :: Within(reader(charset, content), |content|) }

  /** A nil CharsetReader. */
  const NOREADER: Reader := (charset, content) => None

  lemma HighPrepended(a: Bytes, r: Bytes)
    ensures HasHigh(a) || HasHigh(r) ==> HasHigh(a + r)
  {
    if HasHigh(a) {
      var i :| 0 <= i < |a| && a[i] >= 0x80;
      assert (a + r)[i] >= 0x80;
    }
    if HasHigh(r) {
      var i :| 0 <= i < |r| && r[i] >= 0x80;
      assert (a + r)[|a| + i] >= 0x80;
    }
  }

  lemma WithinPrepended(a: Bytes, r: Option<Bytes>, m: int, n: int)
    requires |a| <= m || HasHigh(a)
    requires Within(r, n)
    ensures Within(Prepend(a, r), m + n)
  {
    if r.Some? { HighPrepended(a, r.value); }
  }

  lemma {:induction false} QDecodedWithin(t: Bytes)
    ensures QDecoded(t).Some? ==> |QDecoded(t).value| <= |t|
  {
    if t != [] {
      QDecodedWithin(t[1..]);
      if |t| >= 3 { QDecodedWithin(t[3..]); }
    }
  }

  lemma DecodedTextWithin(encoding: Byte, text: Bytes)
    ensures DecodeText(encoding, text).Some? ==> |DecodeText(encoding, text).value| <= |text|
  {
    QDecodedWithin(text);
    Base64.DecodedWithin(text);
  }

  lemma {:induction false} Latin1Within(content: Bytes)
    ensures Within(Some(Latin1(content)), |content|)
  {
    if content != [] {
      var c: Bytes := if content[0] < 0x80 then [content[0]] else [0xC0 + content[0] / 64, 0x80 + content[0] % 64];
      Latin1Within(content[1..]);
      if content[0] >= 0x80 { assert c[0] >= 0x80; }
      WithinPrepended(c, Some(Latin1(content[1..])), 1, |content| - 1);
    }
  }

  lemma {:induction false} AsciiWithin(content: Bytes)
    ensures Within(Some(Ascii(content)), |content|)
  {
    if content != [] {
      var c: Bytes := if content[0] < 0x80 then [content[0]] else [0xEF, 0xBF, 0xBD];
      AsciiWithin(content[1..]);
      if content[0] >= 0x80 { assert c[0] >= 0x80; }
      WithinPrepended(c, Some(Ascii(content[1..])), 1, |content| - 1);
    }
  }

  lemma ConvertWithin(reader: Reader, charset: Bytes, content: Bytes)
    requires Modest(reader)
    ensures Within(Convert(reader, charset, content), |content|)
  {
    Latin1Within(content);
    AsciiWithin(content);
    assert Within(reader(LowerAll(charset), content), |content|);
  }

  /** The content of a word is shorter than the word. */
  lemma ContentWithin(h: Bytes)
    requires NextWord(h).Found?
    ensures var w := NextWord(h); |w.content| < w.end - w.start
  {
    var start := Index(h, [EQUALS, QUESTION]);
    var f := Parse(h[start + 2..]);
    DecodedTextWithin(f.encoding, f.text);
  }

  /** Decoding makes text no longer unless it takes it out of ASCII, and shorter where there is a word. */
  lemma {:induction false} RestWithin(reader: Reader, h: Bytes, betweenWords: bool)
    requires Modest(reader)
    ensures Within(DecodedRest(reader, h, betweenWords), if WordIn(h) then |h| - 1 else |h|)
    decreases |h|
  {
    match NextWord(h)
    case NoWord =>
    case BadWord(start) =>
      var rest := h[start + 2..];
      RestWithin(reader, rest, false);
      WithinPrepended(h[..start + 2], DecodedRest(reader, rest, false), start + 2, if WordIn(rest) then |rest| - 1 else |rest|);
    case Found(start, charset, content, end) =>
      var rest := h[end..];
      RestWithin(reader, rest, true);
      WordWithin(reader, h, betweenWords, rest);
  }

  lemma WordWithin(reader: Reader, h: Bytes, betweenWords: bool, rest: Bytes)
    requires Modest(reader) && NextWord(h).Found? && rest == h[NextWord(h).end..]
    requires Within(DecodedRest(reader, rest, true), |rest|)
    ensures Within(DecodedRest(reader, h, betweenWords), |h| - 1)
  {
    var w := NextWord(h);
    var lead, converted := Between(h[..w.start], betweenWords), Convert(reader, w.charset, w.content);
    ContentWithin(h);
    ConvertWithin(reader, w.charset, w.content);
    if converted.Some? {
      WithinPrepended(lead, converted, w.start, |w.content|);
      WithinPrepended(lead + converted.value, DecodedRest(reader, rest, true), w.start + |w.content|, |rest|);
    }
  }

  lemma {:induction false} WordlessRest(reader: Reader, h: Bytes, betweenWords: bool)
    requires !WordIn(h)
    ensures DecodedRest(reader, h, betweenWords) == Some(h)
    decreases |h|
  {
    if NextWord(h).BadWord? {
      var cut := NextWord(h).start + 2;
      WordlessRest(reader, h[cut..], false);
      assert h == h[..cut] + h[cut..];
    }
  }

  /** A header without an encoded-word decodes to itself, whatever the reader. */
  lemma WordlessDecodes(reader: Reader, s: Bytes)
    requires !HasWord(s)
    ensures Decoded(reader, s) == Some(s)
  {
    var i := Index(s, [EQUALS, QUESTION]);
    if i != -1 {
      WordlessRest(reader, s[i..], false);
      assert s == s[..i] + s[i..];
    }
  }

  /** An ASCII header with an encoded-word does not. */
  lemma WordChanges(reader: Reader, s: Bytes)
    requires Modest(reader) && HasWord(s) && !HasHigh(s)
    ensures Decoded(reader, s) != Some(s)
  {
    var i := Index(s, [EQUALS, QUESTION]);
    RestWithin(reader, s[i..], false);
    WithinPrepended(s[..i], DecodedRest(reader, s[i..], false), i, |s| - i - 1);
  }

  /**
   * Text that needs no encoding is passed through by Encode, and DecodeHeader gives
   * it back exactly if it finds no encoded-word in it.
   */
  lemma PlainComesBack(reader: Reader, s: Bytes)
    requires !NeedsEncoding(s) && Modest(reader)
    ensures Decoded(reader, s) == Some(s) <==> !HasWord(s)
  {
    if HasWord(s) { WordChanges(reader, s); } else { WordlessDecodes(reader, s); }
  }

  lemma NilReaderIsModest()
    ensures Modest(NOREADER)
  {
  }

  /** Other readers may by chance give back the very word they were asked about. */
  lemma EchoComesBack(e: Scheme, charset: Bytes, content: Bytes)
    requires QUESTION !in charset && !IsUtf8(charset) && !EqualFold(ISO_8859_1, charset) && !EqualFold(US_ASCII, charset)
    ensures var w := Word(e, charset, content); var echo: Reader := (_, _) => Some(w); HasWord(w) && Decoded(echo, w) == Some(w)
  {
    var w := Word(e, charset, content);
    WordHasWord(e, charset, content);
    OneWordDecodes((_, _) => Some(w), e, charset, content);
  }

  lemma WordHasWord(e: Scheme, charset: Bytes, content: Bytes)
    requires QUESTION !in charset
    ensures HasWord(Word(e, charset, content))
  {
    var w := Word(e, charset, content);
    var none := w[|w|..];
    assert none + (w + none) == w && |none| == 0;
    WordFound(e, charset, content, none, none);
    assert [EQUALS, QUESTION] <= w;
    assert w[0..] == w;
  }

  /** In particular for a nil reader. */
  lemma PlainComesBackUnread(s: Bytes)
    requires !NeedsEncoding(s)
    ensures Decoded(NOREADER, s) == Some(s) <==> !HasWord(s)
  {
    NilReaderIsModest();
    PlainComesBack(NOREADER, s);
  }

  // ---------- and text that looks encoded ----------

  lemma PlainJoin(a: Bytes, b: Bytes)
    requires Plain(a) && Plain(b)
    ensures Plain(a + b)
  {
  }

  lemma {:induction false} QTextIsPlain(s: Bytes)
    ensures Plain(QText(s))
  {
    if s != [] {
      QTextIsPlain(s[1..]);
      PlainJoin(QByte(s[0]), QText(s[1..]));
    }
  }

  /** Every encoded-word is itself text that needs no encoding. */
  lemma WordIsPlain(e: Scheme, charset: Bytes, content: Bytes)
    requires Plain(charset)
    ensures Plain(Word(e, charset, content)) && !NeedsEncoding(Word(e, charset, content))
  {
    if e.B? { Base64.EncodeIsText(content); } else { QTextIsPlain(content); }
    assert Plain(EncodedText(e, content));
    PlainJoin(charset, [QUESTION, SchemeLetter(e), QUESTION]);
    PlainJoin([EQUALS, QUESTION], charset + [QUESTION, SchemeLetter(e), QUESTION]);
    PlainJoin(EncodedText(e, content), CLOSE);
    PlainJoin(Open(e, charset), EncodedText(e, content) + CLOSE);
  }

  lemma {:induction false} WordsPlain(e: Scheme, charset: Bytes, contents: seq<Bytes>, last: Bytes)
    requires IsUtf8(charset)
    ensures Plain(Words(e, charset, contents) + Word(e, charset, last))
  {
    Utf8Plain(charset);
    WordIsPlain(e, charset, last);
    if contents != [] {
      var w, more := Word(e, charset, contents[0]), Words(e, charset, contents[1..]);
      WordsPlain(e, charset, contents[1..], last);
      WordIsPlain(e, charset, contents[0]);
      Assoc(w, [SPACE] + more, Word(e, charset, last));
      Assoc([SPACE], more, Word(e, charset, last));
      PlainJoin([SPACE], more + Word(e, charset, last));
      PlainJoin(w, [SPACE] + (more + Word(e, charset, last)));
    }
  }

  /**
   * So any text given to Encode as an encoded-word of its own, such as
   * "=?utf-8?q?a?=", is passed through, and decodes to the content of that word.
   */
  lemma PlainMayDecode(reader: Reader, e: Scheme, charset: Bytes, content: Bytes)
    requires IsUtf8(charset)
    ensures var s := Word(e, charset, content); !NeedsEncoding(s) && Decoded(reader, s) == Some(content) && s != content
  {
    Utf8Plain(charset);
    WordIsPlain(e, charset, content);
    WordLength(e, charset, content);
    EncodedTextGrows(e, content);
    WordsDecode(reader, e, charset, [], content, [], false);
    WordsStart(e, charset, [], content);
    var w := Word(e, charset, content);
    assert [] + ([] + w) == w && [] + content == content && [] + w == w;
    DecodedFromStart(reader, w);
  }

  lemma {:induction false} QTextGrows(s: Bytes)
    ensures |QText(s)| >= |s|
  {
    if s != [] { QTextGrows(s[1..]); }
  }

  lemma EncodedTextGrows(e: Scheme, content: Bytes)
    ensures |EncodedText(e, content)| >= |content|
  {
    QTextGrows(content);
  }
}
