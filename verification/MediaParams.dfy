/**
 * One media type parameter (src/mime/mediatype.go): values written as tokens,
 * quoted strings (RFC 2045 section 5.1) or percent-encoded (RFC 2231 sections 4
 * and 7), and the scanners that read them.
 */
module MediaParams {
  import opened Wrappers
  import opened Text
  import opened Grammar
  import EncodedWord

  // ---------- writing values ----------

  predicate IsPlainAttributeChar(b: Byte)
  {
    !(b <= SPACE || b >= 0x7F || b == STAR || b == APOSTROPHE || b == PERCENT || IsTSpecial(b))
  }

  function PercentByte(b: Byte): Bytes
  {
    if IsPlainAttributeChar(b) then [b] else [PERCENT, HexDigit(b / 16), HexDigit(b % 16)]
  }

  /** RFC 2231 section 7 */
  function PercentEncoded(s: Bytes): Bytes
  {
    if s == [] then [] else PercentByte(s[0]) + PercentEncoded(s[1..])
  }

  function EscapedByte(b: Byte): Bytes { if b == QUOTE || b == BACKSLASH then [BACKSLASH, b] else [b] }

  function Escaped(s: Bytes): Bytes
  {
    if s == [] then [] else EscapedByte(s[0]) + Escaped(s[1..])
  }

  lemma {:induction false} PercentAppend(a: Bytes, b: Bytes)
    ensures PercentEncoded(a + b) == PercentEncoded(a) + PercentEncoded(b)
  {
    if a == [] {
      assert a + b == b;
      assert [] + PercentEncoded(b) == PercentEncoded(b);
    } else {
      PercentAppend(a[1..], b);
      assert (a + b)[1..] == a[1..] + b;
      Assoc(PercentByte(a[0]), PercentEncoded(a[1..]), PercentEncoded(b));
    }
  }

  lemma {:induction false} EscapedAppend(a: Bytes, b: Bytes)
    ensures Escaped(a + b) == Escaped(a) + Escaped(b)
  {
    if a == [] {
      assert a + b == b;
      assert [] + Escaped(b) == Escaped(b);
    } else {
      EscapedAppend(a[1..], b);
      assert (a + b)[1..] == a[1..] + b;
      Assoc(EscapedByte(a[0]), Escaped(a[1..]), Escaped(b));
    }
  }

  lemma PercentSnoc(buf: Bytes, value: Bytes, k: nat)
    requires k < |value|
    ensures buf + PercentEncoded(value[..k + 1]) == buf + PercentEncoded(value[..k]) + PercentByte(value[k])
  {
    var c := [value[k]];
    assert value[..k + 1] == value[..k] + c;
    PercentAppend(value[..k], c);
    assert c[1..] == [] && PercentByte(value[k]) + [] == PercentByte(value[k]);
    Assoc(buf, PercentEncoded(value[..k]), PercentByte(value[k]));
  }

  lemma EscapedSnoc(buf: Bytes, value: Bytes, k: nat)
    requires k < |value|
    ensures buf + Escaped(value[..k + 1]) == buf + Escaped(value[..k]) + EscapedByte(value[k])
  {
    var c := [value[k]];
    assert value[..k + 1] == value[..k] + c;
    EscapedAppend(value[..k], c);
    assert c[1..] == [] && EscapedByte(value[k]) + [] == EscapedByte(value[k]);
    Assoc(buf, Escaped(value[..k]), EscapedByte(value[k]));
  }

  /** The stretch that is still to be copied grows by a byte. */
  lemma StretchGrows(b: Bytes, value: Bytes, offset: nat, k: nat)
    requires offset <= k < |value|
    ensures b + value[offset..k + 1] == b + value[offset..k] + [value[k]]
  {
    assert value[offset..k + 1] == value[offset..k] + [value[k]];
    Assoc(b, value[offset..k], [value[k]]);
  }

  /** A percent sign and two digits. */
  method WritePercent(buf: Bytes, ch: Byte) returns (b: Bytes)
    ensures b == buf + [PERCENT, HexDigit(ch / 16), HexDigit(ch % 16)]
  {
    b := buf + [PERCENT] + [HexDigit(ch / 16)] + [HexDigit(ch % 16)];
  }

  /** The loop over a value that needs encoding: stretches of plain bytes are copied whole. */
  method WritePercentEncoded(buf: Bytes, value: Bytes) returns (b: Bytes)
    ensures b == buf + PercentEncoded(value)
  {
    b := buf;
    var offset := 0;
    assert buf + PercentEncoded(value[..0]) == buf + value[0..0] == buf;
    for index := 0 to |value|
      invariant offset <= index && b + value[offset..index] == buf + PercentEncoded(value[..index])
    {
      var ch := value[index];
      PercentSnoc(buf, value, index);
      StretchGrows(b, value, offset, index);
      if ch <= SPACE || ch >= 0x7F || ch == STAR || ch == APOSTROPHE || ch == PERCENT || IsTSpecial(ch) {
        b := b + value[offset..index];
        offset := index + 1;
        b := WritePercent(b, ch);
        assert b + value[offset..index + 1] == b;
      }
    }
    assert value[..|value|] == value && value[offset..|value|] == value[offset..];
    b := b + value[offset..];
  }

  /** The loop over a value that goes between quotes: a backslash before each quote and backslash. */
  method WriteEscaped(buf: Bytes, value: Bytes) returns (b: Bytes)
    ensures b == buf + Escaped(value)
  {
    b := buf;
    var offset := 0;
    assert buf + Escaped(value[..0]) == buf + value[0..0] == buf;
    for index := 0 to |value|
      invariant offset <= index && b + value[offset..index] == buf + Escaped(value[..index])
    {
      var character := value[index];
      EscapedSnoc(buf, value, index);
      StretchGrows(b, value, offset, index);
      if character == QUOTE || character == BACKSLASH {
        b := b + value[offset..index];
        offset := index;
        Assoc(b, [BACKSLASH], [character]);
        b := b + [BACKSLASH];
        assert value[offset..index + 1] == [character];
      }
    }
    assert value[..|value|] == value && value[offset..|value|] == value[offset..];
    b := b + value[offset..];
  }

  // ---------- reading values ----------

  predicate IsHex(b: Byte) { 48 <= b <= 57 || 97 <= b <= 102 || 65 <= b <= 70 }

  /** percentHexUnescape: None for its error. */
  function PercentDecoded(s: Bytes): Option<Bytes>
  {
    if s == [] then Some([])
    else if s[0] != PERCENT then Prepend([s[0]], PercentDecoded(s[1..]))
    else if |s| < 3 || FromHexPair(s[1], s[2]).None? then None
    else Prepend([FromHexPair(s[1], s[2]).value], PercentDecoded(s[3..]))
  }

  /** The number of escapes in s. */
  function Percents(s: Bytes): (n: nat)
    requires PercentDecoded(s).Some?
    ensures |PercentDecoded(s).value| == |s| - 2 * n
  {
    if s == [] then 0 else if s[0] != PERCENT then Percents(s[1..]) else Percents(s[3..]) + 1
  }

  lemma {:induction false} NoPercents(s: Bytes)
    requires PercentDecoded(s).Some? && Percents(s) == 0
    ensures PercentDecoded(s) == Some(s)
  {
    if s != [] {
      NoPercents(s[1..]);
      assert s == [s[0]] + s[1..];
    }
  }

  /** percentHexUnescape's first pass counts the escapes and checks that they are well formed. */
  method CountPercents(s: Bytes) returns (r: Option<nat>)
    ensures r == if PercentDecoded(s).Some? then Some(Percents(s)) else None
  {
    var percents: nat := 0;
    var i := 0;
    while i < |s|
      invariant i <= |s|
      invariant PercentDecoded(s[i..]).Some? <==> PercentDecoded(s).Some?
      invariant PercentDecoded(s).Some? ==> percents + Percents(s[i..]) == Percents(s)
      decreases |s| - i
    {
      ghost var t := s[i..];
      assert t[1..] == s[i + 1..];
      if s[i] != PERCENT {
        i := i + 1;
        continue;
      }
      percents := percents + 1;
      if i + 2 >= |s| || !IsHex(s[i + 1]) || !IsHex(s[i + 2]) { return None; }
      assert t[1] == s[i + 1] && t[2] == s[i + 2] && t[3..] == s[i + 3..];
      i := i + 3;
    }
    assert s[i..] == [];
    return Some(percents);
  }

  /** percentHexUnescape: the second pass fills a buffer of exactly the counted size. */
  method PercentHexUnescape(s: Bytes) returns (r: Option<Bytes>)
    ensures r == PercentDecoded(s)
  {
    var percents := CountPercents(s);
    if percents.None? { return None; }
    if percents.value == 0 {
      NoPercents(s);
      return Some(s);
    }
    ghost var decoded := PercentDecoded(s).value;
    var t := new Byte[|s| - 2 * percents.value];
    var i, j := 0, 0;
    assert s[0..] == s && [] + decoded == decoded;
    while i < |s|
      invariant i <= |s| && j <= t.Length
      invariant PercentDecoded(s[i..]).Some? && |PercentDecoded(s[i..]).value| == t.Length - j
      invariant t[..j] + PercentDecoded(s[i..]).value == decoded
      decreases |s| - i
    {
      ghost var was := t[..j];
      assert s[i..][1..] == s[i + 1..];
      if s[i] == PERCENT {
        assert s[i..][3..] == s[i + 3..];
        t[j] := FromHexPair(s[i + 1], s[i + 2]).value;
        i := i + 3;
      } else {
        t[j] := s[i];
        i := i + 1;
      }
      j := j + 1;
      assert t[..j] == was + [t[j - 1]];
      Assoc(was, [t[j - 1]], PercentDecoded(s[i..]).value);
    }
    assert s[i..] == [] && t[..j] + [] == t[..j] && t[..j] == t[..];
    return Some(t[..]);
  }

  /** A quoted-string after its opening quote: its value and what follows the closing quote. */
  function Quoted(u: Bytes): Option<(Bytes, Bytes)>
  {
    if u == [] then None
    else if u[0] == QUOTE then Some(([], u[1..]))
    else if u[0] == BACKSLASH && |u| > 1 && IsTSpecial(u[1]) then QuotedMore(u[1], Quoted(u[2..]))
    else if u[0] == CR || u[0] == LF then None
    else QuotedMore(u[0], Quoted(u[1..]))
  }

  function QuotedMore(b: Byte, r: Option<(Bytes, Bytes)>): Option<(Bytes, Bytes)>
  {
    if r.Some? then Some(([b] + r.value.0, r.value.1)) else None
  }

  function ConsumeToken(v: Bytes): (Bytes, Bytes) { (v[..TokenLen(v)], v[TokenLen(v)..]) }

  /** consumeValue's result, and ("", v) for failure. */
  function ConsumedValue(v: Bytes): (Bytes, Bytes)
  {
    if v == [] then ([], [])
    else if v[0] != QUOTE then ConsumeToken(v)
    else if Quoted(v[1..]).Some? then Quoted(v[1..]).value else ([], v)
  }

  function QuotedAfter(buffer: Bytes, r: Option<(Bytes, Bytes)>): Option<(Bytes, Bytes)>
  {
    if r.Some? then Some((buffer + r.value.0, r.value.1)) else None
  }

  lemma QuotedAfterMore(buffer: Bytes, b: Byte, r: Option<(Bytes, Bytes)>)
    ensures QuotedAfter(buffer, QuotedMore(b, r)) == QuotedAfter(buffer + [b], r)
  {
    if r.Some? { Assoc(buffer, [b], r.value.0); }
  }

  method ConsumeValue(v: Bytes) returns (value: Bytes, rest: Bytes)
    ensures (value, rest) == ConsumedValue(v)
  {
    if v == [] { return [], []; }
    if v[0] != QUOTE {
      var token := ConsumeToken(v);
      return token.0, token.1;
    }
    var buffer: Bytes := [];
    var i := 1;
    assert QuotedAfter([], Quoted(v[1..])) == Quoted(v[1..]) by {
      if Quoted(v[1..]).Some? { assert [] + Quoted(v[1..]).value.0 == Quoted(v[1..]).value.0; }
    }
    while i < |v|
      invariant 1 <= i <= |v| && Quoted(v[1..]) == QuotedAfter(buffer, Quoted(v[i..]))
    {
      var r := v[i];
      ghost var u := v[i..];
      assert u[1..] == v[i + 1..];
      if r == QUOTE {
        assert buffer + [] == buffer;
        return buffer, v[i + 1..];
      }
      if r == BACKSLASH && i + 1 < |v| && IsTSpecial(v[i + 1]) {
        assert u[2..] == v[i + 2..];
        QuotedAfterMore(buffer, v[i + 1], Quoted(v[i + 2..]));
        buffer := buffer + [v[i + 1]];
        i := i + 2;
        continue;
      }
      if r == CR || r == LF { return [], v; }
      QuotedAfterMore(buffer, v[i], Quoted(v[i + 1..]));
      buffer := buffer + [v[i]];
      i := i + 1;
    }
    assert v[i..] == [];
    return [], v;
  }

  // ---------- what is written is read back ----------

  lemma {:induction false} PercentRoundTrip(s: Bytes)
    ensures PercentDecoded(PercentEncoded(s)) == Some(s)
    ensures AllTokenChars(PercentEncoded(s)) && APOSTROPHE !in PercentEncoded(s)
  {
    if s != [] {
      PercentRoundTrip(s[1..]);
      PercentByteBack(s[0], PercentEncoded(s[1..]));
      assert s == [s[0]] + s[1..];
    }
  }

  lemma PercentByteBack(b: Byte, e: Bytes)
    requires AllTokenChars(e) && APOSTROPHE !in e
    ensures PercentDecoded(PercentByte(b) + e) == Prepend([b], PercentDecoded(e))
    ensures AllTokenChars(PercentByte(b) + e) && APOSTROPHE !in PercentByte(b) + e
  {
    HexPair(b);
    Cut(PercentByte(b), e);
    PercentByteIsToken(b);
    TokensJoined(PercentByte(b), e);
  }

  lemma PercentByteIsToken(b: Byte)
    ensures AllTokenChars(PercentByte(b)) && APOSTROPHE !in PercentByte(b)
  {
  }

  lemma TokensJoined(a: Bytes, b: Bytes)
    requires AllTokenChars(a) && AllTokenChars(b) && APOSTROPHE !in a && APOSTROPHE !in b
    ensures AllTokenChars(a + b) && APOSTROPHE !in a + b
  {
  }

  /** Without line breaks a quoted value comes back, and the reader stops right after its closing quote. */
  lemma {:induction false} QuotedRoundTrip(s: Bytes, tail: Bytes)
    requires CR !in s && LF !in s
    ensures Quoted(Escaped(s) + ([QUOTE] + tail)) == Some((s, tail))
  {
    if s == [] {
      assert [] + ([QUOTE] + tail) == [QUOTE] + tail;
      Cut([QUOTE], tail);
    } else {
      var e, rest := EscapedByte(s[0]), Escaped(s[1..]) + ([QUOTE] + tail);
      QuotedRoundTrip(s[1..], tail);
      Assoc(e, Escaped(s[1..]), [QUOTE] + tail);
      Cut(e, rest);
      assert s == [s[0]] + s[1..];
    }
  }

  // ---------- parameters ----------

  predicate NeedsPercent(value: Bytes) { EncodedWord.NeedsEncoding(value) }

  /** "utf-8" and two apostrophes */
  const CHARSET: Bytes := UTF_8 + [APOSTROPHE, APOSTROPHE]

  /** The attribute as it is written: in lower case, with a star if the value is percent-encoded. */
  function Attribute(k: Bytes, value: Bytes): Bytes
  {
    LowerAll(k) + if NeedsPercent(value) then [STAR] else []
  }

  /** The value as it is written after the equals sign. */
  function ValueText(value: Bytes): Bytes
  {
    if NeedsPercent(value) then CHARSET + PercentEncoded(value)
    else if IsToken(value) then value
    else [QUOTE] + (Escaped(value) + [QUOTE])
  }

  /** The value as consumeValue hands it over. */
  function RawValue(value: Bytes): Bytes { if NeedsPercent(value) then CHARSET + PercentEncoded(value) else value }

  /** "; attribute=value" */
  function Param(k: Bytes, value: Bytes): Bytes
  {
    [SEMICOLON, SPACE] + (Attribute(k, value) + ([EQUALS] + ValueText(value)))
  }

  function Params(attrs: seq<Bytes>, param: map<Bytes, Bytes>): Bytes
    requires forall k :: k in attrs ==> k in param
  {
    if attrs == [] then [] else Param(attrs[0], param[attrs[0]]) + Params(attrs[1..], param)
  }

  /** consumeMediaParam: attribute, value and rest, or None for failure. */
  function ConsumedParam(v: Bytes): (r: Option<(Bytes, Bytes, Bytes)>)
    ensures r.Some? ==> |r.value.2| < |v|
  {
    var rest0 := TrimLeft(v);
    if rest0 == [] || rest0[0] != SEMICOLON then None
    else
      var (token, rest1) := ConsumeToken(TrimLeft(rest0[1..]));
      if token == [] then None else NamedValue(token, rest1)
  }

  /** What consumeMediaParam does when it has the name. */
  function NamedValue(token: Bytes, rest1: Bytes): (r: Option<(Bytes, Bytes, Bytes)>)
    ensures r.Some? ==> |r.value.2| < |rest1|
  {
    var rest2 := TrimLeft(rest1);
    if rest2 == [] || rest2[0] != EQUALS then None
    else
      var rest3 := TrimLeft(rest2[1..]);
      ConsumedValueShrinks(rest3);
      var (value, rest4) := ConsumedValue(rest3);
      if value == [] && rest4 == rest3 then None else Some((LowerAll(token), value, rest4))
  }

  lemma ConsumedValueShrinks(v: Bytes)
    ensures |ConsumedValue(v).1| <= |v|
  {
    if v != [] && v[0] == QUOTE { QuotedShrinks(v[1..]); }
  }

  lemma {:induction false} QuotedShrinks(u: Bytes)
    ensures Quoted(u).Some? ==> |Quoted(u).value.1| <= |u|
  {
    if u != [] {
      if u[0] == BACKSLASH && |u| > 1 && IsTSpecial(u[1]) { QuotedShrinks(u[2..]); } else { QuotedShrinks(u[1..]); }
    }
  }

  // ---------- one written parameter is read back ----------

  /** What can come after a parameter: nothing, or the next one. */
  predicate EndsParam(tail: Bytes) { tail == [] || tail[0] == SEMICOLON }

  lemma LowerToken(k: Bytes)
    ensures LowerAll(LowerAll(k)) == LowerAll(k)
    ensures AllTokenChars(k) ==> AllTokenChars(LowerAll(k))
    ensures STAR in LowerAll(k) <==> STAR in k
  {
    var t := LowerAll(k);
    if STAR in k {
      var i :| 0 <= i < |k| && k[i] == STAR;
      assert t[i] == STAR;
    }
    if STAR in t {
      var i :| 0 <= i < |t| && t[i] == STAR;
      assert k[i] == STAR;
    }
    assert LowerAll(t) == t;
  }

  lemma AttributeShape(k: Bytes, value: Bytes)
    requires IsToken(k)
    ensures IsToken(Attribute(k, value)) && LowerAll(Attribute(k, value)) == Attribute(k, value)
  {
    LowerToken(k);
    var t, star := LowerAll(k), if NeedsPercent(value) then [STAR] else [];
    assert forall i :: 0 <= i < |t| ==> (t + star)[i] == t[i];
    assert forall i :: 0 <= i < |t + star| ==> Lower((t + star)[i]) == (t + star)[i] by {
      assert forall i :: 0 <= i < |t| ==> LowerAll(t)[i] == t[i];
    }
  }

  lemma CharsetIsToken(e: Bytes)
    requires AllTokenChars(e)
    ensures AllTokenChars(CHARSET + e)
  {
  }

  lemma PlainValueHasNoBreaks(value: Bytes)
    requires !NeedsPercent(value)
    ensures CR !in value && LF !in value
  {
  }

  /** consumeValue takes back what was written, and stops at the next parameter. */
  lemma ValueConsumed(value: Bytes, tail: Bytes)
    requires EndsParam(tail)
    ensures ConsumedValue(ValueText(value) + tail) == (RawValue(value), tail)
    ensures ValueText(value) != [] && 0x20 < ValueText(value)[0] < 0x7f
  {
    if NeedsPercent(value) {
      PercentRoundTrip(value);
      CharsetIsToken(PercentEncoded(value));
      TokenConsumed(CHARSET + PercentEncoded(value), tail);
    } else if IsToken(value) {
      TokenConsumed(value, tail);
    } else {
      PlainValueHasNoBreaks(value);
      QuotedRoundTrip(value, tail);
      var u := Escaped(value) + ([QUOTE] + tail);
      Assoc([QUOTE], Escaped(value) + [QUOTE], tail);
      Assoc(Escaped(value), [QUOTE], tail);
      Cut([QUOTE], u);
      assert ValueText(value) + tail == [QUOTE] + u;
    }
  }

  lemma TokenConsumed(t: Bytes, tail: Bytes)
    requires IsToken(t) && EndsToken(tail)
    ensures ConsumeToken(t + tail) == (t, tail)
    ensures ConsumedValue(t + tail) == (t, tail)
  {
    TokenLenIs(t, tail);
    Cut(t, tail);
  }

  lemma TrimOneSpace(s: Bytes)
    requires s != [] && 0x20 < s[0] < 0x7f
    ensures TrimLeft([SPACE] + s) == s
  {
    Cut([SPACE], s);
  }

  lemma PartsFound(v: Bytes, name: Bytes, a: Bytes, afterName: Bytes, afterEquals: Bytes, raw: Bytes, tail: Bytes)
    requires v != [] && v[0] == SEMICOLON && TrimLeft(v[1..]) == name
    requires ConsumeToken(name) == (a, afterName) && a != [] && LowerAll(a) == a
    requires afterName != [] && afterName[0] == EQUALS && afterName[1..] == afterEquals
    requires afterEquals != [] && SpaceLen(afterEquals) == 0
    requires ConsumedValue(afterEquals) == (raw, tail) && |tail| < |afterEquals|
    ensures ConsumedParam(v) == Some((a, raw, tail))
  {
    assert TrimLeft(v) == v && TrimLeft(afterName) == afterName && TrimLeft(afterEquals) == afterEquals;
  }

  lemma NoSpace(s: Bytes)
    requires s != [] && 0x20 < s[0] < 0x7f
    ensures SpaceLen(s) == 0
  {
  }

  lemma AfterFirst(b: Byte, s: Bytes)
    ensures ([b] + s)[0] == b && ([b] + s)[1..] == s
  {
  }

  /** The parts of a written parameter, given the attribute a and the value text t. */
  lemma PartsConsumed(a: Bytes, t: Bytes, raw: Bytes, tail: Bytes)
    requires IsToken(a) && LowerAll(a) == a
    requires t != [] && 0x20 < t[0] < 0x7f
    requires ConsumedValue(t + tail) == (raw, tail)
    ensures ConsumedParam([SEMICOLON] + ([SPACE] + (a + ([EQUALS] + (t + tail))))) == Some((a, raw, tail))
  {
    var afterName := [EQUALS] + (t + tail);
    var name := a + afterName;
    AfterFirst(SEMICOLON, [SPACE] + name);
    TrimOneSpace(name);
    TokenConsumed(a, afterName);
    AfterFirst(EQUALS, t + tail);
    assert ConsumeToken(name) == (a, afterName);
    assert TrimLeft(([SEMICOLON] + ([SPACE] + name))[1..]) == name;
    assert (t + tail)[0] == t[0];
    NoSpace(t + tail);
    PartsFound([SEMICOLON] + ([SPACE] + name), name, a, afterName, t + tail, raw, tail);
  }

  lemma ParamShape(a: Bytes, t: Bytes, tail: Bytes)
    ensures [SEMICOLON, SPACE] + (a + ([EQUALS] + t)) + tail == [SEMICOLON] + ([SPACE] + (a + ([EQUALS] + (t + tail))))
  {
    Assoc([SEMICOLON, SPACE], a + ([EQUALS] + t), tail);
    Assoc(a, [EQUALS] + t, tail);
    Assoc([EQUALS], t, tail);
    var x := a + ([EQUALS] + (t + tail));
    assert [SEMICOLON, SPACE] + x == [SEMICOLON] + ([SPACE] + x);
  }

  lemma ParamConsumed(k: Bytes, value: Bytes, tail: Bytes)
    requires IsToken(k) && EndsParam(tail)
    ensures ConsumedParam(Param(k, value) + tail) == Some((Attribute(k, value), RawValue(value), tail))
    ensures TrimLeft(Param(k, value) + tail) == Param(k, value) + tail != []
  {
    AttributeShape(k, value);
    ValueConsumed(value, tail);
    ParamShape(Attribute(k, value), ValueText(value), tail);
    PartsConsumed(Attribute(k, value), ValueText(value), RawValue(value), tail);
  }
}
