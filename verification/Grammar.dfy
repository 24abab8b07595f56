/**
 * The lexical classes of RFC 2045 that both sides of the media type code use
 * (src/mime/grammar.go), white space (unicode.IsSpace on UTF-8 text), and the
 * token scanner.
 */
module Grammar {
  import opened Text

  const QUOTE: Byte := 34
  const PERCENT: Byte := 37
  const APOSTROPHE: Byte := 39
  const STAR: Byte := 42
  const SLASH: Byte := 47
  const SEMICOLON: Byte := 59
  const EQUALS: Byte := 61
  const BACKSLASH: Byte := 92

  /** ()<>@,;:\"/[]?= */
  predicate IsTSpecial(b: Byte)
  {
    b == 40 || b == 41 || b == 60 || b == 62 || b == 64 || b == 44 || b == SEMICOLON || b == 58 || b == BACKSLASH ||
    b == QUOTE || b == SLASH || b == 91 || b == 93 || b == 63 || b == EQUALS
  }

  /** No byte of a character outside ASCII passes, so bytes and characters agree. */
  predicate IsTokenChar(b: Byte) { 0x20 < b < 0x7f && !IsTSpecial(b) }

  predicate AllTokenChars(s: Bytes) { forall i :: 0 <= i < |s| ==> IsTokenChar(s[i]) }

  predicate IsToken(s: Bytes) { s != [] && AllTokenChars(s) }

  /** The length of the run of token characters that s begins with. */
  function TokenLen(s: Bytes): (n: nat)
    ensures n <= |s| && forall i :: 0 <= i < n ==> IsTokenChar(s[i])
    ensures n < |s| ==> !IsTokenChar(s[n])
  {
    if s == [] || !IsTokenChar(s[0]) then 0
    else TokenLen(s[1..]) + 1
  }

  /** s does not go on with a token character. */
  predicate EndsToken(s: Bytes) { s == [] || !IsTokenChar(s[0]) }

  lemma {:induction false} TokenLenIs(t: Bytes, tail: Bytes)
    requires AllTokenChars(t) && EndsToken(tail)
    ensures TokenLen(t + tail) == |t|
  {
    if t == [] {
      assert t + tail == tail;
    } else {
      assert (t + tail)[1..] == t[1..] + tail;
      TokenLenIs(t[1..], tail);
    }
  }

  /** The size of the white-space character that s begins with, 0 if there is none. */
  function SpaceLen(s: Bytes): (n: nat)
    ensures n <= |s|
  {
    if s == [] then 0
    else if 9 <= s[0] <= 13 || s[0] == SPACE then 1
    else if |s| >= 2 && s[0] == 0xC2 && (s[1] == 0x85 || s[1] == 0xA0) then 2
    else if |s| >= 3 && s[0] == 0xE1 && s[1] == 0x9A && s[2] == 0x80 then 3
    else if |s| >= 3 && s[0] == 0xE2 && s[1] == 0x80 && (0x80 <= s[2] <= 0x8A || s[2] == 0xA8 || s[2] == 0xA9 || s[2] == 0xAF) then 3
    else if |s| >= 3 && s[0] == 0xE2 && s[1] == 0x81 && s[2] == 0x9F then 3
    else if |s| >= 3 && s[0] == 0xE3 && s[1] == 0x80 && s[2] == 0x80 then 3
    else 0
  }

  /** The White_Space property of Unicode. */
  predicate WhiteSpace(x: int)
  {
    9 <= x <= 13 || x == 0x20 || x == 0x85 || x == 0xA0 || x == 0x1680 || 0x2000 <= x <= 0x200A ||
    x == 0x2028 || x == 0x2029 || x == 0x202F || x == 0x205F || x == 0x3000
  }

  /** A character in UTF-8 is taken for white space, with its whole width, exactly if it is. */
  lemma SpaceIsWhiteSpace(c: Bytes, x: int, tail: Bytes)
    requires Utf8(c, x)
    ensures SpaceLen(c + tail) == if WhiteSpace(x) then |c| else 0
  {
    var s := c + tail;
    assert forall i :: 0 <= i < |c| ==> s[i] == c[i];
  }

  function TrimLeft(s: Bytes): (t: Bytes)
    ensures |t| <= |s| && SpaceLen(t) == 0
  {
    if SpaceLen(s) == 0 then s else TrimLeft(s[SpaceLen(s)..])
  }

  /** The size of the white-space character that s ends with, 0 if there is none. */
  function LastSpaceLen(s: Bytes): (n: nat)
    ensures n <= |s|
  {
    if |s| >= 1 && SpaceLen(s[|s| - 1..]) == 1 then 1
    else if |s| >= 2 && SpaceLen(s[|s| - 2..]) == 2 then 2
    else if |s| >= 3 && SpaceLen(s[|s| - 3..]) == 3 then 3
    else 0
  }

  function TrimRight(s: Bytes): Bytes
  {
    if LastSpaceLen(s) == 0 then s else TrimRight(s[..|s| - LastSpaceLen(s)])
  }

  function TrimSpace(s: Bytes): Bytes { TrimRight(TrimLeft(s)) }

  lemma NotSpace(t: Bytes)
    requires t != [] && 0x20 < t[|t| - 1] < 0x7f
    ensures SpaceLen(t) != |t|
  {
  }

  lemma SuffixNotSpace(s: Bytes, k: nat)
    requires 1 <= k <= |s| && 0x20 < s[|s| - 1] < 0x7f
    ensures SpaceLen(s[|s| - k..]) != k
  {
    var t := s[|s| - k..];
    assert |t| == k && t[k - 1] == s[|s| - 1];
    NotSpace(t);
  }

  lemma NothingLast(s: Bytes)
    requires s != [] && 0x20 < s[|s| - 1] < 0x7f
    ensures LastSpaceLen(s) == 0
  {
    SuffixNotSpace(s, 1);
    if |s| >= 2 { SuffixNotSpace(s, 2); }
    if |s| >= 3 { SuffixNotSpace(s, 3); }
  }

  /** Printable ASCII at both ends leaves nothing to trim. */
  lemma TrimNothing(s: Bytes)
    requires s != [] && 0x20 < s[0] < 0x7f && 0x20 < s[|s| - 1] < 0x7f
    ensures TrimLeft(s) == s && TrimSpace(s) == s
  {
    NothingLast(s);
  }
}
