/**
 * Byte strings as the text-processing packages use them: substring search
 * (strings.Index), hexadecimal digits, and the division of a string into UTF-8
 * characters (src/unicode/utf8/utf8.go, RFC 3629 section 3).
 */
module Text {
  import opened Wrappers

  type Byte = b: int | 0 <= b < 256

  type Bytes = seq<Byte>

  const SPACE: Byte := 32
  const TAB: Byte := 9
  const LF: Byte := 10
  const CR: Byte := 13

  /** "utf-8" and "us-ascii" */
  const UTF_8: Bytes := [117, 116, 102, 45, 56]
  const US_ASCII: Bytes := [117, 115, 45, 97, 115, 99, 105, 105]

  // ---------- concatenation ----------

  lemma Assoc<T>(a: seq<T>, b: seq<T>, c: seq<T>)
    ensures a + b + c == a + (b + c)
  {
  }

  lemma Cut<T>(a: seq<T>, b: seq<T>)
    ensures (a + b)[..|a|] == a && (a + b)[|a|..] == b
  {
  }

  /** Put a in front of a result. */
  function Prepend(a: Bytes, r: Option<Bytes>): Option<Bytes> { if r.Some? then Some(a + r.value) else None }

  lemma PrependTwice(a: Bytes, b: Bytes, r: Option<Bytes>)
    ensures Prepend(a, Prepend(b, r)) == Prepend(a + b, r)
  {
    if r.Some? { Assoc(a, b, r.value); }
  }

  lemma PrependNothing(r: Option<Bytes>)
    ensures Prepend([], r) == r
  {
    if r.Some? { assert [] + r.value == r.value; }
  }

  // ---------- search ----------

  /** strings.Index: where t first occurs in s, or -1. */
  function Index(s: Bytes, t: Bytes): (k: int)
    ensures -1 <= k <= |s|
    ensures k >= 0 ==> k + |t| <= |s| && s[k..k + |t|] == t
  {
    if t <= s then 0
    else if s == [] then -1
    else
      var k := Index(s[1..], t);
      if k < 0 then -1 else k + 1
  }

  /** t occurs in s at j. */
  predicate OccursAt(s: Bytes, t: Bytes, j: nat) { j + |t| <= |s| && s[j..j + |t|] == t }

  /** What is found is the first occurrence, and nothing is found only if there is none. */
  lemma {:induction false} IndexIsFirst(s: Bytes, t: Bytes, j: nat)
    requires OccursAt(s, t, j)
    ensures 0 <= Index(s, t) <= j && OccursAt(s, t, Index(s, t))
  {
    if j > 0 && !(t <= s) {
      assert s[1..][j - 1..j - 1 + |t|] == s[j..j + |t|];
      IndexIsFirst(s[1..], t, j - 1);
    }
  }

  /** Up to a byte that occurs nowhere before, the search finds that byte. */
  lemma {:induction false} IndexAfter(a: Bytes, t: Bytes, b: Bytes)
    requires t != [] && t[0] !in a
    ensures Index(a + (t + b), t) == |a|
  {
    var s := a + (t + b);
    if a == [] {
      assert s == t + b;
      Cut(t, b);
    } else {
      assert s[0] == a[0];
      assert s[1..] == a[1..] + (t + b);
      IndexAfter(a[1..], t, b);
    }
  }

  /** Searching for one byte. */
  lemma {:induction false} ByteIndex(s: Bytes, b: Byte)
    ensures Index(s, [b]) == -1 <==> b !in s
    ensures Index(s, [b]) != -1 ==> b !in s[..Index(s, [b])]
  {
    if s == [] {
    } else if s[0] == b {
      assert s[..1] == [b];
    } else {
      ByteIndex(s[1..], b);
      assert !([b] <= s);
      var k := Index(s[1..], [b]);
      if k != -1 { assert s[..k + 1] == [s[0]] + s[1..][..k]; }
    }
  }

  // ---------- letters and hexadecimal digits ----------

  function Lower(b: Byte): Byte { if 65 <= b <= 90 then b + 32 else b }

  function LowerAll(s: Bytes): (r: Bytes)
    ensures |r| == |s|
  {
    seq(|s|, i requires 0 <= i < |s| => Lower(s[i]))
  }

  /** s in lower case; U+017F and U+212A are the two other characters with the case of an ASCII letter, s and k. */
  function Folded(s: Bytes): Bytes
  {
    if s == [] then []
    else if [0xC5, 0xBF] <= s then [115] + Folded(s[2..])
    else if [0xE2, 0x84, 0xAA] <= s then [107] + Folded(s[3..])
    else [Lower(s[0])] + Folded(s[1..])
  }

  /** strings.EqualFold(lower, s) for an ASCII string in lower case. */
  predicate EqualFold(lower: Bytes, s: Bytes) { Folded(s) == lower }

  /** Without those two letters, folding is lower-casing. */
  lemma {:induction false} FoldedIsLower(s: Bytes)
    requires 115 !in Folded(s) && 107 !in Folded(s)
    ensures Folded(s) == LowerAll(s)
  {
    if s != [] {
      var n := if [0xC5, 0xBF] <= s then 2 else if [0xE2, 0x84, 0xAA] <= s then 3 else 1;
      assert Folded(s)[0] == if n == 2 then 115 else if n == 3 then 107 else Lower(s[0]);
      FoldedIsLower(s[1..]);
      assert LowerAll(s) == [Lower(s[0])] + LowerAll(s[1..]);
    }
  }

  /** upperhex[v] */
  function HexDigit(v: nat): (b: Byte)
    requires v < 16
    ensures FromHex(b) == Some(v)
  {
    if v < 10 then 48 + v else 55 + v
  }

  function FromHex(b: Byte): Option<nat>
  {
    if 48 <= b <= 57 then Some(b - 48)
    else if 65 <= b <= 70 then Some(b - 55)
    else if 97 <= b <= 102 then Some(b - 87)
    else None
  }

  /** The hexadecimal digits, and the capitals among them. */
  const DIGITS: Bytes := [48, 49, 50, 51, 52, 53, 54, 55, 56, 57, 97, 98, 99, 100, 101, 102]
  const CAPITALS: Bytes := [48, 49, 50, 51, 52, 53, 54, 55, 56, 57, 65, 66, 67, 68, 69, 70]

  /** The byte is the digit of value v, in either case. */
  predicate IsDigit(b: Byte, v: int) { 0 <= v < 16 && (b == DIGITS[v] || b == CAPITALS[v]) }

  lemma FromHexIs(b: Byte, v: nat)
    ensures FromHex(b) == Some(v) <==> IsDigit(b, v)
  {
  }

  lemma Sixteens(h: int, l: int, x: int)
    requires 0 <= l < 16
    ensures h * 16 + l == x <==> h == x / 16 && l == x % 16
  {
  }

  lemma PairParts(a: Byte, b: Byte, x: Byte)
    ensures FromHexPair(a, b) == Some(x) <==> FromHex(a) == Some(x / 16) && FromHex(b) == Some(x % 16)
  {
    var hi, lo := FromHex(a), FromHex(b);
    if hi.Some? && lo.Some? && lo.value < 16 { Sixteens(hi.value, lo.value, x); }
  }

  lemma HexPairIs(a: Byte, b: Byte, x: Byte)
    ensures FromHexPair(a, b) == Some(x) <==> IsDigit(a, x / 16) && IsDigit(b, x % 16)
  {
    FromHexIs(a, x / 16);
    FromHexIs(b, x % 16);
    PairParts(a, b, x);
  }

  /** The byte that two hexadecimal digits stand for. */
  function FromHexPair(a: Byte, b: Byte): Option<Byte>
  {
    var hi, lo := FromHex(a), FromHex(b);
    if hi.Some? && lo.Some? && hi.value < 16 && lo.value < 16 then Some(hi.value * 16 + lo.value) else None
  }

  lemma HexPair(b: Byte)
    ensures FromHexPair(HexDigit(b / 16), HexDigit(b % 16)) == Some(b)
  {
    assert b == b / 16 * 16 + b % 16;
  }

  // ---------- UTF-8 ----------

  predicate Continuation(b: Byte) { 0x80 <= b <= 0xBF }

  /** The second bytes that may follow a first byte (the accept ranges of utf8.go). */
  predicate AcceptSecond(b0: Byte, b1: Byte)
  {
    if b0 == 0xE0 then 0xA0 <= b1 <= 0xBF
    else if b0 == 0xED then 0x80 <= b1 <= 0x9F
    else if b0 == 0xF0 then 0x90 <= b1 <= 0xBF
    else if b0 == 0xF4 then 0x80 <= b1 <= 0x8F
    else Continuation(b1)
  }

  /** The size that the first byte of a character announces; 1 for ASCII and for what cannot start one. */
  function AnnouncedSize(b0: Byte): nat
  {
    if 0xC2 <= b0 <= 0xDF then 2 else if 0xE0 <= b0 <= 0xEF then 3 else if 0xF0 <= b0 <= 0xF4 then 4 else 1
  }

  /** s begins with a complete character of n > 1 bytes. */
  predicate MultiByte(s: Bytes, n: nat)
  {
    s != [] && 1 < n == AnnouncedSize(s[0]) <= |s| && AcceptSecond(s[0], s[1]) &&
    (n > 2 ==> Continuation(s[2])) && (n > 3 ==> Continuation(s[3]))
  }

  /** The width of utf8.DecodeRuneInString: a malformed byte counts as one character. */
  function RuneLen(s: Bytes): (n: nat)
    requires s != []
    ensures 1 <= n <= |s| && n <= 4
    ensures n > 1 ==> forall i :: 0 <= i < n ==> s[i] >= 0x80
    ensures n > 1 <==> MultiByte(s, n)
  {
    var n := AnnouncedSize(s[0]);
    if MultiByte(s, n) then n else 1
  }

  /** A code point that is a character: not a surrogate, and not beyond the last one. */
  predicate Scalar(x: int) { 0 <= x <= 0x10FFFF && !(0xD800 <= x <= 0xDFFF) }

  /** What the low bits of a byte stand for. */
  function LowBits(b: int, bits: int): int
    requires bits > 0
  {
    b % bits
  }

  /** RFC 3629 section 3, as a decoder: c is x in UTF-8, in the shortest form. */
  predicate Utf8(c: Bytes, x: int)
  {
    Scalar(x) && (forall i :: 1 <= i < |c| ==> c[i] / 64 == 2) &&
    match |c|
    case 1 => x == c[0] < 0x80
    case 2 => c[0] / 32 == 6 && x == LowBits(c[0], 32) * 64 + LowBits(c[1], 64) >= 0x80
    case 3 => c[0] / 16 == 14 && x == LowBits(c[0], 16) * 4096 + LowBits(c[1], 64) * 64 + LowBits(c[2], 64) >= 0x800
    case 4 => c[0] / 8 == 30 && x == LowBits(c[0], 8) * 262144 + LowBits(c[1], 64) * 4096 + LowBits(c[2], 64) * 64 + LowBits(c[3], 64) >= 0x10000
    case _ => false
  }

  /** A character in UTF-8 is found with its whole width, whatever follows it. */
  lemma RuneLenOfUtf8(c: Bytes, x: int, tail: Bytes)
    requires Utf8(c, x)
    ensures RuneLen(c + tail) == |c|
  {
    var s := c + tail;
    assert forall i :: 0 <= i < |c| ==> s[i] == c[i];
    if |c| > 1 { WholeCharacter(c, x, s); }
  }

  lemma WholeCharacter(c: Bytes, x: int, s: Bytes)
    requires Utf8(c, x) && 1 < |c| <= |s| && forall i :: 0 <= i < |c| ==> s[i] == c[i]
    ensures MultiByte(s, |c|)
  {
    assert c[1] / 64 == 2;
    if |c| > 2 { assert c[2] / 64 == 2; }
    if |c| > 3 { assert c[3] / 64 == 2; }
  }

  /** And what is found as a character of more than one byte is one in UTF-8. */
  lemma RuneIsUtf8(s: Bytes) returns (x: int)
    requires s != [] && RuneLen(s) > 1
    ensures Utf8(s[..RuneLen(s)], x)
  {
    var n := RuneLen(s);
    var c := s[..n];
    x := if n == 2 then LowBits(c[0], 32) * 64 + LowBits(c[1], 64)
         else if n == 3 then LowBits(c[0], 16) * 4096 + LowBits(c[1], 64) * 64 + LowBits(c[2], 64)
         else LowBits(c[0], 8) * 262144 + LowBits(c[1], 64) * 4096 + LowBits(c[2], 64) * 64 + LowBits(c[3], 64);
  }

  /** s cut into its characters. */
  function Runes(s: Bytes): seq<Bytes>
  {
    if s == [] then [] else [s[..RuneLen(s)]] + Runes(s[RuneLen(s)..])
  }

  /** The width of the character at position i. */
  function Width(s: Bytes, i: nat): (n: nat)
    requires i < |s|
    ensures 1 <= n <= |s| - i && n <= 4
  {
    RuneLen(s[i..])
  }

  /** The character at position i. */
  function RuneAt(s: Bytes, i: nat): Bytes
    requires i < |s|
  {
    s[i..i + Width(s, i)]
  }

  /** Reading characters from position a on, one ends at b: s[a..b] is whole characters. */
  predicate Aligned(s: Bytes, a: nat, b: nat)
    decreases |s| - a
  {
    a <= b <= |s| && (a == b || (a + Width(s, a) <= b && Aligned(s, a + Width(s, a), b)))
  }

  lemma {:induction false} AlignedStep(s: Bytes, a: nat, b: nat)
    requires Aligned(s, a, b) && b < |s|
    ensures Aligned(s, a, b + Width(s, b))
    decreases |s| - a
  {
    if a < b {
      AlignedStep(s, a + Width(s, a), b);
    } else {
      assert Aligned(s, b + Width(s, b), b + Width(s, b));
    }
  }

  lemma AlignedNext(s: Bytes, a: nat, b: nat, b': nat)
    requires Aligned(s, a, b) && b < |s| && b' == b + Width(s, b)
    ensures Aligned(s, a, b')
  {
    AlignedStep(s, a, b);
  }

  lemma RuneLenOfPrefix(s: Bytes, k: nat)
    requires s != [] && RuneLen(s) <= k <= |s|
    ensures RuneLen(s[..k]) == RuneLen(s)
  {
    var n := AnnouncedSize(s[0]);
    assert MultiByte(s[..k], n) ==> MultiByte(s, n);
  }

  /** If its first character ends inside c, that character heads both c and c + rest. */
  lemma RunesHead(c: Bytes, rest: Bytes)
    requires c != [] && RuneLen(c + rest) <= |c|
    ensures var n := RuneLen(c + rest);
            Runes(c + rest) == [c[..n]] + Runes(c[n..] + rest) && Runes(c) == [c[..n]] + Runes(c[n..])
  {
    var n := RuneLen(c + rest);
    Cut(c, rest);
    RuneLenOfPrefix(c + rest, |c|);
    assert (c + rest)[..n] == c[..n] && (c + rest)[n..] == c[n..] + rest;
  }

  lemma RunesGlue(c: Bytes, rest: Bytes)
    requires c != [] && RuneLen(c + rest) <= |c|
    requires var c' := c[RuneLen(c + rest)..]; Runes(c' + rest) == Runes(c') + Runes(rest)
    ensures Runes(c + rest) == Runes(c) + Runes(rest)
  {
    var n := RuneLen(c + rest);
    RunesHead(c, rest);
    Assoc([c[..n]], Runes(c[n..]), Runes(rest));
  }

  lemma Slices(s: Bytes, a: nat, m: nat, b: nat)
    requires a <= m <= b <= |s|
    ensures s[a..] == s[a..b] + s[b..]
    ensures s[a..b][m - a..] == s[m..b]
    ensures s[m..] == s[m..b] + s[b..]
  {
  }

  /** At an aligned cut the characters of the two parts are the characters of the whole. */
  lemma {:induction false} RunesSplit(s: Bytes, a: nat, b: nat)
    requires Aligned(s, a, b)
    ensures Runes(s[a..]) == Runes(s[a..b]) + Runes(s[b..])
    decreases |s| - a
  {
    if a == b {
      assert s[a..b] == [] && Runes([]) == [];
      assert [] + Runes(s[b..]) == Runes(s[b..]);
    } else {
      var m := a + Width(s, a);
      RunesSplit(s, m, b);
      Slices(s, a, m, b);
      RunesGlue(s[a..b], s[b..]);
    }
  }

  function Concat(parts: seq<Bytes>): Bytes
  {
    if parts == [] then [] else parts[0] + Concat(parts[1..])
  }

  lemma {:induction false} ConcatAppend(parts: seq<Bytes>, last: Bytes)
    ensures Concat(parts + [last]) == Concat(parts) + last
  {
    if parts == [] {
      assert parts + [last] == [last];
      assert Concat([last][1..]) == [];
    } else {
      ConcatAppend(parts[1..], last);
      assert (parts + [last])[1..] == parts[1..] + [last];
    }
  }

  /** The characters of each part, in order. */
  function AllRunes(parts: seq<Bytes>): seq<Bytes>
  {
    if parts == [] then [] else AllRunes(parts[..|parts| - 1]) + Runes(parts[|parts| - 1])
  }
}
