/**
 * What the character references of HTML mean, and that UnescapeString
 * (src/html/escape.go) takes them for it: numbers however they are written,
 * known and unknown names, and names without their semicolon.
 */
module HtmlRefs {
  import opened Wrappers
  import opened Text
  import opened Html

  // ---------- characters ----------

  /** The bytes that are written are the character in UTF-8, or the replacement character if it is none. */
  lemma RuneEncoded(x: int)
    ensures Utf8(EncodeRune(x), if Scalar(x) then x else 0xFFFD)
  {
    if Scalar(x) && x >= 0x80 {
      if x < 0x800 { TwoBytes(x); } else if x < 0x10000 { ThreeBytes(x); } else { FourBytes(x); }
    }
  }

  lemma TwoBytes(x: int)
    requires 0x80 <= x < 0x800
    ensures Utf8([0xC0 + x / 64, 0x80 + x % 64], x)
  {
    var a, b := x / 64, x % 64;
    assert (0xC0 + a) / 32 == 6 && (0xC0 + a) % 32 == a && (0x80 + b) / 64 == 2 && (0x80 + b) % 64 == b;
  }

  lemma ThreeBytes(x: int)
    requires 0x800 <= x < 0x10000 && Scalar(x)
    ensures Utf8([0xE0 + x / 4096, 0x80 + x / 64 % 64, 0x80 + x % 64], x)
  {
    var a, b, c := x / 4096, x / 64 % 64, x % 64;
    assert (0xE0 + a) / 16 == 14 && (0xE0 + a) % 16 == a;
    assert (0x80 + b) / 64 == 2 && (0x80 + b) % 64 == b && (0x80 + c) / 64 == 2 && (0x80 + c) % 64 == c;
  }

  lemma FourBytes(x: int)
    requires 0x10000 <= x && Scalar(x)
    ensures Utf8([0xF0 + x / 262144, 0x80 + x / 4096 % 64, 0x80 + x / 64 % 64, 0x80 + x % 64], x)
  {
    var a, b, c, d := x / 262144, x / 4096 % 64, x / 64 % 64, x % 64;
    Regrouped(x);
    assert (0xF0 + a) / 8 == 30 && (0xF0 + a) % 8 == a;
    assert (0x80 + b) / 64 == 2 && (0x80 + b) % 64 == b && (0x80 + c) / 64 == 2 && (0x80 + c) % 64 == c;
    assert (0x80 + d) / 64 == 2 && (0x80 + d) % 64 == d;
  }

  lemma Regrouped(x: int)
    requires 0x10000 <= x <= 0x10FFFF
    ensures x == x / 262144 * 262144 + x / 4096 % 64 * 4096 + x / 64 % 64 * 64 + x % 64 && x / 262144 <= 4
  {
    var y := x / 64;
    var z := y / 64;
    assert x / 4096 == z && x / 262144 == z / 64;
  }

  /** The characters that Windows-1252 has where Unicode has control characters. */
  predicate Windows1252(x: int, c: int)
  {
    (x == 0x80 && c == 0x20AC) || (x == 0x82 && c == 0x201A) || (x == 0x83 && c == 0x0192) || (x == 0x84 && c == 0x201E) ||
    (x == 0x85 && c == 0x2026) || (x == 0x86 && c == 0x2020) || (x == 0x87 && c == 0x2021) || (x == 0x88 && c == 0x02C6) ||
    (x == 0x89 && c == 0x2030) || (x == 0x8A && c == 0x0160) || (x == 0x8B && c == 0x2039) || (x == 0x8C && c == 0x0152) ||
    (x == 0x8E && c == 0x017D) || (x == 0x91 && c == 0x2018) || (x == 0x92 && c == 0x2019) || (x == 0x93 && c == 0x201C) ||
    (x == 0x94 && c == 0x201D) || (x == 0x95 && c == 0x2022) || (x == 0x96 && c == 0x2013) || (x == 0x97 && c == 0x2014) ||
    (x == 0x98 && c == 0x02DC) || (x == 0x99 && c == 0x2122) || (x == 0x9A && c == 0x0161) || (x == 0x9B && c == 0x203A) ||
    (x == 0x9C && c == 0x0153) || (x == 0x9E && c == 0x017E) || (x == 0x9F && c == 0x0178) ||
    (x in {0x81, 0x8D, 0x8F, 0x90, 0x9D} && c == x)
  }

  /** The character that a number stands for. */
  predicate Means(x: int, c: int)
  {
    if 0x80 <= x <= 0x9F then Windows1252(x, c)
    else if 0 < x && Scalar(x) then c == x
    else c == 0xFFFD
  }

  lemma TableMeans(x: int)
    requires 0x80 <= x <= 0x9F
    ensures Windows1252(x, FromNumber(x)) && Scalar(FromNumber(x))
  {
    var i := x - 0x80;
    if i < 8 {
      assert i == 0 || i == 1 || i == 2 || i == 3 || i == 4 || i == 5 || i == 6 || i == 7;
    } else if i < 16 {
      assert i == 8 || i == 9 || i == 10 || i == 11 || i == 12 || i == 13 || i == 14 || i == 15;
    } else if i < 24 {
      assert i == 16 || i == 17 || i == 18 || i == 19 || i == 20 || i == 21 || i == 22 || i == 23;
    } else {
      assert i == 24 || i == 25 || i == 26 || i == 27 || i == 28 || i == 29 || i == 30 || i == 31;
    }
  }

  lemma NumberMeans(x: int) returns (c: int)
    ensures Means(x, c) && Utf8(EncodeRune(FromNumber(x)), c)
  {
    c := FromNumber(x);
    RuneEncoded(c);
    if 0x80 <= x <= 0x9F { TableMeans(x); }
    if !Scalar(c) { c := 0xFFFD; }
  }

  // ---------- numbers ----------

  /** text is these digits, each in either case. */
  predicate Shows(text: Bytes, digits: seq<nat>)
  {
    |text| == |digits| && forall i :: 0 <= i < |digits| ==>
      digits[i] < 16 && (text[i] == DIGITS[digits[i]] || text[i] == CAPITALS[digits[i]])
  }

  function Base(hex: bool): nat { if hex then 16 else 10 }

  predicate InBase(digits: seq<nat>, hex: bool) { forall i :: 0 <= i < |digits| ==> digits[i] < Base(hex) }

  /** The number that digits stand for, the most significant one first. */
  function Number(digits: seq<nat>, hex: bool): nat
  {
    if digits == [] then 0
    else if hex then 16 * Number(digits[..|digits| - 1], hex) + digits[|digits| - 1]
    else 10 * Number(digits[..|digits| - 1], hex) + digits[|digits| - 1]
  }

  lemma DigitRead(c: Byte, d: nat, hex: bool)
    requires d < Base(hex) && (c == DIGITS[d] || c == CAPITALS[d])
    ensures DigitValue(c, hex) == Some(d)
  {
  }

  /** Reading one more digit. */
  function Append(x: int, d: nat, hex: bool): int { if hex then 16 * x + d else 10 * x + d }

  lemma WrapStep(m: int, d: nat, hex: bool)
    ensures Wrap32(Append(Wrap32(m), d, hex)) == Wrap32(Append(m, d, hex))
  {
    var k := (m - Wrap32(m)) / 0x1_0000_0000;
    assert m == Wrap32(m) + 0x1_0000_0000 * k;
    WrapMore(Append(Wrap32(m), d, hex), if hex then 16 * k else 10 * k);
  }

  lemma WrapMore(x: int, k: int)
    ensures Wrap32(x + 0x1_0000_0000 * k) == Wrap32(x)
  {
    assert (x + 0x1_0000_0000 * k) % 0x1_0000_0000 == x % 0x1_0000_0000;
  }

  /** The digits stand in s from start on. */
  predicate ShownAt(s: Bytes, start: nat, digits: seq<nat>)
  {
    start + |digits| <= |s| && forall i :: 0 <= i < |digits| ==>
      digits[i] < 16 && (s[start + i] == DIGITS[digits[i]] || s[start + i] == CAPITALS[digits[i]])
  }

  /** They are read as the number that they stand for, in 32 bits. */
  lemma {:induction false} DigitsRead(s: Bytes, start: nat, digits: seq<nat>, hex: bool)
    requires ShownAt(s, start, digits) && InBase(digits, hex)
    ensures ScanDigits(s, start, hex, 0) == ScanDigits(s, start + |digits|, hex, Wrap32(Number(digits, hex)))
  {
    if digits != [] {
      var i := |digits| - 1;
      var front, d := digits[..i], digits[i];
      DigitsRead(s, start, front, hex);
      OneMoreDigit(s, start + i, front, d, hex);
      assert digits == front + [d];
    }
  }

  lemma OneMoreDigit(s: Bytes, at: nat, front: seq<nat>, d: nat, hex: bool)
    requires at < |s| && d < Base(hex) && (s[at] == DIGITS[d] || s[at] == CAPITALS[d])
    ensures ScanDigits(s, at, hex, Wrap32(Number(front, hex))) ==
            ScanDigits(s, at + 1, hex, Wrap32(Number(front + [d], hex)))
  {
    var m := Number(front, hex);
    DigitRead(s[at], d, hex);
    WrapStep(m, d, hex);
    NumberSnoc(front, d, hex);
    ScanStep(s, at, hex, Wrap32(m), d);
  }

  lemma NumberSnoc(front: seq<nat>, d: nat, hex: bool)
    ensures Number(front + [d], hex) == Append(Number(front, hex), d, hex)
  {
    assert (front + [d])[..|front|] == front;
  }

  lemma ScanStep(s: Bytes, at: nat, hex: bool, x: int, d: nat)
    requires at < |s| && DigitValue(s[at], hex) == Some(d)
    ensures ScanDigits(s, at, hex, x) == ScanDigits(s, at + 1, hex, Wrap32(Append(x, d, hex)))
  {
  }

  /** "&#" or "&#x", with an x of either case, and digits. */
  function NumericText(x: Bytes, text: Bytes): Bytes { [AMP, HASH] + x + text }

  predicate Marks(x: Bytes, hex: bool) { if hex then x == [120] || x == [88] else x == [] }

  /** What comes after a reference without a semicolon does not go on with it. */
  predicate EndsNumber(rest: Bytes, hex: bool) { rest == [] || (DigitValue(rest[0], hex).None? && rest[0] != SEMICOLON) }

  lemma NumberScanned(s: Bytes, front: Bytes, digits: seq<nat>, text: Bytes, end: Bytes, rest: Bytes, hex: bool)
    requires Shows(text, digits) && InBase(digits, hex) && s == front + text + (end + rest)
    requires end == [SEMICOLON] || (end == [] && EndsNumber(rest, hex))
    ensures ScanDigits(s, |front|, hex, 0) == (Wrap32(Number(digits, hex)), |front| + |text| + |end|)
  {
    TextAt(s, front, text, end + rest);
    DigitsRead(s, |front|, digits, hex);
    NumberEnds(s, |front| + |text|, end, rest, hex, Wrap32(Number(digits, hex)));
  }

  lemma TextAt(s: Bytes, front: Bytes, text: Bytes, tail: Bytes)
    requires s == front + text + tail
    ensures |front| + |text| <= |s| && forall i :: 0 <= i < |text| ==> s[|front| + i] == text[i]
    ensures s[|front| + |text|..] == tail
  {
  }

  lemma NumberEnds(s: Bytes, at: nat, end: Bytes, rest: Bytes, hex: bool, x: int)
    requires at <= |s| && s[at..] == end + rest && (end == [SEMICOLON] || (end == [] && EndsNumber(rest, hex)))
    ensures ScanDigits(s, at, hex, x) == (x, at + |end|)
  {
    if at < |s| { assert s[at] == (end + rest)[0]; }
  }

  /** The front of a text is a number, with its semicolon or without; a single decimal digit without one is not. */
  lemma NumberRead(t: Tables, x: Bytes, digits: seq<nat>, text: Bytes, end: Bytes, rest: Bytes, hex: bool)
    requires Marks(x, hex) && digits != [] && Shows(text, digits) && InBase(digits, hex)
    requires end == [SEMICOLON] || (end == [] && EndsNumber(rest, hex) && |x| + |digits| >= 2)
    ensures Entity(t, NumericText(x, text) + end + rest) ==
            (EncodeRune(FromNumber(Wrap32(Number(digits, hex)))), 2 + |x| + |text| + |end|)
  {
    var s := NumericText(x, text) + end + rest;
    Assoc(NumericText(x, text), end, rest);
    var front := [AMP, HASH] + x;
    assert |front| == if hex then 3 else 2;
    NumberScanned(s, front, digits, text, end, rest, hex);
    NumberStarts(s, x, digits, text, end, rest, hex);
    EntityOfNumber(t, s, hex);
  }

  lemma NumberStarts(s: Bytes, x: Bytes, digits: seq<nat>, text: Bytes, end: Bytes, rest: Bytes, hex: bool)
    requires Marks(x, hex) && digits != [] && Shows(text, digits) && InBase(digits, hex)
    requires s == NumericText(x, text) + end + rest && |x| + |text| + |end| >= 2
    ensures |s| > 3 && s[0] == AMP && s[1] == HASH && (hex <==> s[2] == 120 || s[2] == 88)
  {
    if hex { assert s[2] == x[0]; } else { assert s[2] == text[0]; DigitRead(text[0], digits[0], false); }
  }

  lemma EntityOfNumber(t: Tables, s: Bytes, hex: bool)
    requires |s| > 3 && s[0] == AMP && s[1] == HASH && (hex <==> s[2] == 120 || s[2] == 88)
    ensures var (x, i) := ScanDigits(s, if hex then 3 else 2, hex, 0);
            i > 3 ==> Entity(t, s) == (EncodeRune(FromNumber(x)), i)
  {
  }

  /**
   * A number in decimal or hexadecimal digits of either case, with any number of
   * zeros in front, stands for its character; only its value modulo 2**32 counts.
   */
  lemma NumericReference(t: Tables, x: Bytes, digits: seq<nat>, text: Bytes, rest: Bytes, hex: bool) returns (bs: Bytes, c: int)
    requires Marks(x, hex) && digits != [] && Shows(text, digits) && InBase(digits, hex)
    ensures Means(Wrap32(Number(digits, hex)), c) && Utf8(bs, c)
    ensures Unescaped(t, NumericText(x, text) + [SEMICOLON] + rest) == bs + Unescaped(t, rest)
  {
    NumberRead(t, x, digits, text, [SEMICOLON], rest, hex);
    bs, c := Referred(t, NumericText(x, text) + [SEMICOLON], rest, Wrap32(Number(digits, hex)));
  }

  lemma Referred(t: Tables, front: Bytes, rest: Bytes, n: int) returns (bs: Bytes, c: int)
    requires front != [] && front[0] == AMP && Entity(t, front + rest) == (EncodeRune(FromNumber(n)), |front|)
    ensures Means(n, c) && Utf8(bs, c) && Unescaped(t, front + rest) == bs + Unescaped(t, rest)
  {
    bs := EncodeRune(FromNumber(n));
    c := NumberMeans(n);
    EntityDone(t, front + rest, front, rest, bs);
  }

  /** Without a semicolon too, unless it is only one decimal digit long. */
  lemma OpenNumericReference(t: Tables, x: Bytes, digits: seq<nat>, text: Bytes, rest: Bytes, hex: bool) returns (bs: Bytes, c: int)
    requires Marks(x, hex) && |x| + |digits| >= 2 && digits != [] && Shows(text, digits) && InBase(digits, hex)
    requires EndsNumber(rest, hex)
    ensures Means(Wrap32(Number(digits, hex)), c) && Utf8(bs, c)
    ensures Unescaped(t, NumericText(x, text) + rest) == bs + Unescaped(t, rest)
  {
    var none := rest[..0];
    assert NumericText(x, text) + none == NumericText(x, text);
    NumberRead(t, x, digits, text, none, rest, hex);
    bs, c := Referred(t, NumericText(x, text), rest, Wrap32(Number(digits, hex)));
  }

  /** A reference at the front is replaced, and the rest goes on by itself. */
  lemma EntityDone(t: Tables, s: Bytes, front: Bytes, rest: Bytes, data: Bytes)
    requires s == front + rest && s != [] && s[0] == AMP && Entity(t, s) == (data, |front|)
    ensures Unescaped(t, s) == data + Unescaped(t, rest)
  {
    Cut(front, rest);
  }

  /** A number below 2**31 stands for itself. */
  lemma SmallNumber(n: nat)
    requires n < 0x8000_0000
    ensures Wrap32(n) == n
  {
  }

  /** The replacement character is not always what a number beyond the last character gives: 2**32 + 65 gives an A. */
  lemma LargeNumber(n: nat)
    requires n > 0x10FFFF
    ensures Means(n, 0xFFFD)
    ensures var low := n % 0x1_0000_0000; Means(Wrap32(n), 0xFFFD) <==> low == 0 || !Scalar(low) || low == 0xFFFD
    ensures Means(Wrap32(0x1_0000_0041), 65)
  {
    var low := n % 0x1_0000_0000;
    assert 0x1_0000_0041 % 0x1_0000_0000 == 65;
    if 0x80 <= low <= 0x9F { assert !Windows1252(low, 0xFFFD); }
  }

  /** Every number can be written in either base. */
  lemma {:induction false} DigitsOf(n: nat, hex: bool) returns (digits: seq<nat>, text: Bytes)
    ensures digits != [] && InBase(digits, hex) && Number(digits, hex) == n && Shows(text, digits)
    decreases n
  {
    digits, text := [], [];
    var quotient, d := if hex then n / 16 else n / 10, if hex then n % 16 else n % 10;
    assert n == Append(quotient, d, hex);
    if n >= Base(hex) { digits, text := DigitsOf(quotient, hex); }
    NumberSnoc(digits, d, hex);
    digits, text := digits + [d], text + [DIGITS[d]];
  }

  // ---------- names ----------

  /** Letters and digits, and a semicolon or something that ends the name without one. */
  predicate IsName(name: Bytes, rest: Bytes)
  {
    name != [] && (forall i :: 0 <= i < |name| - 1 ==> IsAlnum(name[i])) &&
    if name[|name| - 1] == SEMICOLON then true
    else IsAlnum(name[|name| - 1]) && (rest == [] || (!IsAlnum(rest[0]) && rest[0] != SEMICOLON))
  }

  lemma {:induction false} NameRead(s: Bytes, i: nat, name: Bytes, rest: Bytes)
    requires i <= |name| + 1 && s == [AMP] + name + rest && 1 <= i
    requires IsName(name, rest) && (i == |name| + 1 ==> name[|name| - 1] != SEMICOLON)
    ensures NameEnd(s, i) == |name| + 1
    decreases |name| + 1 - i
  {
    if i <= |name| {
      assert s[i] == name[i - 1];
      if IsAlnum(s[i]) { NameRead(s, i + 1, name, rest); }
    } else if rest != [] {
      assert s[i] == rest[0];
    }
  }

  lemma NameFound(t: Tables, name: Bytes, rest: Bytes)
    requires IsName(name, rest)
    ensures var s := [AMP] + name + rest;
            s[0] == AMP && |s| > 1 && s[1] != HASH && NameEnd(s, 1) == |name| + 1 && s[1..|name| + 1] == name && s[..|name| + 1] == [AMP] + name
  {
    NameRead([AMP] + name + rest, 1, name, rest);
  }

  /** A known name stands for its character. */
  lemma KnownName(t: Tables, name: Bytes, rest: Bytes)
    requires IsName(name, rest) && name in t.entity && Scalar(t.entity[name])
    ensures exists bs :: Utf8(bs, t.entity[name]) && Unescaped(t, [AMP] + name + rest) == bs + Unescaped(t, rest)
  {
    NameFound(t, name, rest);
    RuneEncoded(t.entity[name]);
    EntityDone(t, [AMP] + name + rest, [AMP] + name, rest, EncodeRune(t.entity[name]));
  }

  /** A name for two characters stands for both, in order. */
  lemma KnownPair(t: Tables, name: Bytes, rest: Bytes)
    requires IsName(name, rest) && name !in t.entity && name in t.entity2
    requires Scalar(t.entity2[name].0) && Scalar(t.entity2[name].1)
    ensures exists a, b :: Utf8(a, t.entity2[name].0) && Utf8(b, t.entity2[name].1) &&
              Unescaped(t, [AMP] + name + rest) == a + b + Unescaped(t, rest)
  {
    var a, b := EncodeRune(t.entity2[name].0), EncodeRune(t.entity2[name].1);
    NameFound(t, name, rest);
    RuneEncoded(t.entity2[name].0);
    RuneEncoded(t.entity2[name].1);
    EntityDone(t, [AMP] + name + rest, [AMP] + name, rest, a + b);
  }

  /** name begins with the known name of k bytes, and it is the longest that may go without its semicolon. */
  predicate LongestKnown(t: Tables, name: Bytes, k: nat)
  {
    1 < k <= 6 && k < |name| && name[..k] in t.entity && forall j :: k < j < |name| && j <= 6 ==> name[..j] !in t.entity
  }

  lemma {:induction false} PrefixIs(t: Tables, name: Bytes, j: int, k: nat)
    requires LongestKnown(t, name, k) && k <= j < |name| && j <= 6
    ensures LongestPrefix(t, name, j) == k
    decreases j
  {
    if k < j { PrefixIs(t, name, j - 1, k); }
  }

  lemma {:induction false} NoPrefix(t: Tables, name: Bytes, j: int)
    requires j < |name| && j <= 6 && forall k :: 1 < k < |name| && k <= 6 ==> name[..k] !in t.entity
    ensures LongestPrefix(t, name, j) == 0
    decreases j + 1
  {
    if j > 1 { NoPrefix(t, name, j - 1); }
  }

  /** Of a name that is not known the longest known beginning is replaced, and what follows that goes on by itself. */
  lemma KnownBeginning(t: Tables, name: Bytes, rest: Bytes, k: nat)
    requires IsName(name, rest) && name !in t.entity && name !in t.entity2 && LongestKnown(t, name, k) && Scalar(t.entity[name[..k]])
    ensures exists bs :: Utf8(bs, t.entity[name[..k]]) && Unescaped(t, [AMP] + name + rest) == bs + Unescaped(t, name[k..] + rest)
  {
    NameFound(t, name, rest);
    PrefixIs(t, name, if |name| - 1 < 6 then |name| - 1 else 6, k);
    RuneEncoded(t.entity[name[..k]]);
    var front, tail := [AMP] + name[..k], name[k..] + rest;
    assert [AMP] + name + rest == front + tail by {
      assert name == name[..k] + name[k..];
      Assoc([AMP], name[..k], name[k..]);
      Assoc(front, name[k..], rest);
    }
    EntityDone(t, [AMP] + name + rest, front, tail, EncodeRune(t.entity[name[..k]]));
  }

  /** A name that is not known and has no known beginning is left as it is. */
  lemma UnknownName(t: Tables, name: Bytes, rest: Bytes)
    requires IsName(name, rest) && name !in t.entity && name !in t.entity2
    requires forall k :: 1 < k < |name| && k <= 6 ==> name[..k] !in t.entity
    ensures Unescaped(t, [AMP] + name + rest) == [AMP] + name + Unescaped(t, rest)
  {
    NameFound(t, name, rest);
    NoPrefix(t, name, if |name| - 1 < 6 then |name| - 1 else 6);
    EntityDone(t, [AMP] + name + rest, [AMP] + name, rest, [AMP] + name);
  }

  /** An ampersand before anything that can begin neither a number nor a name is left as it is. */
  lemma LoneAmpersand(t: Tables, rest: Bytes)
    requires rest == [] || (rest[0] != HASH && rest[0] != SEMICOLON && !IsAlnum(rest[0]))
    ensures Unescaped(t, [AMP] + rest) == [AMP] + Unescaped(t, rest)
  {
    var s := [AMP] + rest;
    assert s[..1] == [AMP];
    if rest != [] {
      assert s[1] == rest[0] && NameEnd(s, 1) == 1 && s[1..1] == [];
    }
    EntityDone(t, s, [AMP], rest, [AMP]);
  }

  // ---------- escaped text ----------

  /** < > " ' & */
  predicate IsSpecial(b: Byte) { b == 60 || b == 62 || b == 34 || b == 39 || b == 38 }

  /** &lt; &gt; &#34; &#39; &amp; */
  const FIVE: seq<Bytes> := [
    [38, 108, 116, 59], [38, 103, 116, 59], [38, 35, 51, 52, 59], [38, 35, 51, 57, 59], [38, 97, 109, 112, 59]]

  /** The byte at i is not special, or it is the ampersand of one of the five references. */
  predicate SafeAt(r: Bytes, i: nat)
    requires i < |r|
  {
    IsSpecial(r[i]) ==> exists k :: 0 <= k < |FIVE| && FIVE[k] <= r[i..]
  }

  predicate IsSafe(r: Bytes) { forall i :: 0 <= i < |r| ==> SafeAt(r, i) }

  lemma SafeJoin(a: Bytes, b: Bytes)
    requires IsSafe(a) && IsSafe(b)
    ensures IsSafe(a + b)
  {
    forall i | 0 <= i < |a + b| ensures SafeAt(a + b, i) {
      if i < |a| {
        assert SafeAt(a, i) && (a + b)[i..] == a[i..] + b;
        if IsSpecial(a[i]) {
          var k :| 0 <= k < |FIVE| && FIVE[k] <= a[i..];
          assert FIVE[k] <= (a + b)[i..];
        }
      } else {
        assert SafeAt(b, i - |a|) && (a + b)[i..] == b[i - |a|..];
      }
    }
  }

  lemma IsOneOfFive(e: Bytes, k: nat)
    requires k < |FIVE| && e == FIVE[k]
    ensures IsSafe(e)
  {
    assert e[0..] == e && FIVE[k] <= e[0..];
    forall i | 0 < i < |e| ensures !IsSpecial(e[i]) { }
  }

  lemma ByteIsSafe(c: Byte)
    ensures IsSafe(EscapedByte(c))
  {
    var e := EscapedByte(c);
    if IsSpecial(c) {
      var k := if c == 60 then 0 else if c == 62 then 1 else if c == 34 then 2 else if c == 39 then 3 else 4;
      IsOneOfFive(e, k);
    }
  }

  /** Escaped text has none of the five characters but the ampersands of the five references. */
  lemma {:induction false} EscapedIsSafe(s: Bytes)
    ensures IsSafe(EscapeString(s))
  {
    if s != [] {
      ByteIsSafe(s[0]);
      EscapedIsSafe(s[1..]);
      SafeJoin(EscapedByte(s[0]), EscapeString(s[1..]));
    }
  }

  /** And all other text is left as it is. */
  lemma {:induction false} OthersStay(a: Bytes, s: Bytes)
    requires forall i :: 0 <= i < |a| ==> !IsSpecial(a[i])
    ensures EscapeString(a + s) == a + EscapeString(s)
  {
    if a == [] {
      assert a + s == s;
    } else {
      assert (a + s)[1..] == a[1..] + s && [a[0]] + a[1..] == a;
      OthersStay(a[1..], s);
      Assoc([a[0]], a[1..], EscapeString(s));
    }
  }
}
