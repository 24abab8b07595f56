/**
 * HTML escaping and the in-place unescaping of src/html/escape.go. The table of
 * named entities is a parameter; what is asked of it is that no replacement is
 * longer than its name with the ampersand.
 */
module Html {
  import opened Wrappers
  import opened Text
  import opened Buffers

  const AMP: Byte := 38
  const HASH: Byte := 35
  const SEMICOLON: Byte := 59

  /** entity and entity2: names, with their semicolon if they have one, to characters. */
  datatype Tables = Tables(entity: map<Bytes, int>, entity2: map<Bytes, (int, int)>)

  const LONGEST_WITHOUT_SEMICOLON: nat := 6

  // ---------- characters ----------

  /** utf8.EncodeRune */
  function EncodeRune(x: int): (r: Bytes)
    ensures 1 <= |r| <= 4
  {
    if 0 <= x < 0x80 then [x]
    else if 0x80 <= x < 0x800 then [0xC0 + x / 64, 0x80 + x % 64]
    else if x < 0 || x > 0x10FFFF || 0xD800 <= x <= 0xDFFF then [0xEF, 0xBF, 0xBD]
    else if x < 0x10000 then [0xE0 + x / 4096, 0x80 + x / 64 % 64, 0x80 + x % 64]
    else [0xF0 + x / 262144, 0x80 + x / 4096 % 64, 0x80 + x / 64 % 64, 0x80 + x % 64]
  }

  predicate TablesOk(t: Tables)
  {
    (forall name :: name in t.entity ==> t.entity[name] != 0 && |EncodeRune(t.entity[name])| <= |name| + 1) &&
    forall name :: name in t.entity2 ==>
      t.entity2[name].0 != 0 && |EncodeRune(t.entity2[name].0)| + |EncodeRune(t.entity2[name].1)| <= |name| + 1
  }

  /** The arithmetic of a rune, which is a 32-bit signed integer. */
  function Wrap32(x: int): int
  {
    var m := x % 0x1_0000_0000;
    if m >= 0x8000_0000 then m - 0x1_0000_0000 else m
  }

  const WINDOWS_1252: seq<int> := [
    0x20AC, 0x0081, 0x201A, 0x0192, 0x201E, 0x2026, 0x2020, 0x2021, 0x02C6, 0x2030, 0x0160, 0x2039, 0x0152, 0x008D, 0x017D, 0x008F,
    0x0090, 0x2018, 0x2019, 0x201C, 0x201D, 0x2022, 0x2013, 0x2014, 0x02DC, 0x2122, 0x0161, 0x203A, 0x0153, 0x009D, 0x017E, 0x0178]

  /** The character that a number stands for. */
  function FromNumber(x: int): int
  {
    if 0x80 <= x <= 0x9F then WINDOWS_1252[x - 0x80]
    else if x == 0 || 0xD800 <= x <= 0xDFFF || x > 0x10FFFF then 0xFFFD
    else x
  }

  function DigitValue(c: Byte, hex: bool): Option<nat>
  {
    if 48 <= c <= 57 then Some(c - 48)
    else if hex && 97 <= c <= 102 then Some(c - 87)
    else if hex && 65 <= c <= 70 then Some(c - 55)
    else None
  }

  // ---------- one entity, on an immutable string ----------

  /** The digits of s from i on: the number read, and where it ends with its semicolon. */
  function ScanDigits(s: Bytes, i: nat, hex: bool, x: int): (r: (int, nat))
    requires i <= |s|
    ensures i <= r.1 <= |s|
    decreases |s| - i
  {
    if i == |s| then (x, i)
    else if DigitValue(s[i], hex).Some? then
      ScanDigits(s, i + 1, hex, Wrap32((if hex then 16 else 10) * x + DigitValue(s[i], hex).value))
    else (x, if s[i] == SEMICOLON then i + 1 else i)
  }

  predicate IsAlnum(c: Byte) { 97 <= c <= 122 || 65 <= c <= 90 || 48 <= c <= 57 }

  /** The end of the name that goes on at i, with its semicolon. */
  function NameEnd(s: Bytes, i: nat): (r: nat)
    requires i <= |s|
    ensures i <= r <= |s|
    decreases |s| - i
  {
    if i == |s| then i
    else if IsAlnum(s[i]) then NameEnd(s, i + 1)
    else if s[i] == SEMICOLON then i + 1
    else i
  }

  /** The longest of the prefixes of at most j and more than one byte that is a name; 0 if there is none. */
  function LongestPrefix(t: Tables, name: Bytes, j: int): (r: nat)
    requires j <= |name|
    ensures r > 0 ==> 1 < r <= j && name[..r] in t.entity
  {
    if j <= 1 then 0 else if name[..j] in t.entity then j else LongestPrefix(t, name, j - 1)
  }

  /** How many bytes of s, which begins with an ampersand, are replaced, and by what. */
  function Entity(t: Tables, s: Bytes): (r: (Bytes, nat))
    requires s != [] && s[0] == AMP
    ensures 1 <= r.1 <= |s|
  {
    if |s| <= 1 then (s[..1], 1)
    else if s[1] == HASH then
      if |s| <= 3 then (s[..1], 1)
      else
        var hex := s[2] == 120 || s[2] == 88;
        var (x, i) := ScanDigits(s, if hex then 3 else 2, hex, 0);
        if i <= 3 then (s[..1], 1) else (EncodeRune(FromNumber(x)), i)
    else
      var i := NameEnd(s, 1);
      var name := s[1..i];
      if name == [] then (s[..i], i)
      else if name in t.entity then (EncodeRune(t.entity[name]), i)
      else if name in t.entity2 then (EncodeRune(t.entity2[name].0) + EncodeRune(t.entity2[name].1), i)
      else
        var j := LongestPrefix(t, name, Least(|name| - 1, LONGEST_WITHOUT_SEMICOLON));
        if j > 0 then (EncodeRune(t.entity[name[..j]]), j + 1) else (s[..i], i)
  }

  function Least(a: int, b: int): int { if a < b then a else b }

  /** The left-to-right substitution. */
  function Unescaped(t: Tables, s: Bytes): Bytes
    decreases |s|
  {
    if s == [] then []
    else if s[0] != AMP then [s[0]] + Unescaped(t, s[1..])
    else Entity(t, s).0 + Unescaped(t, s[Entity(t, s).1..])
  }

  /** A replacement is never longer than what it replaces: why the work can be done in place. */
  lemma EntityShrinks(t: Tables, s: Bytes)
    requires TablesOk(t) && s != [] && s[0] == AMP
    ensures |Entity(t, s).0| <= Entity(t, s).1
  {
    if |s| > 1 && s[1] != HASH {
      var i := NameEnd(s, 1);
      var name := s[1..i];
      assert |name| + 1 == i;
    }
  }

  lemma {:induction false} PlainPrefix(t: Tables, plain: Bytes, rest: Bytes)
    requires AMP !in plain
    ensures Unescaped(t, plain + rest) == plain + Unescaped(t, rest)
  {
    if plain == [] {
      assert [] + rest == rest && [] + Unescaped(t, rest) == Unescaped(t, rest);
    } else {
      PlainPrefix(t, plain[1..], rest);
      assert (plain + rest)[1..] == plain[1..] + rest;
      assert plain == [plain[0]] + plain[1..];
      Assoc([plain[0]], plain[1..], Unescaped(t, rest));
    }
  }

  // ---------- escaping ----------

  function EscapedByte(c: Byte): Bytes
  {
    if c == 38 then [38, 97, 109, 112, 59]
    else if c == 39 then [38, 35, 51, 57, 59]
    else if c == 60 then [38, 108, 116, 59]
    else if c == 62 then [38, 103, 116, 59]
    else if c == 34 then [38, 35, 51, 52, 59]
    else [c]
  }

  function EscapeString(s: Bytes): Bytes
  {
    if s == [] then [] else EscapedByte(s[0]) + EscapeString(s[1..])
  }

  /** The three names that escaping uses mean what they should. */
  predicate KnowsEscapes(t: Tables)
  {
    [97, 109, 112, 59] in t.entity && t.entity[[97, 109, 112, 59]] == 38 &&
    [108, 116, 59] in t.entity && t.entity[[108, 116, 59]] == 60 &&
    [103, 116, 59] in t.entity && t.entity[[103, 116, 59]] == 62
  }

  /** A name of letters with its semicolon is read as far as the semicolon. */
  lemma {:induction false} NameEndIs(s: Bytes, i: nat, end: nat)
    requires i <= end < |s| && s[end] == SEMICOLON && forall k :: i <= k < end ==> IsAlnum(s[k])
    ensures NameEnd(s, i) == end + 1
    decreases end - i
  {
    if i < end { NameEndIs(s, i + 1, end); }
  }

  lemma NamedEntity(t: Tables, name: Bytes, rest: Bytes)
    requires name != [] && name[|name| - 1] == SEMICOLON && forall k :: 0 <= k < |name| - 1 ==> IsAlnum(name[k])
    requires name[0] != HASH && name in t.entity
    ensures Entity(t, [AMP] + name + rest) == (EncodeRune(t.entity[name]), |name| + 1)
  {
    var s := [AMP] + name + rest;
    NameEndIs(s, 1, |name|);
    assert s[1..|name| + 1] == name;
  }

  /** "&#" and two digits and a semicolon. */
  lemma TwoDigits(t: Tables, a: Byte, b: Byte, rest: Bytes)
    requires 48 <= a <= 57 && 48 <= b <= 57
    ensures Entity(t, [AMP, HASH, a, b, SEMICOLON] + rest) == (EncodeRune(FromNumber((a - 48) * 10 + b - 48)), 5)
  {
    var s := [AMP, HASH, a, b, SEMICOLON] + rest;
    DigitsScanned(s, a, b);
  }

  lemma DigitsScanned(s: Bytes, a: Byte, b: Byte)
    requires |s| >= 5 && s[2] == a && s[3] == b && s[4] == SEMICOLON && 48 <= a <= 57 && 48 <= b <= 57
    ensures ScanDigits(s, 2, false, 0) == ((a - 48) * 10 + b - 48, 5)
  {
    var x, y := a - 48, (a - 48) * 10 + b - 48;
    assert Wrap32(10 * 0 + x) == x && Wrap32(10 * x + (b - 48)) == y;
    assert ScanDigits(s, 4, false, y) == (y, 5);
    assert ScanDigits(s, 3, false, x) == ScanDigits(s, 4, false, y);
  }

  lemma EscapedByteBack(t: Tables, c: Byte, rest: Bytes)
    requires KnowsEscapes(t) && EscapedByte(c) != [c]
    ensures EscapedByte(c)[0] == AMP && Entity(t, EscapedByte(c) + rest) == ([c], |EscapedByte(c)|)
  {
    if c == 38 {
      NamedEntity(t, [97, 109, 112, 59], rest);
      assert EscapedByte(c) == [AMP] + [97, 109, 112, 59];
    } else if c == 60 {
      NamedEntity(t, [108, 116, 59], rest);
      assert EscapedByte(c) == [AMP] + [108, 116, 59];
    } else if c == 62 {
      NamedEntity(t, [103, 116, 59], rest);
      assert EscapedByte(c) == [AMP] + [103, 116, 59];
    } else if c == 39 {
      TwoDigits(t, 51, 57, rest);
    } else {
      TwoDigits(t, 51, 52, rest);
    }
  }

  /** UnescapeString(EscapeString(s)) == s always holds. */
  lemma {:induction false} RoundTrip(t: Tables, s: Bytes)
    requires KnowsEscapes(t)
    ensures Unescaped(t, EscapeString(s)) == s
  {
    if s != [] {
      var e, rest := EscapedByte(s[0]), EscapeString(s[1..]);
      RoundTrip(t, s[1..]);
      assert s == [s[0]] + s[1..];
      if e == [s[0]] {
        PlainPrefix(t, e, rest);
      } else {
        EscapedByteBack(t, s[0], rest);
        Cut(e, rest);
        assert (e + rest)[0] == AMP;
      }
    }
  }

  // ---------- unescaping in place ----------

  lemma Part(all: Bytes, src: nat, lo: nat, hi: nat)
    requires lo <= hi && src + hi <= |all|
    ensures all[src..][lo..hi] == all[src + lo..src + hi]
  {
  }

  lemma DropMore(before: Bytes, after: Bytes, m: nat, n: nat)
    requires m <= n <= |before| == |after| && after[m..] == before[m..]
    ensures after[n..] == before[n..]
  {
    assert after[n..] == after[m..][n - m..] && before[n..] == before[m..][n - m..];
  }

  /** The loop over the digits of a numeric reference at b[src..]. */
  method ReadDigits(b: array<Byte>, src: nat, start: nat, hex: bool) returns (x: int, i: nat)
    requires src + start <= b.Length
    ensures (x, i) == ScanDigits(b[src..], start, hex, 0)
  {
    ghost var s := b[src..];
    x, i := 0, start;
    while i < b.Length - src
      invariant start <= i <= |s| && ScanDigits(s, start, hex, 0) == ScanDigits(s, i, hex, x)
    {
      var c := b[src + i];
      assert c == s[i];
      i := i + 1;
      var d := DigitValue(c, hex);
      if d.Some? {
        x := Wrap32((if hex then 16 else 10) * x + d.value);
        continue;
      }
      if c != SEMICOLON { i := i - 1; }
      return;
    }
  }

  /** The loop over the name of a named reference at b[src..]. */
  method ReadName(b: array<Byte>, src: nat) returns (i: nat)
    requires src + 1 <= b.Length
    ensures i == NameEnd(b[src..], 1)
  {
    ghost var s := b[src..];
    i := 1;
    while i < b.Length - src
      invariant 1 <= i <= |s| && NameEnd(s, 1) == NameEnd(s, i)
    {
      var c := b[src + i];
      assert c == s[i];
      i := i + 1;
      if IsAlnum(c) { continue; }
      if c != SEMICOLON { i := i - 1; }
      return;
    }
  }

  /** The search for a shorter name. */
  method ShorterName(t: Tables, name: Bytes) returns (j: nat)
    requires name != []
    ensures j == LongestPrefix(t, name, Least(|name| - 1, LONGEST_WITHOUT_SEMICOLON))
  {
    var maxLen := |name| - 1;
    if maxLen > LONGEST_WITHOUT_SEMICOLON { maxLen := LONGEST_WITHOUT_SEMICOLON; }
    var k := maxLen;
    while k > 1
      invariant k <= maxLen && LongestPrefix(t, name, maxLen) == LongestPrefix(t, name, k)
      decreases k
    {
      if name[..k] in t.entity { return k; }
      k := k - 1;
    }
    return 0;
  }

  /** What the entity at b[src..] is replaced by, and how far it goes. */
  method ReadEntity(t: Tables, b: array<Byte>, src: nat) returns (data: Bytes, i: nat)
    requires src < b.Length && b[src] == AMP
    ensures (data, i) == Entity(t, b[src..])
  {
    ghost var s := b[src..];
    var n := b.Length - src;
    assert s[..1] == b[src..src + 1];
    if n <= 1 { return b[src..src + 1], 1; }
    if b[src + 1] == HASH {
      if n <= 3 {
        return b[src..src + 1], 1;
      }
      var c := b[src + 2];
      var hex := c == 120 || c == 88;
      var x;
      x, i := ReadDigits(b, src, if hex then 3 else 2, hex);
      if i <= 3 {
        return b[src..src + 1], 1;
      }
      return EncodeRune(FromNumber(x)), i;
    }
    i := ReadName(b, src);
    var name := b[src + 1..src + i];
    Part(b[..], src, 1, i);
    Part(b[..], src, 0, i);
    if name == [] { return b[src..src + i], i; }
    if name in t.entity { return EncodeRune(t.entity[name]), i; }
    if name in t.entity2 { return EncodeRune(t.entity2[name].0) + EncodeRune(t.entity2[name].1), i; }
    var j := ShorterName(t, name);
    if j > 0 { return EncodeRune(t.entity[name[..j]]), j + 1; }
    return b[src..src + i], i;
  }

  /** unescapeEntity: the replacement goes to b[dst..], never past the bytes that have been read. */
  method UnescapeEntity(t: Tables, b: array<Byte>, dst: nat, src: nat) returns (dst1: nat, src1: nat)
    requires TablesOk(t) && dst <= src < b.Length && b[src] == AMP
    modifies b
    ensures dst1 <= src1 <= b.Length && src1 == src + Entity(t, old(b[src..])).1
    ensures b[..dst1] == old(b[..dst]) + Entity(t, old(b[src..])).0
    ensures b[src1..] == old(b[src..])[src1 - src..]
  {
    EntityShrinks(t, b[src..]);
    ghost var before := b[..];
    var data, i := ReadEntity(t, b, src);
    dst1 := Copy(b, dst, data);
    src1 := src + i;
    DropMore(before, b[..], dst1, src1);
    assert before[src1..] == before[src..][src1 - src..];
  }

  /** done is what s up to src has been replaced by. */
  ghost predicate Done(t: Tables, s: Bytes, done: Bytes, src: nat)
  {
    src <= |s| && done + Unescaped(t, s[src..]) == Unescaped(t, s)
  }

  /** A stretch without ampersands is copied. */
  lemma CopyPlain(t: Tables, s: Bytes, done: Bytes, src: nat, plain: Bytes)
    requires Done(t, s, done, src) && src + |plain| <= |s| && s[src..src + |plain|] == plain && AMP !in plain
    ensures Done(t, s, done + plain, src + |plain|)
  {
    var rest := s[src + |plain|..];
    assert s[src..] == plain + rest;
    PlainPrefix(t, plain, rest);
    Assoc(done, plain, Unescaped(t, rest));
  }

  /** An entity is replaced. */
  lemma ReplaceEntity(t: Tables, s: Bytes, done: Bytes, src: nat)
    requires Done(t, s, done, src) && src < |s| && s[src] == AMP
    ensures var e := Entity(t, s[src..]); Done(t, s, done + e.0, src + e.1)
  {
    var e := Entity(t, s[src..]);
    assert s[src..][e.1..] == s[src + e.1..];
    Assoc(done, e.0, Unescaped(t, s[src + e.1..]));
  }

  /** strings.IndexByte: the stretch before the next ampersand, or everything. */
  method NextAmp(s: Bytes, src: nat) returns (i: int)
    requires src <= |s|
    ensures i == -1 ==> AMP !in s[src..]
    ensures i != -1 ==> 0 <= i && src + i < |s| && s[src + i] == AMP && AMP !in s[src..src + i]
  {
    i := Index(s[src..], [AMP]);
    ByteIndex(s[src..], AMP);
    if i != -1 {
      assert s[src..][i..i + 1][0] == s[src + i];
      assert s[src..][..i] == s[src..src + i];
    }
  }

  lemma SameByte(a: Bytes, s: Bytes, at: nat)
    requires at < |a| == |s| && a[at..] == s[at..]
    ensures a[at] == s[at]
  {
    assert a[at..][0] == s[at..][0];
  }

  /** Copy the plain bytes up to at. */
  method CopyStretch(t: Tables, s: Bytes, b: array<Byte>, dst: nat, src: nat, at: nat) returns (dst1: nat)
    requires dst <= src <= at < |s| == b.Length
    requires b[src..] == s[src..] && AMP !in s[src..at] && Done(t, s, b[..dst], src)
    modifies b
    ensures dst1 == dst + at - src && b[at..] == s[at..] && Done(t, s, b[..dst1], at)
  {
    CopyPlain(t, s, b[..dst], src, s[src..at]);
    DropMore(s, b[..], src, at);
    ghost var before := b[..];
    dst1 := Copy(b, dst, s[src..at]);
    DropMore(before, b[..], dst1, at);
  }

  /** How many plain bytes come next; no search is needed at an ampersand. */
  method Stretch(s: Bytes, src: nat) returns (i: int)
    requires src < |s|
    ensures i == -1 ==> AMP !in s[src..]
    ensures i != -1 ==> 0 <= i && src + i < |s| && s[src + i] == AMP && AMP !in s[src..src + i]
  {
    if s[src] == AMP {
      assert s[src..src + 0] == [];
      return 0;
    }
    i := NextAmp(s, src);
  }

  /** The body of UnescapeString's loop: i plain bytes, then an entity. */
  method NextEntity(t: Tables, s: Bytes, b: array<Byte>, dst: nat, src: nat, i: nat) returns (dst1: nat, src1: nat)
    requires TablesOk(t) && dst <= src && src + i < |s| == b.Length
    requires b[src..] == s[src..] && s[src + i] == AMP && AMP !in s[src..src + i] && Done(t, s, b[..dst], src)
    modifies b
    ensures dst1 <= src1 <= |s| && src < src1 && b[src1..] == s[src1..] && Done(t, s, b[..dst1], src1)
  {
    var at := src + i;
    dst1 := CopyStretch(t, s, b, dst, src, at);
    ghost var done, e := b[..dst1], Entity(t, s[at..]);
    ReplaceEntity(t, s, done, at);
    SameByte(b[..], s, at);
    dst1, src1 := UnescapeEntity(t, b, dst1, at);
    assert b[..dst1] == done + e.0 && src1 == at + e.1;
    assert s[src1..] == s[at..][src1 - at..];
  }

  /** Up to the first ampersand nothing changes. */
  lemma PlainStart(t: Tables, s: Bytes, i: nat)
    requires i <= |s| && AMP !in s[..i]
    ensures Done(t, s, s[..i], i)
  {
    PlainPrefix(t, s[..i], s[i..]);
    assert s[..i] + s[i..] == s;
  }

  /** The first entity, in a buffer that still holds the string. */
  method FirstEntity(t: Tables, s: Bytes, b: array<Byte>, i: nat) returns (dst: nat, src: nat)
    requires TablesOk(t) && i < |s| == b.Length && b[..] == s && s[i] == AMP && AMP !in s[..i]
    modifies b
    ensures dst <= src <= |s| && b[src..] == s[src..] && Done(t, s, b[..dst], src)
  {
    PlainStart(t, s, i);
    ReplaceEntity(t, s, s[..i], i);
    assert b[i..] == s[i..] && b[..i] == s[..i];
    dst, src := UnescapeEntity(t, b, i, i);
    assert s[src..] == s[i..][src - i..];
  }

  /** The rest of the string has no entity. */
  method CopyRest(t: Tables, s: Bytes, b: array<Byte>, dst: nat, src: nat) returns (r: Bytes)
    requires dst <= src <= |s| == b.Length && AMP !in s[src..] && Done(t, s, b[..dst], src)
    modifies b
    ensures r == Unescaped(t, s)
  {
    var rest := s[src..];
    assert s[src..src + |rest|] == rest;
    CopyPlain(t, s, b[..dst], src, rest);
    var end := Copy(b, dst, rest);
    r := b[..end];
    assert s[|s|..] == [] && r + [] == r;
  }

  /** UnescapeString's loop. */
  method UnescapeRest(t: Tables, s: Bytes, b: array<Byte>, dst0: nat, src0: nat) returns (r: Bytes)
    requires TablesOk(t) && dst0 <= src0 <= |s| == b.Length && b[src0..] == s[src0..] && Done(t, s, b[..dst0], src0)
    modifies b
    ensures r == Unescaped(t, s)
  {
    var dst: nat, src: nat := dst0, src0;
    while src < |s|
      invariant dst <= src <= |s| == b.Length && b[src..] == s[src..] && Done(t, s, b[..dst], src)
      decreases |s| - src
    {
      var i := Stretch(s, src);
      if i < 0 {
        r := CopyRest(t, s, b, dst, src);
        return;
      }
      dst, src := NextEntity(t, s, b, dst, src, i);
    }
    r := b[..dst];
    assert s[src..] == [] && r + [] == r;
  }

  /** UnescapeString: two cursors over one buffer give the substitution on the immutable string. */
  method UnescapeString(t: Tables, s: Bytes) returns (r: Bytes)
    requires TablesOk(t)
    ensures r == Unescaped(t, s)
  {
    var i := NextAmp(s, 0);
    if i < 0 {
      assert s[0..] == s;
      PlainPrefix(t, s, []);
      assert s + [] == s;
      return s;
    }
    var b := new Byte[|s|](k requires 0 <= k < |s| => s[k]);
    assert b[..] == s && s[..i] == s[0..0 + i];
    var dst, src := FirstEntity(t, s, b, i);
    r := UnescapeRest(t, s, b, dst, src);
  }
}
