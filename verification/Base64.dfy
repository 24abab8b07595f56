/**
 * The standard base64 encoding with padding (RFC 4648 section 4) as
 * src/encoding/base64/base64.go implements it.
 */
module Base64 {
  import opened Wrappers
  import opened Text

  const PAD: Byte := 61

  /** The character for a 6-bit value. */
  function Letter(v: nat): (b: Byte)
    requires v < 64
    ensures Value(b) == Some(v) && b != PAD && b != LF && b != CR
  {
    if v < 26 then 65 + v else if v < 52 then 71 + v else if v < 62 then v - 4 else if v == 62 then 43 else 47
  }

  function Value(b: Byte): Option<nat>
  {
    if 65 <= b <= 90 then Some(b - 65)
    else if 97 <= b <= 122 then Some(b - 71)
    else if 48 <= b <= 57 then Some(b + 4)
    else if b == 43 then Some(62)
    else if b == 47 then Some(63)
    else None
  }

  function EncodedLen(n: nat): nat { (n + 2) / 3 * 4 }

  function DecodedLen(n: nat): nat { n / 4 * 3 }

  /** The characters for three bytes. */
  function Four(x: Byte, y: Byte, z: Byte): (t: Bytes)
    ensures |t| == 4
  {
    [Letter(x / 4), Letter(x % 4 * 16 + y / 16), Letter(y % 16 * 4 + z / 64), Letter(z % 64)]
  }

  function Two(x: Byte, y: Byte): (t: Bytes)
    ensures |t| == 4
  {
    [Letter(x / 4), Letter(x % 4 * 16 + y / 16), Letter(y % 16 * 4), PAD]
  }

  function One(x: Byte): (t: Bytes)
    ensures |t| == 4
  {
    [Letter(x / 4), Letter(x % 4 * 16), PAD, PAD]
  }

  function Encode(s: Bytes): (t: Bytes)
    ensures |t| == EncodedLen(|s|)
  {
    if |s| == 0 then []
    else if |s| == 1 then One(s[0])
    else if |s| == 2 then Two(s[0], s[1])
    else
      Four(s[0], s[1], s[2]) + Encode(s[3..])
  }

  /** RFC 4648, table 1: the capitals, the small letters, the digits, + and /. */
  predicate IsLetter(b: Byte, v: int)
  {
    (65 <= b <= 90 && v == b - 65) || (97 <= b <= 122 && v == b - 97 + 26) || (48 <= b <= 57 && v == b - 48 + 52) ||
    (b == 43 && v == 62) || (b == 47 && v == 63)
  }

  lemma LetterIs(v: nat)
    requires v < 64
    ensures IsLetter(Letter(v), v)
  {
  }

  predicate Spells(t: Bytes, bytes: nat, a: int, b: int, c: int, d: int)
  {
    |t| == 4 && IsLetter(t[0], a) && IsLetter(t[1], b) &&
    (if bytes > 1 then IsLetter(t[2], c) else t[2] == PAD && c == 0) &&
    if bytes > 2 then IsLetter(t[3], d) else t[3] == PAD && d == 0
  }

  /** Four characters that stand for 24 bits, padded for fewer than three bytes. */
  ghost predicate Group(t: Bytes, bytes: nat, bits: int)
  {
    exists a, b, c, d :: Spells(t, bytes, a, b, c, d) && bits == a * 262144 + b * 4096 + c * 64 + d
  }

  function ThreeBytes(x: int, y: int, z: int): int { x * 65536 + y * 256 + z }

  /** The bytes of s from 3 * i on, at most three, and zeros after them, most significant first. */
  function BitsAt(s: Bytes, i: nat): int
    requires 3 * i < |s|
  {
    ThreeBytes(s[3 * i], if 3 * i + 1 < |s| then s[3 * i + 1] else 0, if 3 * i + 2 < |s| then s[3 * i + 2] else 0)
  }

  lemma FirstGroup(s: Bytes)
    requires s != []
    ensures |Encode(s)| >= 4 && Group(Encode(s)[..4], |s|, BitsAt(s, 0))
  {
    var x, y: Byte, z: Byte := s[0], if |s| > 1 then s[1] else 0, if |s| > 2 then s[2] else 0;
    SixBits(x, y);
    FourBits(y, z);
    Regrouped(x, y, z);
    GroupOf(Encode(s)[..4], |s|, x / 4, x % 4 * 16 + y / 16, y % 16 * 4 + z / 64, z % 64);
  }

  lemma GroupOf(t: Bytes, bytes: nat, a: nat, b: nat, c: nat, d: nat)
    requires bytes > 0 && a < 64 && b < 64 && c < 64 && d < 64 && (bytes <= 1 ==> c == 0) && (bytes <= 2 ==> d == 0)
    requires t == [Letter(a), Letter(b), if bytes > 1 then Letter(c) else PAD, if bytes > 2 then Letter(d) else PAD]
    ensures Group(t, bytes, a * 262144 + b * 4096 + c * 64 + d)
  {
    LetterIs(a);
    LetterIs(b);
    LetterIs(c);
    LetterIs(d);
    assert Spells(t, bytes, a, b, c, d);
  }

  lemma Regrouped(x: Byte, y: Byte, z: Byte)
    ensures x / 4 * 262144 + (x % 4 * 16 + y / 16) * 4096 + (y % 16 * 4 + z / 64) * 64 + z % 64 == ThreeBytes(x, y, z)
  {
    assert x == x / 4 * 4 + x % 4 && y == y / 16 * 16 + y % 16 && z == z / 64 * 64 + z % 64;
  }

  lemma SameGroup(t: Bytes, rest: Bytes, i: nat)
    requires i > 0 && |t| >= 4 && t[4..] == rest && 4 * i <= |rest|
    ensures 4 * i + 4 <= |t| && t[4 * i..4 * i + 4] == rest[4 * (i - 1)..4 * (i - 1) + 4]
  {
    assert t == t[..4] + rest;
  }

  lemma SameBits(s: Bytes, i: nat)
    requires i > 0 && 3 * i < |s|
    ensures BitsAt(s[3..], i - 1) == BitsAt(s, i)
  {
  }

  /** Each group of four characters stands for the 24 bits of three bytes of s. */
  lemma {:induction false} EncodeMeans(s: Bytes, i: nat)
    requires 3 * i < |s|
    ensures 4 * i + 4 <= |Encode(s)| && Group(Encode(s)[4 * i..4 * i + 4], |s| - 3 * i, BitsAt(s, i))
  {
    if i == 0 {
      FirstGroup(s);
    } else {
      EncodeMeans(s[3..], i - 1);
      SameGroup(Encode(s), Encode(s[3..]), i);
      SameBits(s, i);
    }
  }

  /** Newlines anywhere in the input are skipped. */
  function StripNewlines(t: Bytes): Bytes
  {
    if t == [] then []
    else if t[0] == LF || t[0] == CR then StripNewlines(t[1..])
    else [t[0]] + StripNewlines(t[1..])
  }

  /** The 6-bit value of a character, if it has one. */
  predicate HasValue(b: Byte) { Value(b).Some? && Value(b).value < 64 }

  /** The one to three bytes of a quantum of four characters. */
  function Quantum(a: Byte, b: Byte, c: Byte, d: Byte): Option<Bytes>
  {
    if !HasValue(a) || !HasValue(b) then None
    else
      var b0 := Value(a).value * 4 + Value(b).value / 16;
      if c == PAD then
        if d == PAD then Some([b0]) else None
      else if !HasValue(c) then None
      else
        var b1 := Value(b).value % 16 * 16 + Value(c).value / 4;
        if d == PAD then Some([b0, b1])
        else if !HasValue(d) then None
        else Some([b0, b1, Value(c).value % 4 * 64 + Value(d).value])
  }

  /** Whole quanta of four characters; a padded one only at the very end. */
  function DecodeQuanta(t: Bytes): Option<Bytes>
  {
    if t == [] then Some([])
    else if |t| < 4 then None
    else
      var q := Quantum(t[0], t[1], t[2], t[3]);
      if q.None? then None
      else if |q.value| < 3 then
        if |t| == 4 then q else None
      else Prepend(q.value, DecodeQuanta(t[4..]))
  }

  /** StdEncoding.DecodeString. */
  function Decode(t: Bytes): Option<Bytes> { DecodeQuanta(StripNewlines(t)) }

  predicate IsText(t: Bytes)
  {
    forall i :: 0 <= i < |t| ==> Value(t[i]).Some? || t[i] == PAD
  }

  lemma {:induction false} EncodeIsText(s: Bytes)
    ensures IsText(Encode(s))
  {
    if |s| > 2 { EncodeIsText(s[3..]); }
  }

  lemma {:induction false} StripText(t: Bytes)
    requires IsText(t)
    ensures StripNewlines(t) == t
  {
    if t != [] { StripText(t[1..]); }
  }

  lemma SixBits(x: Byte, y: Byte)
    ensures x / 4 < 64 && x % 4 * 16 + y / 16 < 64
    ensures (x % 4 * 16 + y / 16) / 16 == x % 4 && (x % 4 * 16 + y / 16) % 16 == y / 16
  {
  }

  lemma FourBits(y: Byte, z: Byte)
    ensures y % 16 * 4 + z / 64 < 64
    ensures (y % 16 * 4 + z / 64) / 4 == y % 16 && (y % 16 * 4 + z / 64) % 4 == z / 64
  {
  }

  /** Four characters give back the three bytes they were made from. */
  lemma QuantumRoundTrip(x: Byte, y: Byte, z: Byte)
    ensures var t := Four(x, y, z); Quantum(t[0], t[1], t[2], t[3]) == Some([x, y, z])
  {
    SixBits(x, y);
    FourBits(y, z);
  }

  lemma OneByte(x: Byte)
    ensures var t := One(x); Quantum(t[0], t[1], t[2], t[3]) == Some([x])
  {
  }

  lemma TwoBytes(x: Byte, y: Byte)
    ensures var t := Two(x, y); Quantum(t[0], t[1], t[2], t[3]) == Some([x, y])
  {
    SixBits(x, y);
  }

  lemma LastQuantum(t: Bytes, q: Bytes)
    requires |t| == 4 && Quantum(t[0], t[1], t[2], t[3]) == Some(q) && |q| < 3
    ensures DecodeQuanta(t) == Some(q)
  {
  }

  lemma QuantumThenRest(x: Byte, y: Byte, z: Byte, rest: Bytes)
    ensures DecodeQuanta(Four(x, y, z) + rest) == Prepend([x, y, z], DecodeQuanta(rest))
  {
    QuantumRoundTrip(x, y, z);
    Cut(Four(x, y, z), rest);
  }

  lemma {:induction false} QuantaRoundTrip(s: Bytes)
    ensures DecodeQuanta(Encode(s)) == Some(s)
  {
    if s == [] {
    } else if |s| == 1 {
      OneByte(s[0]);
      LastQuantum(One(s[0]), [s[0]]);
      assert s == [s[0]];
    } else if |s| == 2 {
      TwoBytes(s[0], s[1]);
      LastQuantum(Two(s[0], s[1]), [s[0], s[1]]);
      assert s == [s[0], s[1]];
    } else {
      QuantaRoundTrip(s[3..]);
      OneMoreQuantum(s, s[3..]);
    }
  }

  lemma OneMoreQuantum(s: Bytes, rest: Bytes)
    requires |s| >= 3 && rest == s[3..] && DecodeQuanta(Encode(rest)) == Some(rest)
    ensures DecodeQuanta(Encode(s)) == Some(s)
  {
    QuantumThenRest(s[0], s[1], s[2], Encode(rest));
    assert s == [s[0], s[1], s[2]] + rest;
  }

  lemma RoundTrip(s: Bytes)
    ensures Decode(Encode(s)) == Some(s)
  {
    EncodeIsText(s);
    StripText(Encode(s));
    QuantaRoundTrip(s);
  }

  lemma {:induction false} StrippedWithin(t: Bytes)
    ensures |StripNewlines(t)| <= |t|
  {
    if t != [] { StrippedWithin(t[1..]); }
  }

  lemma {:induction false} QuantaWithin(t: Bytes)
    ensures DecodeQuanta(t).Some? ==> |DecodeQuanta(t).value| <= |t|
  {
    if |t| >= 4 { QuantaWithin(t[4..]); }
  }

  /** Decoding does not make text longer. */
  lemma DecodedWithin(t: Bytes)
    ensures Decode(t).Some? ==> |Decode(t).value| <= |t|
  {
    StrippedWithin(t);
    QuantaWithin(StripNewlines(t));
  }
}
