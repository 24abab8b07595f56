/** The two-word shifts of src/math/fma.go and the value they compute. */
module WideShifts {
  import opened Scaling
  import opened Words

  function Value(u: (u64, u64)): nat { 0x1_0000_0000_0000_0000 * u.0 + u.1 }

  function ShlPair(u1: u64, u2: u64, n: u64): (r: (u64, u64))
  {
    (Or64(Or64(Shl(u1, n), Shr(u2, Sub(64, n))), Shl(u2, Sub(n, 64))), Shl(u2, n))
  }

  function ShrPair(u1: u64, u2: u64, n: u64): (r: (u64, u64))
  {
    (Shr(u1, n), Or64(Or64(Shr(u2, n), Shl(u1, Sub(64, n))), Shr(u1, Sub(n, 64))))
  }

  function ShrCompress(u1: u64, u2: u64, n: u64): (r: (u64, u64))
  {
    if n == 0 then (u1, u2)
    else if n == 64 then (0, Or64(u1, Nonzero(u2)))
    else if n >= 128 then (0, Nonzero(Or64(u1, u2)))
    else if n < 64 then
      var r := ShrPair(u1, u2, n);
      (r.0, Or64(r.1, Nonzero(And64(u2, LowMask(n)))))
    else
      var r := ShrPair(u1, u2, n);
      (r.0, Or64(r.1, Nonzero(Or64(And64(u1, LowMask(n - 64)), u2))))
  }

  function LeadingZerosPair(u1: u64, u2: u64): nat
  {
    var l := LeadingZeros(u1);
    if l == 64 then l + LeadingZeros(u2) else l
  }

  /**
   * c stands for x divided by two to the n with everything below bit 1 squeezed
   * into bit 0: an even c is exact, an odd c says only that the quotient lies
   * strictly between its two even neighbours.
   */
  ghost predicate Compressed(x: nat, n: nat, c: nat)
  {
    if c % 2 == 0 then x == Scale(c, n)
    else Scale(c - 1, n) < x < Scale(c + 1, n)
  }

  /** ShlPair multiplies by a power of two when nothing falls off the top. */
  lemma ShlPairValue(u1: u64, u2: u64, n: u64)
    requires Scale(Value((u1, u2)), n) < 0x1_0000_0000_0000_0000_0000_0000_0000_0000
    ensures Value(ShlPair(u1, u2, n)) == Scale(Value((u1, u2)), n)
  {
    ScaleOfValue(u1, u2, n);
    if n == 0 {
      ShlPairZero(u1, u2, n);
    } else if n < 64 {
      ShlPairBelow(u1, u2, n);
    } else if n >= 128 {
      BelowTwo128(n);
      ScaleOrder(1, Value((u1, u2)), n);
      ScaleOrder(Value((u1, u2)), 1, n);
      assert u1 == u2 == 0;
      NothingShifted(n);
    } else {
      ScaleOfHigh(u1, u2, n - 64);
      ShlPairWide(u2, n - 64);
    }
  }

  lemma ShlPairBelow(u1: u64, u2: u64, n: nat)
    requires 0 < n < 64
    requires 0x1_0000_0000_0000_0000 * Scale(u1, n) + Scale(u2, n) < 0x1_0000_0000_0000_0000_0000_0000_0000_0000
    ensures Value(ShlPair(u1, u2, n)) == 0x1_0000_0000_0000_0000 * Scale(u1, n) + Scale(u2, n)
  {
    ShlPairNarrow(u1, u2, n);
    ShlShr(u1, n);
    ShlShr(u2, n);
    NothingOnTop(Halve(u1, 64 - n), Shl(u1, n), Halve(u2, 64 - n), Shl(u2, n));
  }

  lemma NothingOnTop(top: nat, a: nat, b: nat, c: nat)
    requires 0x1_0000_0000_0000_0000 * (0x1_0000_0000_0000_0000 * top + a) + (0x1_0000_0000_0000_0000 * b + c)
             < 0x1_0000_0000_0000_0000_0000_0000_0000_0000
    ensures top == 0
  {
  }

  lemma NothingShifted(n: u64)
    requires n >= 128
    ensures ShlPair(0, 0, n) == (0, 0)
  {
    assert Shl(0, n) == 0 && Shr(0, Sub(64, n)) == 0 && Shl(0, Sub(n, 64)) == 0;
    OrZero(0);
  }

  lemma ScaleOfValue(u1: u64, u2: u64, n: nat)
    ensures Scale(Value((u1, u2)), n) == 0x1_0000_0000_0000_0000 * Scale(u1, n) + Scale(u2, n)
  {
    ScaleAdd(0x1_0000_0000_0000_0000 * u1, u2, n);
    ScaleWord(u1, n);
  }

  lemma ShlPairZero(u1: u64, u2: u64, n: nat)
    requires n == 0
    ensures ShlPair(u1, u2, n) == (u1, u2)
  {
    assert Shl(u1, n) == u1;
    assert Shr(u2, Sub(64, n)) == 0;
    assert Shl(u2, Sub(n, 64)) == 0;
    assert ShlPair(u1, u2, n) == (Or64(Or64(u1, 0), 0), u2);
    OrZero(u1);
  }

  lemma ShlPairNarrow(u1: u64, u2: u64, n: nat)
    requires 0 < n < 64
    ensures ShlPair(u1, u2, n) == (Shl(u1, n) + Halve(u2, 64 - n), Shl(u2, n))
  {
    assert ShlPair(u1, u2, n) == (Or64(Or64(Shl(u1, n), Shr(u2, 64 - n)), 0), Shl(u2, n));
    OrZero(Or64(Shl(u1, n), Shr(u2, 64 - n)));
    assert Or64(Shl(u1, n), Shr(u2, 64 - n)) == Shl(u1, n) + Halve(u2, 64 - n) by {
      ShlShr(u1, n);
      ShlShr(u2, n);
      OrDisjoint(Low(u1, 64 - n), Halve(u2, 64 - n), n);
    }
  }

  lemma ScaleOfHigh(u1: u64, u2: u64, m: nat)
    requires 0x1_0000_0000_0000_0000 * Scale(u1, m + 64) + Scale(u2, m + 64) < 0x1_0000_0000_0000_0000_0000_0000_0000_0000
    ensures u1 == 0 && Scale(u1, m + 64) == 0
    ensures Scale(u2, m + 64) == 0x1_0000_0000_0000_0000 * Scale(u2, m)
    ensures Scale(u2, m) < 0x1_0000_0000_0000_0000
  {
    ScaleScale(u1, m, 64);
    ScaleScale(u2, m, 64);
    ScaleBy64(Scale(u1, m));
    ScaleBy64(Scale(u2, m));
    ScaleOrder(0, u1, m);
  }

  lemma ShlPairWide(u2: u64, m: nat)
    requires m < 64 && Scale(u2, m) < 0x1_0000_0000_0000_0000
    ensures ShlPair(0, u2, m + 64) == (Scale(u2, m), 0)
  {
    var n := m + 64;
    var high, low := Shl(u2, Sub(n, 64)), Shr(u2, Sub(64, n));
    assert Shl(0, n) == 0 && Shl(u2, n) == 0 && high == Scale(u2, m);
    assert ShlPair(0, u2, n) == (Or64(Or64(0, low), high), 0);
    assert low == if m == 0 then u2 else 0;
    OrZero(low);
    OrZero(high);
    OrSelf(u2);
  }

  lemma ScaleWord(x: nat, n: nat)
    ensures Scale(0x1_0000_0000_0000_0000 * x, n) == 0x1_0000_0000_0000_0000 * Scale(x, n)
  {
    ScaleBy64(x);
    ScaleBy64(Scale(x, n));
    ScaleScale(x, 64, n);
    ScaleScale(x, n, 64);
  }

  /** ShrPair divides by a power of two and drops the low bits, for every count. */
  lemma ShrPairValue(u1: u64, u2: u64, n: u64)
    ensures Value(ShrPair(u1, u2, n)) == Halve(Value((u1, u2)), n)
  {
    if n == 0 {
      ShrPairZero(u1, u2, n);
    } else if n == 64 {
      ShrPairWord(u1, u2, n);
      ScaleBy64(u1);
      ScaleBy64(1);
      CutUnique(u1, u2, n);
    } else if n < 128 {
      var rem := ShrPairParted(u1, u2, n);
      CutUnique(Value(ShrPair(u1, u2, n)), rem, n);
    } else {
      NothingLeft(u1, u2, n);
      BelowTwo128(n);
      CutUnique(0, Value((u1, u2)), n);
    }
  }

  lemma ShrPairZero(u1: u64, u2: u64, n: u64)
    requires n == 0
    ensures ShrPair(u1, u2, n) == (u1, u2)
  {
    assert Shl(u1, Sub(64, n)) == 0 && Shr(u1, Sub(n, 64)) == 0 && Shr(u1, n) == u1 && Shr(u2, n) == u2;
    assert ShrPair(u1, u2, n) == (u1, Or64(Or64(u2, 0), 0));
    OrZero(u2);
  }

  lemma ShrPairWord(u1: u64, u2: u64, n: u64)
    requires n == 64
    ensures ShrPair(u1, u2, n) == (0, u1)
  {
    var none := Sub(64, n);
    assert Shl(u1, none) == u1 && Shr(u1, none) == u1 && Shr(u1, n) == 0 && Shr(u2, n) == 0;
    assert ShrPair(u1, u2, n) == (0, Or64(Or64(0, u1), u1));
    OrZero(u1);
    OrSelf(u1);
  }

  lemma NothingLeft(u1: u64, u2: u64, n: u64)
    requires n >= 128
    ensures ShrPair(u1, u2, n) == (0, 0)
  {
    assert Shl(u1, Sub(64, n)) == 0 && Shr(u1, Sub(n, 64)) == 0 && Shr(u1, n) == 0 && Shr(u2, n) == 0;
    OrZero(0);
  }

  lemma BelowTwo128(n: nat)
    requires n >= 128
    ensures Scale(1, n) >= 0x1_0000_0000_0000_0000_0000_0000_0000_0000 && Scale(0, n) == 0
  {
    ScaleBy64(1);
    ScaleScale(1, 64, 64);
    ScaleBy64(Scale(1, 64));
    ScaleGrows(1, 128, n);
    ScaleOrder(0, 1, n);
  }

  /** The quotient and what is dropped. */
  lemma ShrPairParted(u1: u64, u2: u64, n: nat) returns (rem: nat)
    requires 0 < n < 128 && n != 64
    ensures Value((u1, u2)) == Scale(Value(ShrPair(u1, u2, n)), n) + rem
    ensures rem == if n < 64 then Low(u2, n) else 0x1_0000_0000_0000_0000 * Low(u1, n - 64) + u2
    ensures rem < Scale(1, n)
  {
    if n < 64 {
      rem := Low(u2, n);
      Cut(u2, n);
      ShrPairNarrow(u1, u2, n);
    } else {
      rem := 0x1_0000_0000_0000_0000 * Low(u1, n - 64) + u2;
      ShrPairWide(u1, u2, n - 64);
    }
  }

  lemma ShrPairNarrow(u1: u64, u2: u64, n: nat)
    requires 0 < n < 64
    ensures Value((u1, u2)) == Scale(Value(ShrPair(u1, u2, n)), n) + Low(u2, n)
  {
    var m := 64 - n;
    var a, b, c := Halve(u1, n), Low(u1, n), Halve(u2, n);
    ShrPairParts(u1, u2, n);
    ScaleOfValue(a, Scale(b, m) + c, n);
    ScaleAdd(Scale(b, m), c, n);
    ScaleScale(b, m, n);
    ScaleBy64(b);
    Cut(u1, n);
    Cut(u2, n);
  }

  lemma ShrPairParts(u1: u64, u2: u64, n: nat)
    requires 0 < n < 64
    ensures ShrPair(u1, u2, n) == (Halve(u1, n), Scale(Low(u1, n), 64 - n) + Halve(u2, n))
  {
    var m := 64 - n;
    assert ShrPair(u1, u2, n) == (Halve(u1, n), Or64(Or64(Shr(u2, n), Shl(u1, m)), 0));
    OrZero(Or64(Shr(u2, n), Shl(u1, m)));
    assert Or64(Shr(u2, n), Shl(u1, m)) == Scale(Low(u1, n), m) + Halve(u2, n) by {
      ShlShr(u1, m);
      ShlShr(u2, m);
      OrCommutes(Halve(u2, n), Scale(Low(u1, n), m));
      OrDisjoint(Low(u1, n), Halve(u2, n), m);
    }
  }

  lemma ShrPairWide(u1: u64, u2: u64, m: nat)
    requires 0 < m < 64
    ensures Value((u1, u2)) == Scale(Value(ShrPair(u1, u2, m + 64)), m + 64) + (0x1_0000_0000_0000_0000 * Low(u1, m) + u2)
    ensures 0x1_0000_0000_0000_0000 * Low(u1, m) + u2 < Scale(1, m + 64)
  {
    var a := Halve(u1, m);
    assert ShrPair(u1, u2, m + 64) == (0, a) by {
      assert ShrPair(u1, u2, m + 64) == (0, Or64(Or64(0, 0), Shr(u1, m)));
      OrZero(0);
      OrZero(a);
    }
    Cut(u1, m);
    ScaleScale(a, m, 64);
    ScaleBy64(Scale(a, m));
    ScaleScale(1, m, 64);
    ScaleBy64(Scale(1, m));
  }

  /** A quotient with a sticky bit or'd into bit 0 is a compressed value. */
  lemma QuotientCompressed(x: nat, n: nat, q: nat, rem: nat, c: nat)
    requires x == Scale(q, n) + rem && rem < Scale(1, n)
    requires c == if rem == 0 then q else q - q % 2 + 1
    ensures Compressed(x, n, c)
  {
    ScaleAdd(q, 1, n);
    if c % 2 == 1 {
      ScaleOrder(q + 1, c + 1, n);
      ScaleOrder(c - 1, q, n);
    }
  }

  /** shrcompress does what its comment promises, for every shift count. */
  lemma ShrCompressValue(u1: u64, u2: u64, n: u64)
    ensures Compressed(Value((u1, u2)), n, Value(ShrCompress(u1, u2, n)))
  {
    var x := Value((u1, u2));
    var r := ShrCompress(u1, u2, n);
    if n == 0 {
      ScaleOrder(0, 1, 0);
      QuotientCompressed(x, 0, x, 0, x);
    } else if n == 64 {
      OrBit(u1, Nonzero(u2));
      ScaleBy64(u1);
      ScaleBy64(1);
      QuotientCompressed(x, 64, u1, u2, r.1);
    } else if n >= 128 {
      OrIsZero(u1, u2);
      BelowTwo128(n);
      QuotientCompressed(x, n, 0, x, r.1);
    } else {
      ShrCompressMiddle(u1, u2, n);
    }
  }

  lemma ShrCompressMiddle(u1: u64, u2: u64, n: u64)
    requires 0 < n < 128 && n != 64
    ensures Compressed(Value((u1, u2)), n, Value(ShrCompress(u1, u2, n)))
  {
    var rem := ShrPairParted(u1, u2, n);
    var s, r := ShrPair(u1, u2, n), ShrCompress(u1, u2, n);
    var sticky := if rem == 0 then 0 else 1;
    if n < 64 { StickyNarrow(u1, u2, n); } else { StickyWide(u1, u2, n); }
    assert r == (s.0, Or64(s.1, sticky));
    LowestBitSet(s, sticky);
    QuotientCompressed(Value((u1, u2)), n, Value(s), rem, Value(r));
  }

  lemma LowestBitSet(s: (u64, u64), bit: u64)
    requires bit <= 1
    ensures Value((s.0, Or64(s.1, bit))) == if bit == 0 then Value(s) else Value(s) - Value(s) % 2 + 1
  {
    OrBit(s.1, bit);
  }

  /** The sticky bit is set exactly if something is dropped. */
  lemma StickyNarrow(u1: u64, u2: u64, n: u64)
    requires 0 < n < 64
    ensures var s := ShrPair(u1, u2, n); ShrCompress(u1, u2, n) == (s.0, Or64(s.1, if Low(u2, n) == 0 then 0 else 1))
  {
    AndMask(u2, n);
  }

  lemma StickyWide(u1: u64, u2: u64, n: u64)
    requires 64 < n < 128
    ensures var s := ShrPair(u1, u2, n);
            ShrCompress(u1, u2, n) ==
            (s.0, Or64(s.1, if 0x1_0000_0000_0000_0000 * Low(u1, n - 64) + u2 == 0 then 0 else 1))
  {
    AndMask(u1, n - 64);
    OrIsZero(And64(u1, LowMask(n - 64)), u2);
  }

  /** The leading zeros of a pair place its value between two powers of two. */
  lemma LeadingZerosPairValue(u1: u64, u2: u64)
    ensures var nz, x := LeadingZerosPair(u1, u2), Value((u1, u2));
            nz <= 128 && (x == 0 <==> nz == 128) &&
            (x > 0 ==> Scale(1, 127 - nz) <= x < Scale(1, 128 - nz))
  {
    if u1 > 0 {
      var l := LeadingZeros(u1);
      OneWordUp(63 - l);
      OneWordUp(64 - l);
    }
  }

  lemma OneWordUp(n: nat)
    ensures Scale(1, n + 64) == 0x1_0000_0000_0000_0000 * Scale(1, n)
  {
    ScaleScale(1, n, 64);
    ScaleBy64(Scale(1, n));
  }

  // ---------- laws of compression ----------

  /** Compressing in two steps is compressing once. */
  lemma CompressedTwice(x: nat, a: nat, c: nat, b: nat, d: nat)
    requires Compressed(x, a, c) && Compressed(c, b, d)
    ensures Compressed(x, a + b, d)
  {
    if d % 2 == 0 {
      ScaleKeepsEven(d, b);
      ScaleScale(d, b, a);
    } else {
      var lo, hi := Scale(d - 1, b), Scale(d + 1, b);
      ScaleKeepsEven(d - 1, b);
      ScaleKeepsEven(d + 1, b);
      ScaleScale(d - 1, b, a);
      ScaleScale(d + 1, b, a);
      BetweenEven(x, a, c, lo, hi);
    }
  }

  lemma BetweenEven(x: nat, n: nat, c: nat, lo: int, hi: int)
    requires Compressed(x, n, c) && lo < c < hi && lo % 2 == 0 && hi % 2 == 0
    ensures Scale(lo, n) < x < Scale(hi, n)
  {
    if c % 2 == 0 {
      ScaleOrder(lo, c, n);
      ScaleOrder(c, hi, n);
    } else {
      ScaleOrder(lo, c - 1, n);
      ScaleOrder(c + 1, hi, n);
    }
  }

  lemma {:induction false} ScaleKeepsEven(x: int, n: nat)
    requires x % 2 == 0 || n > 0
    ensures Scale(x, n) % 2 == 0
  {
  }

  /** Scaling the value and the shift together changes nothing. */
  lemma CompressedScaled(x: nat, n: nat, c: nat, k: nat)
    ensures Compressed(x, n, c) <==> Compressed(Scale(x, k), n + k, c)
  {
    ScaleScale(c, n, k);
    ScaleScale(c - 1, n, k);
    ScaleScale(c + 1, n, k);
    ScaleOrder(x, Scale(c, n), k);
    ScaleOrder(Scale(c - 1, n), x, k);
    ScaleOrder(x, Scale(c + 1, n), k);
  }

  /** A value with no bits below n compresses to the exact quotient. */
  lemma CompressedExact(q: nat, n: nat, c: nat)
    ensures Compressed(Scale(q, n), n, c) <==> c == q
  {
    ScaleOrder(c, q, n);
    ScaleOrder(c - 1, q, n);
    ScaleOrder(q, c + 1, n);
  }
}
