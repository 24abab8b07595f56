/**
 * The software fused multiply-add of src/math/fma.go, proved correctly rounded
 * (IEEE 754-2008, section 5.4.1) on every operand it handles itself.
 */
module Fma {
  import opened Scaling
  import opened Words
  import opened WideShifts
  import opened Binary64
  import opened RoundToGrid

  /** Double-word product, sum and difference of math/bits. */
  function Mul64(a: u64, b: u64): (u64, u64)
  {
    ProductBound(a, b);
    (a * b / 0x1_0000_0000_0000_0000, a * b % 0x1_0000_0000_0000_0000)
  }

  lemma ProductBound(a: u64, b: u64)
    ensures 0 <= a * b / 0x1_0000_0000_0000_0000 < 0x1_0000_0000_0000_0000
  {
    assert a * b <= a * 0xFFFF_FFFF_FFFF_FFFF;
  }

  function Add64(a: u64, b: u64, c: u64): (u64, u64)
    requires c <= 1
  {
    var sum := a + b + c;
    if sum < 0x1_0000_0000_0000_0000 then (sum, 0) else (sum - 0x1_0000_0000_0000_0000, 1)
  }

  function Sub64(a: u64, b: u64, c: u64): (u64, u64)
    requires c <= 1
  {
    if a < b + c then (0x1_0000_0000_0000_0000 + a - b - c, 1) else (a - b - c, 0)
  }

  /** A double taken apart: sign, biased exponent, mantissa. */
  datatype Parts = Parts(sign: u64, exp: int, mant: u64)

  /** split: the mantissa gets its leading bit, and a subnormal is normalised. */
  function Split(b: u64): (r: Parts)
  {
    var exp, mantissa := Abs(b) / 0x10_0000_0000_0000, b % 0x10_0000_0000_0000;
    if exp == 0 then
      FractionLeadingZeros(mantissa);
      var shift := LeadingZeros(mantissa) - 11;
      Parts(Sign(b), 1 - shift, Shl(mantissa, shift))
    else
      Parts(Sign(b), exp, Or64(mantissa, 0x10_0000_0000_0000))
  }

  lemma FractionLeadingZeros(f: u64)
    requires f < 0x10_0000_0000_0000
    ensures LeadingZeros(f) >= 12
  {
    if f > 0 { PowerOrder(f, 64 - LeadingZeros(f)); }
  }

  lemma PowerOrder(f: nat, n: nat)
    requires n > 0 && Scale(1, n - 1) <= f < 0x10_0000_0000_0000
    ensures n <= 52
  {
    Constants(1);
    if n > 52 { ScaleGrows(1, 52, n - 1); }
  }

  /** What split returns: 53 significant bits, scaled to the operand's magnitude. */
  lemma SplitValue(b: u64)
    requires IsFinite(b) && !IsZero(b)
    ensures var r := Split(b);
            r.sign == Sign(b) && -51 <= r.exp <= 2046 &&
            0x10_0000_0000_0000 <= r.mant < 0x20_0000_0000_0000 &&
            Scale(Mag(Abs(b)), 52) == Scale(r.mant, r.exp + 51)
  {
    var exp, mantissa := Abs(b) / 0x10_0000_0000_0000, b % 0x10_0000_0000_0000;
    assert Abs(b) == 0x10_0000_0000_0000 * exp + mantissa;
    MagOf(exp, mantissa);
    if exp == 0 {
      FractionLeadingZeros(mantissa);
      SplitSubnormal(mantissa, LeadingZeros(mantissa));
    } else {
      ImplicitBit(mantissa, 52);
      ScaleScale(0x10_0000_0000_0000 + mantissa, exp - 1, 52);
    }
  }

  lemma ImplicitBit(f: u64, n: nat)
    requires n == 52 && f < 0x10_0000_0000_0000
    ensures Or64(f, 0x10_0000_0000_0000) == 0x10_0000_0000_0000 + f
  {
    Constants(1);
    OrDisjoint(1, f, n);
    OrCommutes(f, 0x10_0000_0000_0000);
  }

  lemma SplitSubnormal(f: u64, lz: nat)
    requires 0 < f < 0x10_0000_0000_0000 && lz == LeadingZeros(f) >= 12
    ensures Shl(f, lz - 11) == Scale(f, lz - 11)
    ensures 0x10_0000_0000_0000 <= Scale(f, lz - 11) < 0x20_0000_0000_0000
    ensures Scale(Scale(f, lz - 11), 1 - (lz - 11) + 51) == Scale(f, 52)
  {
    ScaleScale(1, 63 - lz, lz - 11);
    ScaleScale(1, 64 - lz, lz - 11);
    ScaleOrder(Scale(1, 63 - lz), f, lz - 11);
    ScaleOrder(f, Scale(1, 63 - lz), lz - 11);
    ScaleOrder(f, Scale(1, 64 - lz), lz - 11);
    Constants(1);
    ScaleScale(f, lz - 11, 1 - (lz - 11) + 51);
  }

  // ---------- the exact value behind a significand and exponent ----------

  /** Exponents are offset so that every scale factor is a whole number. */
  const OFFSET: int := 1500

  /**
   * The significand p on exponent e is the exact natural number v, where one
   * unit of v is two to the -2148, the product of two smallest subnormals.
   */
  ghost predicate Represents(v: nat, e: int, p: nat)
  {
    e + OFFSET >= 0 && Scale(v, 501) == Scale(p, e + OFFSET)
  }

  /** A normalised operand: leading bit in place and the low bits clear. */
  ghost predicate Operand(v: nat, e: int, p: nat)
  {
    -1200 <= e <= 3200 && Represents(v, e, p) &&
    0x4000_0000_0000_0000_0000_0000_0000_0000 <= p < 0x8000_0000_0000_0000_0000_0000_0000_0000 &&
    p % 0x20_0000 == 0
  }

  /** The significand s on exponent e is v with a sticky bit. */
  ghost predicate Approximates(v: nat, e: int, s: nat)
  {
    e + OFFSET >= 0 && Compressed(Scale(v, 501), e + OFFSET, s)
  }

  /** The product's significand, normalised so that bit 126 is its top bit. */
  lemma ProductOperand(x: u64, y: u64, p: (u64, u64), t: nat)
    requires IsFinite(x) && !IsZero(x) && IsFinite(y) && !IsZero(y)
    requires Value(p) == 0x20_0000 * (Split(x).mant * Split(y).mant)
    requires t == if p.0 >= 0x4000_0000_0000_0000 then 0 else 1
    ensures p.0 < 0x8000_0000_0000_0000
    ensures Operand(Product(x, y), Split(x).exp + Split(y).exp - 1022 - t, Scale(Value(p), t))
  {
    var a, b := Split(x), Split(y);
    SplitValue(x);
    SplitValue(y);
    var q := a.mant * b.mant;
    ProductRange(a.mant, b.mant);
    ProductExact(x, y);
    ProductScale(q, t, a.exp + b.exp - 1022 - t + OFFSET, 21);
  }

  lemma ProductExact(x: u64, y: u64)
    requires IsFinite(x) && !IsZero(x) && IsFinite(y) && !IsZero(y)
    ensures var a, b := Split(x), Split(y);
            a.exp + b.exp + 499 >= 0 &&
            Scale(Product(x, y), 501) == Scale(a.mant * b.mant, a.exp + b.exp + 499)
  {
    var a, b := Split(x), Split(y);
    SplitValue(x);
    SplitValue(y);
    ScaleProduct(Mag(Abs(x)), Mag(Abs(y)), 52, 52);
    ScaleProduct(a.mant, b.mant, a.exp + 51, b.exp + 51);
    ScaleScale(Product(x, y), 52 + 52, 397);
    ScaleScale(a.mant * b.mant, a.exp + 51 + (b.exp + 51), 397);
  }

  lemma ProductOfShifted(a: u64, b: u64)
    requires a < 0x20_0000_0000_0000 && b < 0x20_0000_0000_0000
    ensures Value(Mul64(a * 1024, b * 2048)) == 0x20_0000 * (a * b)
  {
    assert a * 1024 * (b * 2048) == 0x20_0000 * (a * b);
  }

  lemma ProductRange(a: int, b: int)
    requires 0x10_0000_0000_0000 <= a < 0x20_0000_0000_0000
    requires 0x10_0000_0000_0000 <= b < 0x20_0000_0000_0000
    ensures 0x100_0000_0000_0000_0000_0000_0000 <= a * b < 0x400_0000_0000_0000_0000_0000_0000
  {
    MulNonNegative(a - 0x10_0000_0000_0000, b);
    assert (a - 0x10_0000_0000_0000) * b == a * b - 0x10_0000_0000_0000 * b;
    MulNonNegative(0x20_0000_0000_0000 - a, b);
    assert (0x20_0000_0000_0000 - a) * b == 0x20_0000_0000_0000 * b - a * b;
  }

  lemma ProductScale(q: nat, t: nat, e: nat, n: nat)
    requires t <= 1 && n == 21
    ensures Scale(Scale(0x20_0000 * q, t), e) == Scale(q, e + t + 21)
    ensures Scale(0x20_0000 * q, t) == if t == 0 then 0x20_0000 * q else 0x40_0000 * q
    ensures Scale(0x20_0000 * q, t) % 0x20_0000 == 0
  {
    ScaleSmall(q, n);
    ScaleScale(q, n, t);
    ScaleScale(q, n + t, e);
    assert Scale(0x20_0000 * q, t) == if t == 0 then 0x20_0000 * q else 0x20_0000 * (2 * q);
  }

  lemma AddendOperand(z: u64, p: nat)
    requires IsFinite(z) && !IsZero(z)
    requires p == 0x400_0000_0000_0000_0000 * Split(z).mant
    ensures Operand(Scale(Mag(Abs(z)), 1074), Split(z).exp, p)
  {
    var c := Split(z);
    SplitValue(z);
    AddendExact(z, c);
    AddendScale(c.mant, c.exp + OFFSET, 74);
    MultipleOf(0x20_0000_0000_0000 * c.mant, p);
  }

  lemma MultipleOf(k: nat, p: nat)
    requires p == 0x20_0000 * k
    ensures p % 0x20_0000 == 0
  {
  }

  lemma AddendExact(z: u64, c: Parts)
    requires c.exp >= -51 && Scale(Mag(Abs(z)), 52) == Scale(c.mant, c.exp + 51)
    ensures Scale(Scale(Mag(Abs(z)), 1074), 501) == Scale(c.mant, c.exp + OFFSET + 74)
  {
    var v := Mag(Abs(z));
    ScaleScale(v, 1074, 501);
    ScaleScale(v, 52, 1523);
    ScaleScale(c.mant, c.exp + 51, 1523);
  }

  lemma AddendScale(m: nat, e: nat, n: nat)
    requires n == 74
    ensures Scale(0x400_0000_0000_0000_0000 * m, e) == Scale(m, e + 74)
  {
    ScaleScale(m, n, e);
    ScaleScale(m, 64, 10);
    ScaleBy64(m);
    Constants(0x1_0000_0000_0000_0000 * m);
  }

  // ---------- alignment ----------

  /** The larger significand comes first, so the first value is the larger. */
  lemma LargerFirst(v: nat, e: int, p: nat, w: nat, f: int, q: nat)
    requires Operand(v, e, p) && Operand(w, f, q)
    requires e > f || (e == f && p >= q)
    ensures v >= w && (e == f && p == q ==> v == w)
    ensures e > f || p > q ==> v > w
  {
    var d := e - f;
    ScaleScale(p, d, f + OFFSET);
    if d > 0 {
      ScaleGrows(p, 1, d);
      assert Scale(p, 1) == 2 * p;
      ScaleOrder(q, Scale(p, d), f + OFFSET);
    } else {
      ScaleOrder(q, p, f + OFFSET);
    }
    ScaleOrder(w, v, 501);
    ScaleOrder(v, w, 501);
  }

  /** The aligned addend: never above half the larger operand once it moves. */
  lemma AlignedBound(q: nat, d: nat, c: nat)
    requires q < 0x8000_0000_0000_0000_0000_0000_0000_0000
    requires Compressed(q, d, c)
    ensures d == 0 ==> c == q
    ensures d >= 1 ==> c <= 0x4000_0000_0000_0000_0000_0000_0000_0000
    ensures d >= 2 ==> c <= 0x2000_0000_0000_0000_0000_0000_0000_0000
  {
    var k := if d < 2 then d else 2;
    var lo := if c % 2 == 0 then c else c - 1;
    ScaleGrows(lo, k, d);
    if k == 2 { assert Scale(lo, k) == 2 * Scale(lo, 1) == 4 * Scale(lo, 0); }
    if k == 1 { assert Scale(lo, k) == 2 * Scale(lo, 0); }
    if d == 0 { assert Scale(c, d) == c && Scale(c - 1, d) == c - 1 && Scale(c + 1, d) == c + 1; }
  }

  /** Adding the aligned significands adds the values. */
  lemma AlignedSum(v: nat, e: int, p: nat, w: nat, f: int, q: nat, c: nat)
    requires Represents(v, e, p) && Represents(w, f, q) && e >= f && p % 2 == 0
    requires Compressed(q, e - f, c)
    ensures Approximates(v + w, e, p + c)
  {
    var d := e - f;
    ScaleAdd(v, w, 501);
    ScaleScale(p, d, f + OFFSET);
    ScaleAdd(Scale(p, d), q, f + OFFSET);
    CompressedSum(p, q, d, c);
    CompressedScaled(Scale(p, d) + q, d, p + c, f + OFFSET);
  }

  lemma CompressedSum(p: nat, q: nat, d: nat, c: nat)
    requires p % 2 == 0 && Compressed(q, d, c)
    ensures Compressed(Scale(p, d) + q, d, p + c)
  {
    ScaleAdd(p, c, d);
    ScaleAdd(p, c - 1, d);
    ScaleAdd(p, c + 1, d);
  }

  /** Subtracting the aligned significands subtracts the values. */
  lemma AlignedDifference(v: nat, e: int, p: nat, w: nat, f: int, q: nat, c: nat)
    requires Represents(v, e, p) && Represents(w, f, q) && e >= f && v >= w && p % 2 == 0
    requires Compressed(q, e - f, c) && p >= c
    ensures Approximates(v - w, e, p - c)
  {
    var d := e - f;
    ScaleAdd(v, w, 501);
    ScaleScale(p, d, f + OFFSET);
    ScaleAdd(Scale(p, d), q, f + OFFSET);
    AlignedLarger(v, w, p, q, d, f + OFFSET);
    CompressedDifference(p, q, d, c);
    CompressedScaled(Scale(p, d) - q, d, p - c, f + OFFSET);
  }

  lemma AlignedLarger(v: nat, w: nat, p: nat, q: nat, d: nat, k: nat)
    requires v >= w && Scale(v, 501) == Scale(Scale(p, d), k) && Scale(w, 501) == Scale(q, k)
    ensures q <= Scale(p, d)
  {
    ScaleOrder(v, w, 501);
    ScaleOrder(Scale(p, d), q, k);
  }

  lemma CompressedDifference(p: nat, q: nat, d: nat, c: nat)
    requires p % 2 == 0 && Compressed(q, d, c) && p >= c && Scale(p, d) >= q
    ensures Compressed(Scale(p, d) - q, d, p - c)
  {
    if c % 2 == 0 { ScaleAdd(p, c, d); } else { OddDifference(p, q, d, c); }
  }

  lemma OddDifference(p: nat, q: nat, d: nat, c: nat)
    requires p % 2 == 0 && c % 2 == 1 && Scale(c - 1, d) < q < Scale(c + 1, d) && p >= c && Scale(p, d) >= q
    ensures (p - c) % 2 == 1
    ensures Scale(p - c - 1, d) < Scale(p, d) - q < Scale(p - c + 1, d)
  {
    ScaleAdd(p, c - 1, d);
    ScaleAdd(p, c + 1, d);
  }

  /** Small shifts lose nothing: the low bits of both operands are clear. */
  lemma SmallShiftExact(q: nat, d: nat, c: nat)
    requires q % 0x20_0000 == 0 && d <= 21 && Compressed(q, d, c)
    ensures q == Scale(c, d)
  {
    var k := q / 0x20_0000;
    LowBitsClear(k, d, 21 - d);
    CompressedExact(Scale(k, 21 - d), d, c);
  }

  lemma LowBitsClear(k: nat, d: nat, n: nat)
    requires n + d == 21
    ensures Scale(Scale(k, n), d) == 0x20_0000 * k
  {
    ScaleScale(k, n, d);
    ScaleSmall(k, n + d);
  }

  // ---------- the significand after addition and after subtraction ----------

  /** Sum: one more bit at most, squeezed to 63 bits. */
  lemma SumSignificand(v: nat, e: int, s: nat, top: nat, m: nat)
    requires Approximates(v, e, s)
    requires 0x4000_0000_0000_0000_0000_0000_0000_0000 <= s < 0x1_0000_0000_0000_0000_0000_0000_0000_0000
    requires top == if s >= 0x8000_0000_0000_0000_0000_0000_0000_0000 then 1 else 0
    requires Compressed(s, 64 + top, m)
    ensures Approximates(v, e - 1 + top + 65, m)
    ensures 0x4000_0000_0000_0000 <= m < 0x8000_0000_0000_0000
  {
    CompressedTwice(Scale(v, 501), e + OFFSET, s, 64 + top, m);
    SixtyFour(m, top);
    SixtyFour(m - 1, top);
    SixtyFour(m + 1, top);
  }

  lemma SixtyFour(x: int, top: nat)
    requires top <= 1
    ensures Scale(x, 64 + top) == if top == 0 then 0x1_0000_0000_0000_0000 * x else 0x2_0000_0000_0000_0000 * x
  {
    ScaleBy64(x);
    ScaleScale(x, 64, top);
  }

  /** What cancellation does to a difference before it is squeezed to 63 bits. */
  lemma DifferenceSignificand(v: nat, e: int, s: nat, nz: nat, x: nat, m: nat)
    requires -1200 <= e && 1 <= nz <= 128
    requires Approximates(v, e, s) && (nz <= 2 || Represents(v, e, s))
    requires x == Scale(s, nz - 1) && Compressed(x, 64, m)
    ensures Approximates(v, e - nz + 65, m)
  {
    var j := nz - 1;
    if nz <= 2 {
      CompressedScaled(s, 64 - j, m, j);
      CompressedTwice(Scale(v, 501), e + OFFSET, s, 64 - j, m);
    } else {
      ScaleScale(s, j, e + OFFSET - j);
      CompressedScaled(x, 64, m, e + OFFSET - j);
    }
  }

  lemma WordOf(x: nat, hi: u64, lo: u64, m: nat)
    requires x == Value((hi, lo)) && m == Or64(hi, Nonzero(lo))
    ensures Compressed(x, 64, m)
    ensures 0x4000_0000_0000_0000 <= hi < 0x8000_0000_0000_0000 ==> 0x4000_0000_0000_0000 <= m < 0x8000_0000_0000_0000
    ensures hi == lo == 0 ==> m == 0
  {
    OrBit(hi, Nonzero(lo));
    ScaleBy64(hi);
    ScaleBy64(1);
    QuotientCompressed(x, 64, hi, lo, m);
  }

  /** The leading bit of a significand whose leading zeros were shifted away. */
  lemma Normalised(s: nat, nz: nat, x: nat, hi: u64, lo: u64)
    requires 1 <= nz <= 127 && Scale(1, 127 - nz) <= s < Scale(1, 128 - nz)
    requires x == Scale(s, nz - 1) == Value((hi, lo))
    ensures 0x4000_0000_0000_0000 <= hi < 0x8000_0000_0000_0000
  {
    ScaleOrder(Scale(1, 127 - nz), s, nz - 1);
    ScaleOrder(s, Scale(1, 127 - nz), nz - 1);
    ScaleOrder(s, Scale(1, 128 - nz), nz - 1);
    ScaleScale(1, 127 - nz, nz - 1);
    ScaleScale(1, 128 - nz, nz - 1);
    OneHundredTwentySix(126);
  }

  lemma OneHundredTwentySix(n: nat)
    requires n == 126
    ensures Scale(1, n) == 0x4000_0000_0000_0000_0000_0000_0000_0000
    ensures Scale(1, n + 1) == 0x8000_0000_0000_0000_0000_0000_0000_0000
  {
    Constants(1);
    ScaleScale(1, 62, 64);
    ScaleBy64(0x4000_0000_0000_0000);
  }

  // ---------- rounding and encoding ----------

  /** The subnormal shift of the last lines: bits shifted out stay in the sticky bit. */
  function ShiftOut(m: u64, n: u64): u64
  {
    Or64(Shr(m, n), Nonzero(And64(m, Sub(Shl(1, n), 1))))
  }

  lemma ShiftOutValue(m: u64, n: u64)
    requires n > 0
    ensures Compressed(m, n, ShiftOut(m, n)) && ShiftOut(m, n) <= m
  {
    var q, low := Shr(m, n), And64(m, Sub(Shl(1, n), 1));
    Cut(m, n);
    OrBit(q, Nonzero(low));
    if n < 64 {
      ShiftMask(n);
      AndMask(m, n);
      assert low == Low(m, n);
      QuotientCompressed(m, n, q, low, ShiftOut(m, n));
      ShiftedBelow(m, n);
    } else {
      ScaleBy64(1);
      AndMask(m, 64);
      CutUnique(0, m, 64);
      ScaleOrder(0, 0, 64);
      assert low == m;
      ScaleGrows(1, 64, n);
      ScaleOrder(0, 0, n);
      QuotientCompressed(m, n, 0, m, ShiftOut(m, n));
    }
  }

  lemma ShiftMask(n: nat)
    requires n < 64
    ensures Sub(Shl(1, n), 1) == LowMask(n)
  {
    ScaleBy64(1);
    ScaleScale(1, n, 64 - n);
    ScaleGrows(Scale(1, n), 1, 64 - n);
    ScaleOrder(0, 1, n);
  }

  lemma ShiftedBelow(m: nat, n: nat)
    requires n > 0
    ensures Halve(m, n) <= m / 2
  {
    HalveBound(m / 2, n - 1);
  }

  lemma SignBit(sign: u64, a: u64, n: nat)
    requires sign <= 1 && a <= INF && n == 63
    ensures Shl(sign, n) == 0x8000_0000_0000_0000 * sign
    ensures Shl(sign, n) + a == Or64(Shl(sign, n), a)
    ensures Abs(Shl(sign, n) + a) == a && Sign(Shl(sign, n) + a) == sign
  {
    ScaleBy63(1, n);
    ScaleBy63(sign, n);
    OrDisjoint(sign, a, n);
  }

  /** The significand carries into the exponent exactly when bit 63 appears. */
  lemma CarryBit(m: u64, n: nat)
    requires m < 0x8000_0000_0000_0000 && n == 63
    ensures Shr(m + Shl(1, 9), n) == 1 <==> m + 512 >= 0x8000_0000_0000_0000
    ensures Shl(1, 9) == 512
  {
    Shl9();
    Cut(m + 512, n);
    Constants(1);
    Constants(Halve(m + 512, n));
  }

  /**
   * The last lines of FMA: overflow check, subnormal shift, one rounding, encoding.
   * The exact value v is only a witness for the contract.
   */
  method RoundAndEncode(ps: u64, pe0: int, m0: u64, ghost v: nat) returns (r: u64)
    requires ps <= 1 && m0 < 0x8000_0000_0000_0000
    requires -1500 < pe0 < 4000 && Approximates(v, pe0 + 65, m0)
    requires m0 < 0x4000_0000_0000_0000 ==> m0 == 0 && pe0 <= 2045
    ensures Sign(r) == ps && NearestEven(v, 1074, Abs(r))
  {
    var pe, m := pe0, m0;
    if pe > 2045 || (pe == 2045 && Shr(m + Shl(1, 9), 63) == 1) {
      Overflowed(v, pe, m, ps);
      return Or64(Shl(ps, 63), INF);
    }
    CarryBit(m, 63);
    if pe < 0 {
      ShiftedOut(v, pe, m);
      var n: u64 := -pe;
      m := ShiftOut(m, n);
      pe := 0;
    }
    Rounded(v, pe, m);
    m := RoundBits(m);
    if Nonzero(m) == 0 { pe := 0; }
    EncodedBits(ps, pe, m);
    r := Shl(ps, 63) + Shl(pe, 52) + m;
  }

  lemma Overflowed(v: nat, pe: int, m: u64, ps: u64)
    requires ps <= 1 && 2045 <= pe && m < 0x8000_0000_0000_0000
    requires Approximates(v, pe + 65, m)
    requires m < 0x4000_0000_0000_0000 ==> m == 0 && pe <= 2045
    requires pe > 2045 || Shr(m + Shl(1, 9), 63) == 1
    ensures NearestEven(v, 1074, INF)
    ensures Abs(Or64(Shl(ps, 63), INF)) == INF && Sign(Or64(Shl(ps, 63), INF)) == ps
  {
    CarryBit(m, 63);
    SignBit(ps, INF, 63);
    OverflowIsNearest(Scale(v, 501), 1575, pe, m);
    MidpointsRescaled(v, 1074, INF, 501);
    NeighboursSuffice(v, 1074, INF);
  }

  lemma ShiftedOut(v: nat, pe: int, m: u64)
    requires -1500 < pe < 0 && Approximates(v, pe + 65, m)
    ensures Approximates(v, 65, ShiftOut(m, -pe)) && ShiftOut(m, -pe) <= m
  {
    ShiftOutValue(m, -pe);
    CompressedTwice(Scale(v, 501), pe + 65 + OFFSET, m, -pe, ShiftOut(m, -pe));
  }

  lemma Shl52(pe: u64, n: nat)
    requires pe <= 2045 && n == 52
    ensures Shl(pe, n) == 0x10_0000_0000_0000 * pe
  {
    ScaleBy52(pe, n);
  }

  lemma EncodedBits(ps: u64, pe: nat, mant: u64)
    requires ps <= 1 && pe <= 2045 && 0x10_0000_0000_0000 * pe + mant <= INF
    ensures var r := Shl(ps, 63) + Shl(pe, 52) + mant;
            r < 0x1_0000_0000_0000_0000 && Sign(r) == ps && Abs(r) == 0x10_0000_0000_0000 * pe + mant
  {
    Shl52(pe, 52);
    SignBit(ps, 0x10_0000_0000_0000 * pe + mant, 63);
  }

  lemma Rounded(v: nat, pe: nat, m: u64)
    requires pe <= 2045 && m < 0x8000_0000_0000_0000 && Approximates(v, pe + 65, m)
    requires pe == 2045 ==> m + 512 < 0x8000_0000_0000_0000
    requires pe > 0 && m < 0x4000_0000_0000_0000 ==> m == 0
    ensures var mant := RoundBits(m);
            var e := if mant == 0 then 0 else pe;
            0x10_0000_0000_0000 * e + mant < INF &&
            NearestEven(v, 1074, 0x10_0000_0000_0000 * e + mant)
  {
    if m == 0 {
      ZeroResult(v, pe + 65 + OFFSET);
      RoundBitsValue(m);
    } else {
      RoundedNonzero(v, pe, m);
      assert pe > 0 ==> RoundBits(m) > 0 by { RoundBitsValue(m); }
    }
  }

  lemma RoundedNonzero(v: nat, pe: nat, m: u64)
    requires pe <= 2045 && m < 0x8000_0000_0000_0000 && Approximates(v, pe + 65, m)
    requires pe == 2045 ==> m + 512 < 0x8000_0000_0000_0000
    requires pe > 0 ==> m >= 0x4000_0000_0000_0000
    ensures var r := 0x10_0000_0000_0000 * pe + RoundBits(m);
            r < INF && NearestEven(v, 1074, r)
  {
    var r := 0x10_0000_0000_0000 * pe + RoundBits(m);
    assert r < INF by { RoundBitsValue(m); }
    GridIsNearest(Scale(v, 501), 1575, pe, m);
    MidpointsRescaled(v, 1074, r, 501);
    NeighboursSuffice(v, 1074, r);
  }

  lemma ZeroResult(v: nat, n: nat)
    requires Compressed(Scale(v, 501), n, 0)
    ensures v == 0 && NearestEven(v, 1074, 0)
  {
    ScaleOrder(0, v, 501);
    ScaleOrder(0, 0, n);
    ScaleOrder(0, 0, 1074);
    ExactIsNearest(0, 1074);
    NeighboursSuffice(v, 1074, 0);
  }

  // ---------- the operation itself ----------

  /** A magnitude with a sign word. */
  function WithSign(s: u64, v: nat): int { if s == 0 then v else 0 - v }

  lemma SignOfProduct(x: u64, y: u64)
    ensures Xor64(Sign(x), Sign(y)) <= 1
    ensures WithSign(Xor64(Sign(x), Sign(y)), Product(x, y)) == Signed(x) * Signed(y)
  {
    XorOfBits(Sign(x), Sign(y));
  }

  lemma XorOfBits(a: u64, b: u64)
    requires a <= 1 && b <= 1
    ensures Xor64(a, b) == if a == b then 0 else 1
  {
    XorIsZero(a / 2, b / 2);
  }

  /** b & uvinf == uvinf picks out infinities and NaNs. */
  lemma ExponentMask(b: u64)
    ensures And64(b, INF) == INF <==> !IsFinite(b)
  {
    MaskedExponent(b, 52);
    FiniteExponent(b);
  }

  lemma FiniteExponent(b: u64)
    ensures IsFinite(b) <==> b / 0x10_0000_0000_0000 % 2048 != 2047
  {
    var h, f := b / 0x10_0000_0000_0000, b % 0x10_0000_0000_0000;
    assert Abs(b) == 0x10_0000_0000_0000 * (h % 2048) + f;
  }

  lemma MaskedExponent(b: u64, k: nat)
    requires k == 52
    ensures And64(b, INF) == 0x10_0000_0000_0000 * (b / 0x10_0000_0000_0000 % 2048)
  {
    var h := b / 0x10_0000_0000_0000;
    HalveIsDivision(b, k);
    ElevenBits(h, 11);
    AndShifted(b, 2047, k);
    ScaleBy52(h % 2048, k);
    ScaleBy52(2047, k);
  }

  lemma TopBits(a: u64, n: nat)
    requires n == 62 || n == 63
    ensures n == 63 ==> Shr(a, n) == if a >= 0x8000_0000_0000_0000 then 1 else 0
    ensures n == 63 ==> Shr(Not(a), n) == if a >= 0x8000_0000_0000_0000 then 0 else 1
    ensures n == 62 && a < 0x8000_0000_0000_0000 ==>
              And64(Shr(Not(a), n), 1) == if a >= 0x4000_0000_0000_0000 then 0 else 1
  {
    Constants(1);
    ShrTop(a, n);
    ShrTop(Not(a), n);
    if n == 62 { AndOne(Shr(Not(a), n)); }
  }

  lemma ShrTop(a: u64, n: nat)
    requires n == 62 || n == 63
    ensures Shr(a, n) == if n == 62 then a / 0x4000_0000_0000_0000 else a / 0x8000_0000_0000_0000
  {
    Cut(a, n);
    Constants(1);
    Constants(Halve(a, n));
  }

  /** The product of two mantissas as a normalised 128-bit significand. */
  method NormalisedProduct(xb: u64, yb: u64) returns (pe: int, pm: (u64, u64))
    requires IsFinite(xb) && !IsZero(xb) && IsFinite(yb) && !IsZero(yb)
    ensures Operand(Product(xb, yb), pe, Value(pm))
  {
    var x, y := Split(xb), Split(yb);
    pe := x.exp + y.exp - 1023 + 1;
    SplitValue(xb);
    SplitValue(yb);
    MantissaShifts(x.mant, 10);
    MantissaShifts(y.mant, 11);
    ProductOfShifted(x.mant, y.mant);
    pm := Mul64(Shl(x.mant, 10), Shl(y.mant, 11));
    var is62zero := And64(Shr(Not(pm.0), 62), 1);
    ProductOperand(xb, yb, pm, if pm.0 >= 0x4000_0000_0000_0000 then 0 else 1);
    TopBits(pm.0, 62);
    ShlPairValue(pm.0, pm.1, is62zero);
    pm := ShlPair(pm.0, pm.1, is62zero);
    pe := pe - is62zero;
  }

  lemma MantissaShifts(m: u64, n: nat)
    requires m < 0x20_0000_0000_0000 && (n == 10 || n == 11)
    ensures Shl(m, n) == if n == 10 then m * 1024 else m * 2048
  {
    ScaleSmall(m, n);
  }

  lemma AddPairs(p: (u64, u64), z: (u64, u64))
    requires Value(p) + Value(z) < 0x1_0000_0000_0000_0000_0000_0000_0000_0000
    ensures var lo := Add64(p.1, z.1, 0);
            var hi := Add64(p.0, z.0, lo.1);
            Value((hi.0, lo.0)) == Value(p) + Value(z)
  {
  }

  lemma SubPairs(p: (u64, u64), z: (u64, u64))
    requires Value(p) >= Value(z)
    ensures var lo := Sub64(p.1, z.1, 0);
            var hi := Sub64(p.0, z.0, lo.1);
            Value((hi.0, lo.0)) == Value(p) - Value(z)
  {
  }

  /** Same signs: add the aligned significands and squeeze the sum to 63 bits. */
  method AddSignificands(pe0: int, p: (u64, u64), z: (u64, u64), ghost t: nat) returns (pe: int, m: u64)
    requires -1200 <= pe0 <= 3200 && Approximates(t, pe0, Value(p) + Value(z))
    requires 0x4000_0000_0000_0000_0000_0000_0000_0000 <= Value(p) < 0x8000_0000_0000_0000_0000_0000_0000_0000
    requires Value(z) < 0x8000_0000_0000_0000_0000_0000_0000_0000
    ensures pe0 - 1 <= pe <= pe0 && Approximates(t, pe + 65, m)
    ensures 0x4000_0000_0000_0000 <= m < 0x8000_0000_0000_0000
  {
    AddPairs(p, z);
    var lo := Add64(p.1, z.1, 0);
    var hi := Add64(p.0, z.0, lo.1);
    TopBits(hi.0, 63);
    pe := pe0 - Shr(Not(hi.0), 63);
    var s := ShrCompress(hi.0, lo.0, 64 + Shr(hi.0, 63));
    ShrCompressValue(hi.0, lo.0, 64 + Shr(hi.0, 63));
    SumSignificand(t, pe0, Value((hi.0, lo.0)), Shr(hi.0, 63), Value(s));
    m := s.1;
  }

  /** Opposite signs: subtract, shift the leading bit into place, squeeze to 63 bits. */
  method SubSignificands(pe0: int, p: (u64, u64), z: (u64, u64), ghost t: nat) returns (pe: int, m: u64)
    requires -1200 <= pe0 <= 3200 && Value(p) >= Value(z)
    requires Approximates(t, pe0, Value(p) - Value(z))
    requires Value(p) < 0x8000_0000_0000_0000_0000_0000_0000_0000
    requires Value(p) - Value(z) >= 0x2000_0000_0000_0000_0000_0000_0000_0000
             || Represents(t, pe0, Value(p) - Value(z))
    ensures pe0 - 128 <= pe <= pe0 && Approximates(t, pe + 65, m)
    ensures 0x4000_0000_0000_0000 <= m < 0x8000_0000_0000_0000 || (m == 0 && pe == pe0 - 128 && p == z)
  {
    SubPairs(p, z);
    var lo := Sub64(p.1, z.1, 0);
    var hi := Sub64(p.0, z.0, lo.1);
    pe, m := NormaliseDifference(pe0, hi.0, lo.0, t);
    assert Value((hi.0, lo.0)) == 0 ==> p == z;
  }

  /** nz := lz(pm1, pm2) and the lines after it. */
  method NormaliseDifference(pe0: int, pm1: u64, pm2: u64, ghost t: nat) returns (pe: int, m: u64)
    requires -1200 <= pe0 <= 3200 && Approximates(t, pe0, Value((pm1, pm2)))
    requires Value((pm1, pm2)) < 0x8000_0000_0000_0000_0000_0000_0000_0000
    requires Value((pm1, pm2)) >= 0x2000_0000_0000_0000_0000_0000_0000_0000
             || Represents(t, pe0, Value((pm1, pm2)))
    ensures pe0 - 128 <= pe <= pe0 && Approximates(t, pe + 65, m)
    ensures 0x4000_0000_0000_0000 <= m < 0x8000_0000_0000_0000
            || (m == 0 && pe == pe0 - 128 && Value((pm1, pm2)) == 0)
  {
    var nz := LeadingZerosPair(pm1, pm2);
    CancelledBits(pm1, pm2, nz);
    pe := pe0 - nz;
    var x := ShlPair(pm1, pm2, nz - 1);
    m := Or64(x.0, Nonzero(x.1));
    WordOf(Value(x), x.0, x.1, m);
    DifferenceSignificand(t, pe0, Value((pm1, pm2)), nz, Value(x), m);
  }

  /** Where the leading bit of a difference goes. */
  lemma CancelledBits(u1: u64, u2: u64, nz: nat)
    requires Value((u1, u2)) < 0x8000_0000_0000_0000_0000_0000_0000_0000
    requires nz == LeadingZerosPair(u1, u2)
    ensures 1 <= nz <= 128
    ensures Value((u1, u2)) >= 0x2000_0000_0000_0000_0000_0000_0000_0000 ==> nz <= 2
    ensures var x := ShlPair(u1, u2, nz - 1);
            Value(x) == Scale(Value((u1, u2)), nz - 1) &&
            if Value((u1, u2)) == 0 then nz == 128 && x == (0, 0)
            else 0x4000_0000_0000_0000 <= x.0 < 0x8000_0000_0000_0000
  {
    var s := Value((u1, u2));
    LeadingZerosPairValue(u1, u2);
    DifferenceShift(s, nz);
    ShlPairValue(u1, u2, nz - 1);
    var x := ShlPair(u1, u2, nz - 1);
    if s > 0 { Normalised(s, nz, Scale(s, nz - 1), x.0, x.1); }
  }

  lemma DifferenceShift(s: nat, nz: nat)
    requires s < 0x8000_0000_0000_0000_0000_0000_0000_0000 && nz <= 128
    requires s == 0 <==> nz == 128
    requires s > 0 ==> Scale(1, 127 - nz) <= s < Scale(1, 128 - nz)
    ensures nz >= 1 && Scale(s, nz - 1) < 0x8000_0000_0000_0000_0000_0000_0000_0000
    ensures s == 0 ==> Scale(s, nz - 1) == 0
    ensures s >= 0x2000_0000_0000_0000_0000_0000_0000_0000 ==> nz <= 2
  {
    OneHundredTwentySix(126);
    if nz >= 1 {
      if s > 0 {
        ScaleScale(1, 128 - nz, nz - 1);
        ScaleOrder(s, Scale(1, 128 - nz), nz - 1);
      } else {
        ScaleOrder(0, 0, nz - 1);
      }
    }
    assert Scale(1, 126) == 2 * Scale(1, 125);
    if nz > 2 && s > 0 { ScaleGrows(1, 128 - nz, 125); }
  }

  /** The exact value of x * y + z, in units of two to the -2148. */
  function ExactFma(x: u64, y: u64, z: u64): int { Signed(x) * Signed(y) + Scale(Signed(z), 1074) }

  lemma ScaledSign(z: u64)
    ensures Scale(Signed(z), 1074) == WithSign(Sign(z), Scale(Mag(Abs(z)), 1074))
  {
    ScaleAdd(0, Mag(Abs(z)), 1074);
    ScaleOrder(0, 0, 1074);
  }

  /**
   * FMA. The value of the hardware expression x * y + z, which the code falls
   * back on when a factor is zero or not finite or z is zero, is a parameter.
   */
  method FMA(xb: u64, yb: u64, zb: u64, direct: u64) returns (r: u64)
    ensures !IsFinite(xb) || !IsFinite(yb) || IsZero(xb) || IsZero(yb) || IsZero(zb) ==> r == direct
    ensures IsFinite(xb) && IsFinite(yb) && !IsZero(xb) && !IsZero(yb) && !IsFinite(zb) ==> r == zb
    ensures IsFinite(xb) && IsFinite(yb) && IsFinite(zb) && !IsZero(xb) && !IsZero(yb) && !IsZero(zb) ==>
              var v := ExactFma(xb, yb, zb);
              NearestEven(Dist(v, 0), 1074, Abs(r)) &&
              (v > 0 ==> Sign(r) == 0) && (v < 0 ==> Sign(r) == 1)
  {
    ExponentMask(xb);
    ExponentMask(yb);
    ExponentMask(zb);
    if IsZero(xb) || IsZero(yb) || IsZero(zb) || And64(xb, INF) == INF || And64(yb, INF) == INF {
      return direct;
    }
    if And64(zb, INF) == INF {
      return zb;
    }
    var pe, p := NormalisedProduct(xb, yb);
    var z := Split(zb);
    var zs, ze, zm := z.sign, z.exp, (Shl(z.mant, 10), 0);
    SplitValue(zb);
    MantissaShifts(z.mant, 10);
    AddendOperand(zb, Value(zm));
    var ps := Xor64(Sign(xb), Sign(yb));
    SignOfProduct(xb, yb);
    ScaledSign(zb);
    ghost var v, w := Product(xb, yb), Scale(Mag(Abs(zb)), 1074);
    if pe < ze || (pe == ze && (p.0 < zm.0 || (p.0 == zm.0 && p.1 < zm.1))) {
      r := AddOperands(zs, ze, zm, ps, pe, p, w, v);
    } else {
      r := AddOperands(ps, pe, p, zs, ze, zm, v, w);
    }
  }

  /** Align the smaller operand, add or subtract, normalise, round. */
  method AddOperands(ps: u64, pe: int, p: (u64, u64), zs: u64, ze: int, z: (u64, u64), ghost v: nat, ghost w: nat)
    returns (r: u64)
    requires ps <= 1 && zs <= 1 && Operand(v, pe, Value(p)) && Operand(w, ze, Value(z))
    requires pe > ze || (pe == ze && Value(p) >= Value(z))
    requires ze <= 2046
    ensures var s := WithSign(ps, v) + WithSign(zs, w);
            NearestEven(Dist(s, 0), 1074, Abs(r)) && (s > 0 ==> Sign(r) == 0) && (s < 0 ==> Sign(r) == 1)
  {
    var a := ShrCompress(z.0, z.1, pe - ze);
    ShrCompressValue(z.0, z.1, pe - ze);
    LargerFirst(v, pe, Value(p), w, ze, Value(z));
    var e, m;
    ghost var t;
    if ps == zs {
      t := v + w;
      SumAligned(v, pe, Value(p), w, ze, Value(z), Value(a));
      e, m := AddSignificands(pe, p, a, t);
    } else {
      t := v - w;
      DifferenceAligned(v, pe, Value(p), w, ze, Value(z), Value(a));
      e, m := SubSignificands(pe, p, a, t);
    }
    assert Dist(WithSign(ps, v) + WithSign(zs, w), 0) == t;
    r := RoundAndEncode(ps, e, m, t);
  }

  lemma SumAligned(v: nat, e: int, p: nat, w: nat, f: int, q: nat, c: nat)
    requires Operand(v, e, p) && Operand(w, f, q) && e >= f && Compressed(q, e - f, c)
    ensures Approximates(v + w, e, p + c)
    ensures c < 0x8000_0000_0000_0000_0000_0000_0000_0000
  {
    AlignedBound(q, e - f, c);
    EvenOperand(p);
    AlignedSum(v, e, p, w, f, q, c);
  }

  /** Either nothing was lost in alignment, or at most one leading bit cancels. */
  lemma DifferenceAligned(v: nat, e: int, p: nat, w: nat, f: int, q: nat, c: nat)
    requires Operand(v, e, p) && Operand(w, f, q) && (e > f || (e == f && p >= q)) && v >= w
    requires Compressed(q, e - f, c)
    ensures p >= c && Approximates(v - w, e, p - c)
    ensures p - c >= 0x2000_0000_0000_0000_0000_0000_0000_0000 || Represents(v - w, e, p - c)
    ensures p == c ==> v == w
  {
    AlignedBound(q, e - f, c);
    EvenOperand(p);
    AlignedDifference(v, e, p, w, f, q, c);
    if p == c { NothingLeft(v, w, e); }
    if e - f <= 21 { SmallShift(v, e, p, w, f, q, c); }
  }

  lemma EvenOperand(p: nat)
    requires p % 0x20_0000 == 0
    ensures p % 2 == 0
  {
    assert p == 2 * (0x10_0000 * (p / 0x20_0000));
  }

  lemma SmallShift(v: nat, e: int, p: nat, w: nat, f: int, q: nat, c: nat)
    requires Represents(v, e, p) && Represents(w, f, q) && q % 0x20_0000 == 0 && 0 <= e - f <= 21
    requires Compressed(q, e - f, c) && v >= w && p >= c
    ensures Represents(v - w, e, p - c)
  {
    SmallShiftExact(q, e - f, c);
    ExactDifference(v, e, p, w, f, q, c);
  }

  lemma NothingLeft(v: nat, w: nat, e: int)
    requires v >= w
    ensures Approximates(v - w, e, 0) ==> v == w
  {
    if e + OFFSET >= 0 {
      ScaleOrder(0, v - w, 501);
      ScaleOrder(0, 0, e + OFFSET);
    }
  }

  lemma ExactDifference(v: nat, e: int, p: nat, w: nat, f: int, q: nat, c: nat)
    requires Represents(v, e, p) && Represents(w, f, q) && e >= f && v >= w && p >= c
    requires q == Scale(c, e - f)
    ensures Represents(v - w, e, p - c)
  {
    ScaleAdd(v, w, 501);
    ScaleScale(c, e - f, f + OFFSET);
    ScaleAdd(p, c, e + OFFSET);
  }
}
