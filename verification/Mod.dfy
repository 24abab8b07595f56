/**
 * Floating-point remainder (src/math/mod.go) with the frexp, ldexp and normalize
 * that it is built on (src/math/frexp.go, ldexp.go, bits.go). Hardware products
 * and differences are the exact result rounded once.
 */
module Mod {
  import opened Scaling
  import opened Words
  import opened Binary64

  /** The doubles 1 << 52, 1 and 1.0 / (1 << 53). */
  const TWO52: u64 := 0x4330_0000_0000_0000
  const ONE: u64 := 0x3FF0_0000_0000_0000
  const TINY: u64 := 0x3CA0_0000_0000_0000

  /** int((x>>shift)&mask): the exponent field. */
  function Exponent(x: u64): (e: u64)
    ensures e == Abs(x) / 0x10_0000_0000_0000 <= 2047
  {
    FieldOf(x, 52);
    And64(Shr(x, 52), 0x7FF)
  }

  lemma FieldOf(x: u64, k: nat)
    requires k == 52
    ensures And64(Shr(x, k), 0x7FF) == Abs(x) / 0x10_0000_0000_0000 <= 2047
  {
    HalveIsDivision(x, k);
    ElevenBits(x / 0x10_0000_0000_0000, 11);
    FieldBits(x);
  }

  lemma FieldBits(x: u64)
    ensures x / 0x10_0000_0000_0000 % 2048 == Abs(x) / 0x10_0000_0000_0000 <= 2047
  {
  }

  /** x &^= mask << shift; x |= e << shift: replace the exponent field. */
  function WithExponent(x: u64, e: u64): (r: u64)
    requires e < 2048
    ensures Sign(r) == Sign(x) && Abs(r) == 0x10_0000_0000_0000 * e + x % 0x10_0000_0000_0000
  {
    ReplacedField(x, e, 52);
    Or64(And64(x, Not(Shl(0x7FF, 52))), Shl(e, 52))
  }

  lemma ReplacedField(x: u64, e: u64, k: nat)
    requires k == 52 && e < 2048
    ensures Or64(And64(x, Not(Shl(0x7FF, k))), Shl(e, k)) ==
            0x8000_0000_0000_0000 * Sign(x) + 0x10_0000_0000_0000 * e + x % 0x10_0000_0000_0000
  {
    var f := x % 0x10_0000_0000_0000;
    ScaleBy52(0x7FF, k);
    ScaleBy52(e, k);
    ScaleBy52(1, k);
    KeepSignAndFraction(x, k);
    OrWithField(Sign(x), e, f, k);
  }

  lemma KeepSignAndFraction(x: u64, k: nat)
    requires k == 52
    ensures And64(x, Not(0x7FF0_0000_0000_0000)) == 0x8000_0000_0000_0000 * Sign(x) + x % 0x10_0000_0000_0000
  {
    var h, f := x / 0x10_0000_0000_0000, x % 0x10_0000_0000_0000;
    HalveIsDivision(x, k);
    assert Low(x, k) == f by { Cut(x, k); ScaleBy52(h, k); }
    ScaleBy52(2048, k);
    ScaleBy52(1, k);
    AndSplit(x, 2048, k);
    HighBit(h, 11);
    ScaleBy52(2048 * (h / 2048), k);
    assert h / 2048 == Sign(x);
  }

  lemma HighBit(h: nat, n: nat)
    requires n == 11 && h < 4096
    ensures And(h, 2048) == 2048 * (h / 2048)
  {
    ScaleSmall(1, n);
    AndShifted(h, 1, n);
    Cut(h, n);
    ScaleSmall(Halve(h, n), n);
    ScaleSmall(And(h / 2048, 1), n);
    if h >= 2048 { assert And(1, 1) == 1; }
  }

  lemma OrWithField(sign: u64, e: u64, f: u64, k: nat)
    requires k == 52 && sign <= 1 && e < 2048 && f < 0x10_0000_0000_0000
    ensures Or(0x8000_0000_0000_0000 * sign + f, 0x10_0000_0000_0000 * e) ==
            0x8000_0000_0000_0000 * sign + 0x10_0000_0000_0000 * e + f
  {
    ScaleBy52(2048 * sign, k);
    ScaleBy52(e, k);
    ScaleBy52(1, k);
    OrShifted(2048 * sign, e, f, k);
    OrSignField(sign, e, 11);
    ScaleBy52(2048 * sign + e, k);
  }

  lemma OrSignField(sign: nat, e: nat, n: nat)
    requires n == 11 && e < 2048
    ensures Or(2048 * sign, e) == 2048 * sign + e
  {
    ScaleSmall(sign, n);
    ScaleSmall(1, n);
    OrDisjoint(sign, e, n);
  }

  lemma {:induction false} OrShifted(a: nat, b: nat, f: nat, k: nat)
    requires f < Scale(1, k)
    ensures Or(Scale(a, k) + f, Scale(b, k)) == Scale(Or(a, b), k) + f
  {
    if k > 0 {
      OrShifted(a, b, f / 2, k - 1);
    }
  }

  // ---------- normalize and frexp ----------

  /** bits.go normalize: x is finite and not zero. */
  function Normalize(x: u64): (u64, int)
  {
    if Abs(x) < 0x10_0000_0000_0000 then (MulFloat(x, TWO52), -52) else (x, 0)
  }

  lemma RoundExact(p: nat, k: nat)
    requires p <= INF
    ensures Round(Scale(Mag(p), k), k) == p
  {
    ExactIsNearest(p, k);
    NeighboursSuffice(Scale(Mag(p), k), k, p);
    NearestIsRound(Scale(Mag(p), k), k, p);
  }

  /** A significand with its leading bit, and the exponent that gives x back. */
  lemma NormalizeValue(x: u64)
    requires IsFinite(x) && !IsZero(x)
    ensures var (y, e) := Normalize(x);
            Sign(y) == Sign(x) && IsFinite(y) && Exponent(y) >= 1 && -52 <= e <= 0 &&
            Mag(Abs(y)) == Scale(Mag(Abs(x)), -e)
  {
    if Abs(x) < 0x10_0000_0000_0000 {
      var p := Pattern(Abs(x), 52);
      PatternBound(Abs(x), 52);
      assert Product(x, TWO52) == Scale(Mag(p), 1074) by { TimesTwo52(x, TWO52); }
      assert p >= 0x10_0000_0000_0000 by { TimesTwo52(x, TWO52); }
      RoundExact(p, 1074);
      SignedResult(Sign(x) != Sign(TWO52), p);
    }
  }

  lemma {:induction false} PatternBound(m: nat, j: nat)
    requires 0 < m < 0x10_0000_0000_0000 && j <= 52
    ensures Pattern(m, j) < 0x10_0000_0000_0000 * (j + 1)
    ensures Scale(m, j) >= 0x10_0000_0000_0000 ==> Pattern(m, j) >= 0x10_0000_0000_0000
    decreases j
  {
    if j > 0 {
      ScaleScale(m, 1, j - 1);
      assert Scale(m, 1) == 2 * Scale(m, 0);
      if 2 * m < 0x10_0000_0000_0000 { PatternBound(2 * m, j - 1); }
    }
  }

  lemma TimesTwo52(x: u64, p: u64)
    requires 0 < Abs(x) < 0x10_0000_0000_0000 && p == TWO52
    ensures Product(x, p) == Scale(Scale(Abs(x), 52), 1074)
    ensures Scale(Abs(x), 52) >= 0x10_0000_0000_0000
  {
    TimesPower(p, 1075, x);
    assert Product(x, p) == Product(p, x);
    ScaleScale(Abs(x), 52, 1074);
    Constants(Abs(x));
  }

  /** frexp. */
  function Frexp(f: u64): (r: (u64, int))
  {
    if IsZero(f) || !IsFinite(f) then (f, 0)
    else
      var (y, e) := Normalize(f);
      (WithExponent(y, 1022), e + Exponent(y) - 1023 + 1)
  }

  /** f == frac * 2**exp with the absolute value of frac in [1/2, 1). */
  lemma FrexpValue(f: u64)
    requires IsFinite(f) && !IsZero(f)
    ensures var (frac, exp) := Frexp(f);
            Sign(frac) == Sign(f) && 0x3FE0_0000_0000_0000 <= Abs(frac) < 0x3FF0_0000_0000_0000 && -1073 <= exp <= 1024 &&
            Scale(Mag(Abs(f)), 1100) == Scale(Mag(Abs(frac)), exp + 1100)
  {
    var (y, e) := Normalize(f);
    NormalizeValue(f);
    NormalMagnitude(y);
    var frac := Encoded(y, 1022);
    assert Frexp(f) == (frac, e + Exponent(y) - 1022);
    assert 0x3FE0_0000_0000_0000 <= Abs(frac) < 0x3FF0_0000_0000_0000;
    FrexpScale(Mag(Abs(f)), Significand(y), Exponent(y), -e);
  }

  /** The significand of a normal double, with its implicit bit. */
  function Significand(y: u64): (m: u64)
    ensures 0x10_0000_0000_0000 <= m < 0x20_0000_0000_0000
  {
    0x10_0000_0000_0000 + y % 0x10_0000_0000_0000
  }

  lemma NormalMagnitude(y: u64)
    requires Exponent(y) >= 1
    ensures Abs(y) == 0x10_0000_0000_0000 * (Exponent(y) - 1) + Significand(y)
    ensures Mag(Abs(y)) == Scale(Significand(y), Exponent(y) - 1)
  {
    var f := y % 0x10_0000_0000_0000;
    FractionOf(y);
    MagOf(Exponent(y), f);
  }

  lemma FractionOf(y: u64)
    ensures Abs(y) % 0x10_0000_0000_0000 == y % 0x10_0000_0000_0000
    ensures Abs(y) == 0x10_0000_0000_0000 * (Abs(y) / 0x10_0000_0000_0000) + y % 0x10_0000_0000_0000
  {
  }

  lemma FrexpScale(v: nat, m: nat, field: nat, e: nat)
    requires 1 <= field <= 2046 && e <= 52 && Scale(v, e) == Scale(m, field - 1)
    ensures Scale(v, 1100) == Scale(Scale(m, 1021), field - e - 1022 + 1100)
  {
    ScaleScale(v, e, 1100 - e);
    ScaleScale(m, field - 1, 1100 - e);
    ScaleScale(m, 1021, field - e - 1022 + 1100);
  }

  // ---------- ldexp ----------

  /** Go's int is 64 bits wide and wraps around. */
  function WrapInt(x: int): int
  {
    (x + 0x8000_0000_0000_0000) % 0x1_0000_0000_0000_0000 - 0x8000_0000_0000_0000
  }

  predicate FitsInt(x: int) { -0x8000_0000_0000_0000 <= x < 0x8000_0000_0000_0000 }

  /** ldexp. */
  function Ldexp(frac: u64, exp: int): (r: u64)
    requires FitsInt(exp)
  {
    if IsZero(frac) || !IsFinite(frac) then frac
    else
      var (y, e) := Normalize(frac);
      Assemble(y, WrappedExponent(exp, e, y))
  }

  /** exp += e; exp += int(x>>shift)&mask - bias */
  function WrappedExponent(exp: int, e: int, y: u64): int { WrapInt(WrapInt(exp + e) + (Exponent(y) - 1023)) }

  /** The second half of ldexp: y's significand on the exponent t. */
  function Assemble(y: u64, t: int): u64
  {
    if t < -1075 then Signbit(Sign(y) == 1)
    else if t > 1023 then Signbit(Sign(y) == 1) + INF
    else
      var (exp2, m) := if t < -1022 then (t + 53, TINY) else (t, ONE);
      MulFloat(m, WithExponent(y, exp2 + 1023))
  }

  /** The exponent of the result of ldexp, before any wrap-around. */
  function ResultExponent(frac: u64, exp: int): int
  {
    var (y, e) := Normalize(frac);
    exp + e + Exponent(y) - 1023
  }

  /** r is frac * 2**exp, correctly rounded. */
  ghost predicate IsScaled(frac: u64, exp: int, r: u64)
  {
    Sign(r) == Sign(frac) &&
    if exp >= 0 then NearestEven(Scale(Mag(Abs(frac)), exp), 0, Abs(r))
    else NearestEven(Mag(Abs(frac)), -exp, Abs(r))
  }

  lemma WrapTwice(x: int, y: int)
    ensures WrapInt(WrapInt(x) + y) == WrapInt(x + y)
  {
    var q := (x + 0x8000_0000_0000_0000) / 0x1_0000_0000_0000_0000;
    assert WrapInt(x) == x - 0x1_0000_0000_0000_0000 * q;
  }

  lemma WrapFits(x: int)
    requires FitsInt(x)
    ensures WrapInt(x) == x
  {
  }

  lemma SignedResult(negative: bool, a: nat)
    requires a <= INF
    ensures Signbit(negative) + a < 0x1_0000_0000_0000_0000
    ensures Abs(Signbit(negative) + a) == a && Sign(Signbit(negative) + a) == if negative then 1 else 0
  {
  }

  /** Case underflow: below half of the smallest subnormal. */
  lemma Underflows(v: nat, m: nat, field: nat, e: nat, k: nat)
    requires m < 0x20_0000_0000_0000 && field >= 1 && Scale(v, e) == Scale(m, field - 1)
    requires field + 53 <= k + e
    ensures BetweenMidpoints(v, k, 0)
  {
    Constants(1);
    ScaleOrder(m, 0x20_0000_0000_0000, field - 1);
    ScaleScale(1, 53, field - 1);
    ScaleAdd(Scale(1, field + 52), Scale(1, field + 52), 0);
    assert Scale(1, field + 53) == 2 * Scale(1, field + 52);
    ScaleGrows(1, field + 53, k + e);
    ScaleScale(1, k, e);
    ScaleAdd(v, v, e);
    ScaleOrder(2 * v, Scale(1, k), e);
    ScaleOrder(0, 0, k);
  }

  /** Case overflow: at least two to the 1024. */
  lemma Overflows(v: nat, m: nat, e: nat, n: nat)
    requires m >= 0x10_0000_0000_0000 && Scale(v, e) == Scale(m, n) && n >= 2046 + e
    ensures BetweenMidpoints(v, 0, INF)
  {
    AtLeastPower(v, m, e, n, 0x10_0000_0000_0000, 2046);
    AtInfinity(v, INF);
  }

  lemma AtLeastPower(v: nat, m: nat, e: nat, n: nat, c: nat, k: nat)
    requires m >= c && Scale(v, e) == Scale(m, n) && n >= k + e
    ensures Scale(c, k) <= v
  {
    var x := Scale(c, k);
    assert Scale(x, e) <= Scale(c, n) by { ScaleScale(c, k, e); ScaleGrows(c, k + e, n); }
    assert Scale(c, n) <= Scale(m, n) by { ScaleOrder(c, m, n); }
    if v < x { ScaleOrder(v, x, e); }
  }

  lemma AtInfinity(v: nat, top: nat)
    requires top == INF && Scale(0x10_0000_0000_0000, 2046) <= v
    ensures BetweenMidpoints(v, 0, top)
  {
    InfMagnitude(top, 2047);
    AboveTop(v, top);
  }

  lemma AboveTop(v: nat, top: nat)
    requires top > 0 && Mag(top) <= v
    ensures AboveLowerMidpoint(v, 0, top)
  {
    MagStep(top - 1);
  }

  lemma InfMagnitude(top: nat, field: nat)
    requires top == INF && field == 2047
    ensures Mag(top) == Scale(0x10_0000_0000_0000, field - 1)
  {
    MagOf(field, 0);
  }

  /** The encoded significand on the final exponent. */
  lemma Encoded(y: u64, field: nat) returns (x: u64)
    requires 1 <= field <= 2046
    ensures x == WithExponent(y, field) && IsFinite(x) && Sign(x) == Sign(y)
    ensures Mag(Abs(x)) == Scale(Significand(y), field - 1)
  {
    x := WithExponent(y, field);
    MagOf(field, y % 0x10_0000_0000_0000);
  }

  /** A positive power of two times x. */
  lemma TimesPower(p: u64, field: nat, x: u64)
    requires 2 <= field <= 2046 && p == 0x10_0000_0000_0000 * field
    ensures Product(p, x) == Scale(Mag(Abs(x)), field + 51)
    ensures Sign(p) == 0
  {
    var v := Mag(Abs(x));
    MagOf(field, 0);
    assert Mag(p) == Scale(1, field + 51) by { ScaleOfOne(52); ScaleScale(1, 52, field - 1); }
    assert Abs(p) == p;
    ScaleIsProduct(v, field + 51);
    assert Product(p, x) == Scale(1, field + 51) * v;
  }

  lemma ScaleOfOne(n: nat)
    requires n == 52
    ensures Scale(1, n) == 0x10_0000_0000_0000
  {
    ScaleBy52(1, n);
  }

  /** frac * 2**exp and significand * 2**n are the same number. */
  lemma SameNumber(v: nat, e: nat, m: nat, field: nat, exp: int, n: nat, j: nat)
    requires field >= 1 && e <= 52 && Scale(v, e) == Scale(m, field - 1)
    requires n - j == exp - e + field - 1
    ensures exp >= 0 ==> Scale(Scale(v, exp), j) == Scale(m, n)
    ensures exp < 0 ==> Scale(v, j) == Scale(Scale(m, n), -exp)
  {
    if exp >= 0 {
      ScaleScale(v, exp, j);
      ScaleScale(v, e, exp + j);
      ScaleScale(v, exp + j, e);
      ScaleScale(m, field - 1, exp + j);
      ScaleScale(m, n, e);
      ScaleOrder(Scale(v, exp + j), Scale(m, n), e);
      ScaleOrder(Scale(m, n), Scale(v, exp + j), e);
    } else {
      ScaleScale(m, n, -exp);
      ScaleScale(v, e, j);
      ScaleScale(v, j, e);
      ScaleScale(m, field - 1, j);
      ScaleScale(m, n - exp, e);
      ScaleOrder(Scale(v, j), Scale(m, n - exp), e);
      ScaleOrder(Scale(m, n - exp), Scale(v, j), e);
    }
  }

  lemma ResultExponentRange(frac: u64, exp: int)
    requires IsFinite(frac) && !IsZero(frac)
    ensures exp - 1074 <= ResultExponent(frac, exp) <= exp + 1023
  {
    NormalizeValue(frac);
  }

  /** ldexp while nothing wraps around: each of its four cases rounds correctly. */
  lemma LdexpInRange(frac: u64, exp: int)
    requires IsFinite(frac) && !IsZero(frac) && FitsInt(exp) && FitsInt(ResultExponent(frac, exp))
    ensures IsScaled(frac, exp, Ldexp(frac, exp))
  {
    var (y, e) := Normalize(frac);
    var t := ResultExponent(frac, exp);
    WrapFits(t);
    LdexpCases(frac, exp, y, e, t);
    if t < -1075 {
      UnderflowCase(frac, exp, y, e);
    } else if t > 1023 {
      OverflowCase(frac, exp, y, e);
    } else if t < -1022 {
      SubnormalCase(frac, exp, y, e, t);
    } else {
      NormalCase(frac, exp, y, e, t);
    }
  }

  lemma LdexpCases(frac: u64, exp: int, y: u64, e: int, t: int)
    requires IsFinite(frac) && !IsZero(frac) && FitsInt(exp) && (y, e) == Normalize(frac)
    requires t == WrapInt(exp + e + Exponent(y) - 1023)
    ensures Prepared(frac, exp, y, e) && Ldexp(frac, exp) == Assemble(y, t)
  {
    WrappedOnce(exp, e, y);
    LdexpAssembles(frac, exp, y, e);
    NormalizedIsPrepared(frac, exp, y, e);
  }

  lemma WrappedOnce(exp: int, e: int, y: u64)
    ensures WrappedExponent(exp, e, y) == WrapInt(exp + e + Exponent(y) - 1023)
  {
    var x, d := exp + e, Exponent(y) - 1023;
    WrapTwice(x, d);
    assert x + d == exp + e + Exponent(y) - 1023;
  }

  lemma LdexpAssembles(frac: u64, exp: int, y: u64, e: int)
    requires IsFinite(frac) && !IsZero(frac) && FitsInt(exp) && (y, e) == Normalize(frac)
    ensures Ldexp(frac, exp) == Assemble(y, WrappedExponent(exp, e, y))
  {
  }

  lemma NormalizedIsPrepared(frac: u64, exp: int, y: u64, e: int)
    requires IsFinite(frac) && !IsZero(frac) && (y, e) == Normalize(frac)
    ensures Prepared(frac, exp, y, e)
  {
    NormalizeValue(frac);
    NormalMagnitude(y);
  }

  ghost predicate Prepared(frac: u64, exp: int, y: u64, e: int)
  {
    IsFinite(frac) && !IsZero(frac) && (y, e) == Normalize(frac) && -52 <= e <= 0 &&
    Exponent(y) >= 1 && Sign(y) == Sign(frac) &&
    Scale(Mag(Abs(frac)), -e) == Scale(Significand(y), Exponent(y) - 1)
  }

  lemma ScaledResult(frac: u64, exp: int, r: nat)
    requires r <= INF
    requires exp >= 0 ==> BetweenMidpoints(Scale(Mag(Abs(frac)), exp), 0, r)
    requires exp < 0 ==> BetweenMidpoints(Mag(Abs(frac)), -exp, r)
    ensures IsScaled(frac, exp, Signbit(Sign(frac) == 1) + r)
  {
    SignedResult(Sign(frac) == 1, r);
    if exp >= 0 { NeighboursSuffice(Scale(Mag(Abs(frac)), exp), 0, r); }
    else { NeighboursSuffice(Mag(Abs(frac)), -exp, r); }
  }

  lemma UnderflowCase(frac: u64, exp: int, y: u64, e: int)
    requires Prepared(frac, exp, y, e) && exp + e + Exponent(y) - 1023 < -1075
    ensures IsScaled(frac, exp, Signbit(Sign(frac) == 1))
  {
    Underflows(Mag(Abs(frac)), Significand(y), Exponent(y), -e, -exp);
    ScaledResult(frac, exp, 0);
  }

  lemma OverflowCase(frac: u64, exp: int, y: u64, e: int)
    requires Prepared(frac, exp, y, e) && exp + e + Exponent(y) - 1023 > 1023
    ensures IsScaled(frac, exp, Signbit(Sign(frac) == 1) + INF)
  {
    var v := Mag(Abs(frac));
    ScaleScale(v, -e, exp);
    ScaleScale(v, exp, -e);
    ScaleScale(Significand(y), Exponent(y) - 1, exp);
    Overflows(Scale(v, exp), Significand(y), -e, Exponent(y) - 1 + exp);
    ScaledResult(frac, exp, INF);
  }

  lemma NormalCase(frac: u64, exp: int, y: u64, e: int, t: int)
    requires Prepared(frac, exp, y, e) && t == exp + e + Exponent(y) - 1023 && -1022 <= t <= 1023
    ensures IsScaled(frac, exp, Assemble(y, t))
  {
    var x := Encoded(y, t + 1023);
    assert Assemble(y, t) == MulFloat(ONE, x);
    TimesOne(x);
    NormalIsExact(frac, exp, y, e, x);
  }

  lemma NormalIsExact(frac: u64, exp: int, y: u64, e: int, x: u64)
    requires Prepared(frac, exp, y, e) && IsFinite(x) && exp + e + Exponent(y) >= 1
    requires Mag(Abs(x)) == Scale(Significand(y), exp + e + Exponent(y) - 1)
    ensures IsScaled(frac, exp, Signbit(Sign(frac) == 1) + Abs(x))
  {
    var v, n := Mag(Abs(frac)), exp + e + Exponent(y) - 1;
    SameNumber(v, -e, Significand(y), Exponent(y), exp, n, 0);
    var r := Abs(x);
    assert r <= INF && (exp >= 0 ==> Scale(v, exp) == Mag(r)) && (exp < 0 ==> v == Scale(Mag(r), -exp));
    ExactlyScaled(v, exp, r);
    ScaledResult(frac, exp, r);
  }

  lemma ExactlyScaled(v: nat, exp: int, r: nat)
    requires r <= INF && (exp >= 0 ==> Scale(v, exp) == Mag(r)) && (exp < 0 ==> v == Scale(Mag(r), -exp))
    ensures exp >= 0 ==> BetweenMidpoints(Scale(v, exp), 0, r)
    ensures exp < 0 ==> BetweenMidpoints(v, -exp, r)
  {
    if exp >= 0 { ExactIsNearest(r, 0); } else { ExactIsNearest(r, -exp); }
  }

  lemma TimesOne(x: u64)
    requires IsFinite(x)
    ensures MulFloat(ONE, x) == Signbit(Sign(x) == 1) + Abs(x)
  {
    TimesPower(ONE, 1023, x);
    RoundExact(Abs(x), 1074);
  }

  lemma TimesTiny(x: u64)
    requires IsFinite(x)
    ensures MulFloat(TINY, x) == Signbit(Sign(x) == 1) + Round(Scale(Mag(Abs(x)), 1021), 1074)
  {
    TimesPower(TINY, 970, x);
  }

  lemma SubnormalCase(frac: u64, exp: int, y: u64, e: int, t: int)
    requires Prepared(frac, exp, y, e) && t == exp + e + Exponent(y) - 1023 && -1075 <= t < -1022
    ensures IsScaled(frac, exp, Assemble(y, t))
  {
    var x := Encoded(y, t + 1076);
    AssembleSubnormal(y, t, x);
    SubnormalIsRounded(frac, exp, y, e, Mag(Abs(x)));
  }

  lemma AssembleSubnormal(y: u64, t: int, x: u64)
    requires -1075 <= t < -1022 && x == WithExponent(y, t + 1076) && IsFinite(x)
    ensures Assemble(y, t) == Signbit(Sign(y) == 1) + Round(Scale(Mag(Abs(x)), 1021), 1074)
  {
    TimesTiny(x);
  }

  lemma SubnormalIsRounded(frac: u64, exp: int, y: u64, e: int, w: nat)
    requires Prepared(frac, exp, y, e) && exp + e + Exponent(y) + 52 >= 0
    requires w == Scale(Significand(y), exp + e + Exponent(y) + 52)
    ensures IsScaled(frac, exp, Signbit(Sign(frac) == 1) + Round(Scale(w, 1021), 1074))
  {
    var v, r, n := Mag(Abs(frac)), Round(Scale(w, 1021), 1074), exp + e + Exponent(y) + 52;
    SameNumber(v, -e, Significand(y), Exponent(y), exp, n, 53);
    assert w == Scale(Significand(y), n);
    RoundedOnce(v, exp, w, r);
    RoundBound(w);
    ScaledResult(frac, exp, r);
  }

  lemma RoundBound(w: nat)
    ensures Round(Scale(w, 1021), 1074) <= INF
  {
  }

  /** The one rounding of the final multiplication is the rounding of frac * 2**exp. */
  lemma RoundedOnce(v: nat, exp: int, w: nat, r: nat)
    requires exp >= 0 ==> Scale(Scale(v, exp), 53) == w
    requires exp < 0 ==> Scale(v, 53) == Scale(w, -exp)
    requires r == Round(Scale(w, 1021), 1074)
    ensures exp >= 0 ==> BetweenMidpoints(Scale(v, exp), 0, r)
    ensures exp < 0 ==> BetweenMidpoints(v, -exp, r)
  {
    RoundIsNearestEven(Scale(w, 1021), 1074);
    MidpointsRescaled(w, 53, r, 1021);
    if exp >= 0 {
      MidpointsRescaled(Scale(v, exp), 0, r, 53);
    } else {
      MidpointsRescaled(w, 53, r, -exp);
      MidpointsRescaled(v, -exp, r, 53);
    }
  }

  /**
   * ldexp is correctly rounded exactly when the exponent arithmetic stays inside
   * an int. Otherwise it wraps: a huge result comes back as zero, a tiny one as
   * infinity.
   */
  lemma LdexpRounds(frac: u64, exp: int)
    requires IsFinite(frac) && !IsZero(frac) && FitsInt(exp)
    ensures IsScaled(frac, exp, Ldexp(frac, exp)) <==> FitsInt(ResultExponent(frac, exp))
  {
    if FitsInt(ResultExponent(frac, exp)) {
      LdexpInRange(frac, exp);
    } else {
      LdexpWraps(frac, exp);
    }
  }

  lemma LdexpWraps(frac: u64, exp: int)
    requires IsFinite(frac) && !IsZero(frac) && FitsInt(exp) && !FitsInt(ResultExponent(frac, exp))
    ensures exp > 0 ==> Abs(Ldexp(frac, exp)) == 0
    ensures exp < 0 ==> Abs(Ldexp(frac, exp)) == INF
    ensures !IsScaled(frac, exp, Ldexp(frac, exp))
  {
    var (y, e) := Normalize(frac);
    var t := WrapInt(ResultExponent(frac, exp));
    LdexpCases(frac, exp, y, e, t);
    WrappedAround(frac, exp, t);
    SignedResult(Sign(frac) == 1, if exp > 0 then 0 else INF);
    if exp > 0 {
      OverflowCase(frac, exp, y, e);
    } else {
      UnderflowCase(frac, exp, y, e);
    }
    NotBoth(frac, exp);
  }

  /** ldexp undoes frexp, on every pattern there is. */
  lemma LdexpUndoesFrexp(f: u64)
    ensures var (frac, exp) := Frexp(f); FitsInt(exp) && Ldexp(frac, exp) == f
  {
    if IsFinite(f) && !IsZero(f) {
      var (frac, exp) := Frexp(f);
      FrexpValue(f);
      assert Normalize(frac) == (frac, 0) && FitsInt(ResultExponent(frac, exp));
      LdexpInRange(frac, exp);
      SameScale(Mag(Abs(f)), Mag(Abs(frac)), exp);
      var k := if exp >= 0 then 0 else -exp;
      ExactIsNearest(Abs(f), k);
      NeighboursSuffice(Scale(Mag(Abs(f)), k), k, Abs(f));
      NearestEvenUnique(Scale(Mag(Abs(f)), k), k, Abs(f), Abs(Ldexp(frac, exp)));
    }
  }

  lemma SameScale(v: nat, m: nat, exp: int)
    requires -1100 <= exp && Scale(v, 1100) == Scale(m, exp + 1100)
    ensures exp >= 0 ==> Scale(m, exp) == v == Scale(v, 0)
    ensures exp < 0 ==> Scale(v, -exp) == m
  {
    if exp >= 0 {
      ScaleScale(m, exp, 1100);
      ScaleOrder(v, Scale(m, exp), 1100);
    } else {
      ScaleScale(v, -exp, exp + 1100);
      ScaleOrder(Scale(v, -exp), m, exp + 1100);
    }
  }

  /** Such as: scaling a number of 2 or more by the largest int gives zero, and a normal one below 1 by the smallest infinity. */
  lemma LdexpAtTheEnds(frac: u64, exp: int)
    requires 0x10_0000_0000_0000 <= Abs(frac) < 0x7FF0_0000_0000_0000
    ensures exp == 0x7FFF_FFFF_FFFF_FFFF && Abs(frac) >= 0x4000_0000_0000_0000 ==>
              Abs(Ldexp(frac, exp)) == 0 && !IsScaled(frac, exp, Ldexp(frac, exp))
    ensures exp == -0x8000_0000_0000_0000 && Abs(frac) < 0x3FF0_0000_0000_0000 ==>
              Abs(Ldexp(frac, exp)) == INF && !IsScaled(frac, exp, Ldexp(frac, exp))
  {
    assert Normalize(frac) == (frac, 0) && ResultExponent(frac, exp) == exp + Exponent(frac) - 1023;
    if FitsInt(exp) && !FitsInt(ResultExponent(frac, exp)) { LdexpWraps(frac, exp); }
  }

  lemma WrappedAround(frac: u64, exp: int, t: int)
    requires IsFinite(frac) && !IsZero(frac) && FitsInt(exp) && !FitsInt(ResultExponent(frac, exp))
    requires t == WrapInt(ResultExponent(frac, exp))
    ensures exp > 0 ==> t < -1075 && ResultExponent(frac, exp) > 1023
    ensures exp <= 0 ==> exp < 0 && t > 1023 && ResultExponent(frac, exp) < -1075
  {
    ResultExponentRange(frac, exp);
    WrapOnce(ResultExponent(frac, exp));
  }

  lemma WrapOnce(x: int)
    ensures 0x8000_0000_0000_0000 <= x < 0x1_8000_0000_0000_0000 ==> WrapInt(x) == x - 0x1_0000_0000_0000_0000
    ensures -0x1_8000_0000_0000_0000 <= x < -0x8000_0000_0000_0000 ==> WrapInt(x) == x + 0x1_0000_0000_0000_0000
  {
  }

  /** No double is both zero and infinity, so only one of the two is the rounded result. */
  lemma NotBoth(frac: u64, exp: int)
    ensures !(IsScaled(frac, exp, Signbit(Sign(frac) == 1)) && IsScaled(frac, exp, Signbit(Sign(frac) == 1) + INF))
  {
    SignedResult(Sign(frac) == 1, 0);
    SignedResult(Sign(frac) == 1, INF);
    var v, k := if exp >= 0 then Scale(Mag(Abs(frac)), exp) else Mag(Abs(frac)), if exp >= 0 then 0 else -exp;
    if NearestEven(v, k, 0) && NearestEven(v, k, INF) { NearestEvenUnique(v, k, 0, INF); }
  }

  // ---------- the remainder loop ----------

  predicate AtLeast(a: u64, b: u64) { OrderKey(a) >= OrderKey(b) }

  /** The shift that mod subtracts by: the exponent difference, one less if y's fraction is larger. */
  function ShiftFor(r: u64, y: u64): int
  {
    var (yfr, yexp) := Frexp(y);
    var (rfr, rexp) := Frexp(r);
    (if OrderKey(rfr) < OrderKey(yfr) then rexp - 1 else rexp) - yexp
  }

  /** y shifted is the largest power-of-two multiple of y that does not exceed r. */
  lemma ShiftFits(r: u64, y: u64, s: int)
    requires IsFinite(r) && IsFinite(y) && Sign(r) == 0 && Sign(y) == 0 && 0 < y <= r
    requires s == ShiftFor(r, y)
    ensures 0 <= s <= 2097 && Scale(Mag(y), s) <= Mag(r) < Scale(Mag(y), s + 1)
  {
    FrexpFraction(y);
    FrexpFraction(r);
    MagMonotone(y, r);
    var a, b := Abs(Frexp(r).0), Abs(Frexp(y).0);
    SameBinade(a, b);
    ShiftByFractions(r, y, a, b);
    FractionsCompare(Mag(r), Mag(a), Frexp(r).1 + 1100, Mag(y), Mag(b), Frexp(y).1 + 1100, s);
  }

  /** FrexpValue for a positive double, with the fraction named by its pattern. */
  lemma FrexpFraction(f: u64)
    requires IsFinite(f) && !IsZero(f) && Sign(f) == 0
    ensures var a := Abs(Frexp(f).0);
            Frexp(f).0 == a && Abs(f) == f && 0x3FE0_0000_0000_0000 <= a < 0x3FF0_0000_0000_0000 &&
            -1073 <= Frexp(f).1 <= 1024 && Scale(Mag(f), 1100) == Scale(Mag(a), Frexp(f).1 + 1100)
  {
    FrexpValue(f);
  }

  lemma ShiftByFractions(r: u64, y: u64, a: nat, b: nat)
    requires Frexp(r).0 == a == Abs(a) && Frexp(y).0 == b == Abs(b)
    requires a < b <==> Mag(a) < Mag(b)
    ensures ShiftFor(r, y) == (if Mag(a) < Mag(b) then Frexp(r).1 + 1100 - 1 else Frexp(r).1 + 1100) - (Frexp(y).1 + 1100)
  {
  }

  lemma FractionsCompare(r: nat, fr: nat, re: nat, y: nat, fy: nat, ye: nat, s: int)
    requires Scale(r, 1100) == Scale(fr, re) && Scale(y, 1100) == Scale(fy, ye)
    requires fy < 2 * fr && fr < 2 * fy
    requires s == (if fr < fy then re - 1 else re) - ye
    requires y <= r && 27 <= re
    ensures s >= 0 && Scale(y, s) <= r < Scale(y, s + 1)
  {
    var k := if fr < fy then re - 1 else re;
    BetweenShifts(fr, re, fy, k);
    if s < 0 {
      ScaleGrows(fy, k + 1, ye);
      ScaleOrder(r, y, 1100);
    } else {
      Rebased(y, fy, ye, s);
      Rebased(y, fy, ye, s + 1);
      ScaleOrder(Scale(y, s), r, 1100);
      ScaleOrder(r, Scale(y, s), 1100);
      ScaleOrder(r, Scale(y, s + 1), 1100);
    }
  }

  lemma BetweenShifts(fr: nat, re: nat, fy: nat, k: nat)
    requires fy < 2 * fr && fr < 2 * fy && re > 0 && k == if fr < fy then re - 1 else re
    ensures Scale(fy, k) <= Scale(fr, re) < Scale(fy, k + 1)
  {
    ScaleAdd(fr, fr, k);
    ScaleAdd(fy, fy, k);
    if fr < fy {
      ScaleOrder(fy, 2 * fr, k);
      ScaleOrder(fr, fy, re);
    } else {
      ScaleOrder(fy, fr, k);
      ScaleOrder(fr, 2 * fy, k);
    }
  }

  lemma Rebased(y: nat, fy: nat, ye: nat, s: nat)
    requires Scale(y, 1100) == Scale(fy, ye)
    ensures Scale(Scale(y, s), 1100) == Scale(fy, ye + s)
  {
    ScaleScale(y, s, 1100);
    ScaleScale(y, 1100, s);
    ScaleScale(fy, ye, s);
  }

  /** Two fractions in [1/2, 1): neither reaches twice the other. */
  lemma SameBinade(a: nat, b: nat)
    requires 0x3FE0_0000_0000_0000 <= a < 0x3FF0_0000_0000_0000 && 0x3FE0_0000_0000_0000 <= b < 0x3FF0_0000_0000_0000
    ensures a < b <==> Mag(a) < Mag(b)
    ensures Mag(b) < 2 * Mag(a) && Mag(a) < 2 * Mag(b)
  {
    MagMonotone(if a < b then a else b, if a < b then b else a);
    Doubling(a);
    Doubling(b);
    MagMonotone(a + 1, b + 0x10_0000_0000_0000);
    MagStep(a);
    MagMonotone(b + 1, a + 0x10_0000_0000_0000);
    MagStep(b);
  }

  lemma Doubling(a: nat)
    requires a >= 0x10_0000_0000_0000
    ensures Mag(a + 0x10_0000_0000_0000) == 2 * Mag(a)
  {
  }

  /** Shifting y below r is exact: the result of ldexp is y times a power of two. */
  lemma ShiftedExactly(r: u64, y: u64, s: nat)
    requires IsFinite(r) && IsFinite(y) && Sign(r) == 0 && Sign(y) == 0 && 0 < y <= r
    requires s <= 2097 && Scale(Mag(y), s) <= Mag(r)
    ensures var z := Ldexp(y, s);
            Sign(z) == 0 && z <= r && Mag(z) == Scale(Mag(y), s)
  {
    var c := UlpExponent(y);
    var m := MultipleOfUlp(y, y);
    var p := Pattern(m, c + s);
    ScaleScale(m, c, s);
    if p > r { MagMonotone(r, p); }
    ResultExponentRange(y, s);
    LdexpInRange(y, s);
    ExactIsNearest(p, 0);
    NeighboursSuffice(Scale(Mag(y), s), 0, p);
    NearestEvenUnique(Scale(Mag(y), s), 0, p, Abs(Ldexp(y, s)));
  }

  /** So is the subtraction. */
  lemma SubtractedExactly(r: u64, z: u64)
    requires IsFinite(r) && Sign(r) == 0 && Sign(z) == 0 && z <= r && Mag(r) < 2 * Mag(z)
    ensures var d := SubFloat(r, z);
            Sign(d) == 0 && IsFinite(d) && Mag(Abs(d)) == Mag(r) - Mag(z)
  {
    MagMonotone(z, r);
    MagMonotone(0, z);
    var q := DifferenceIsDouble(z, r);
    if q >= r { MagMonotone(r, q); }
    assert SubFloat(r, z) == Round(Mag(q), 0);
    RoundExact(q, 0);
  }

  /** One pass: a multiple of y is taken off exactly, and the next shift is smaller. */
  lemma OnePass(r: u64, y: u64)
    requires IsFinite(r) && IsFinite(y) && Sign(r) == 0 && Sign(y) == 0 && 0 < y <= r
    ensures var s := ShiftFor(r, y);
            0 <= s <= 2097 &&
            var d := SubFloat(r, Ldexp(y, s));
            Sign(d) == 0 && IsFinite(d) && Mag(d) == Mag(r) - Scale(Mag(y), s) < Mag(r) &&
            (y <= d ==> ShiftFor(d, y) < s)
  {
    var s := ShiftFor(r, y);
    ShiftFits(r, y, s);
    ShiftedExactly(r, y, s);
    ScaleAdd(Mag(y), Mag(y), s);
    ScaleScale(Mag(y), 1, s);
    SubtractedExactly(r, Ldexp(y, s));
    MagMonotone(0, y);
    ScaleOrder(0, Mag(y), s);
    var d := SubFloat(r, Ldexp(y, s));
    if y <= d { SmallerShift(d, y, s); }
  }

  lemma SmallerShift(d: u64, y: u64, s: nat)
    requires IsFinite(d) && IsFinite(y) && Sign(d) == 0 && Sign(y) == 0 && 0 < y <= d
    requires Mag(d) < Scale(Mag(y), s)
    ensures ShiftFor(d, y) < s
  {
    var t := ShiftFor(d, y);
    ShiftFits(d, y, t);
    if t >= s { ScaleGrows(Mag(y), s, t); }
  }

  ghost predicate StrictlyDecreasing(shifts: seq<int>)
  {
    forall i, j :: 0 <= i < j < |shifts| ==> shifts[i] > shifts[j]
  }

  /** Distinct shifts between zero and the first: the loop runs at most shifts[0] + 1 times. */
  lemma {:induction false} PassesBounded(shifts: seq<int>)
    requires StrictlyDecreasing(shifts) && forall i :: 0 <= i < |shifts| ==> shifts[i] >= 0
    ensures |shifts| > 0 ==> |shifts| <= shifts[0] + 1
  {
    if |shifts| > 1 {
      PassesBounded(shifts[1..]);
    }
  }

  ghost predicate IsRemainder(x: nat, y: nat, r: nat)
  {
    exists k: nat :: x == k * y + r
  }

  lemma RemainderStep(x: nat, y: nat, r: nat, s: nat)
    requires IsRemainder(x, y, r) && Scale(y, s) <= r
    ensures IsRemainder(x, y, r - Scale(y, s))
  {
    var k: nat :| x == k * y + r;
    ScaleIsProduct(y, s);
    ScaleOrder(0, 1, s);
    assert (k + Scale(1, s)) * y == k * y + y * Scale(1, s);
  }

  lemma RemainderDone(x: nat, y: nat, r: nat)
    requires IsRemainder(x, y, r) && r < y
    ensures r == x % y
  {
    var k: nat :| x == k * y + r;
    QuotientUnique(x / y, x % y, k, r, y);
  }

  lemma QuotientUnique(q: int, a: int, k: int, b: int, y: int)
    requires 0 <= a < y && 0 <= b < y && q * y + a == k * y + b
    ensures a == b
  {
    assert (q - k) * y == b - a && (k - q) * y == a - b;
    if q > k { Multiple(q - k, y); } else if q < k { Multiple(k - q, y); }
  }

  lemma Multiple(n: int, y: int)
    requires n >= 1 && y > 0
    ensures n * y >= y
  {
  }

  /** What the loop keeps about its shifts: they count down from the first. */
  ghost predicate Countdown(r0: u64, y: u64, r: u64, shifts: seq<int>)
  {
    StrictlyDecreasing(shifts) && (forall i :: 0 <= i < |shifts| ==> shifts[i] >= 0) &&
    (if shifts == [] then r == r0 else shifts[0] == ShiftFor(r0, y)) &&
    (|shifts| > 0 && y <= r ==> ShiftFor(r, y) < shifts[|shifts| - 1])
  }

  lemma CountdownStep(r0: u64, y: u64, r: u64, shifts: seq<int>, d: u64)
    requires Countdown(r0, y, r, shifts) && y <= r && ShiftFor(r, y) >= 0
    requires y <= d ==> ShiftFor(d, y) < ShiftFor(r, y)
    ensures Countdown(r0, y, d, shifts + [ShiftFor(r, y)])
  {
  }

  /** One pass on positive finite operands. */
  lemma PassKeeps(r0: u64, y: u64, r: u64)
    requires IsFinite(r) && IsFinite(y) && Sign(r) == 0 && Sign(y) == 0 && 0 < y <= r
    requires IsRemainder(Mag(r0), Mag(y), Mag(r))
    ensures var s := ShiftFor(r, y);
            0 <= s <= 2097 &&
            var d := SubFloat(r, Ldexp(y, s));
            IsFinite(d) && Sign(d) == 0 && d == Abs(d) && Mag(d) < Mag(r) &&
            IsRemainder(Mag(r0), Mag(y), Mag(d)) && (y <= d ==> ShiftFor(d, y) < s)
  {
    OnePass(r, y);
    RemainderStep(Mag(r0), Mag(y), Mag(r), ShiftFor(r, y));
  }

  /** The body of the loop: find the shift and subtract the shifted y. */
  method TakeOff(r: u64, y: u64, yfr: u64, yexp: int, ghost r0: u64) returns (d: u64, ghost s: int)
    requires IsFinite(r) && IsFinite(y) && Sign(r) == 0 && Sign(y) == 0 && 0 < y <= r
    requires (yfr, yexp) == Frexp(y)
    requires IsRemainder(Mag(r0), Mag(y), Mag(r))
    ensures s == ShiftFor(r, y) && 0 <= s && d == Abs(d) && IsFinite(d) && Sign(d) == 0 && Mag(d) < Mag(r)
    ensures IsRemainder(Mag(r0), Mag(y), Mag(d)) && (y <= d ==> ShiftFor(d, y) < s)
  {
    var (rfr, rexp) := Frexp(r);
    if OrderKey(rfr) < OrderKey(yfr) {
      rexp := rexp - 1;
    }
    assert rexp - yexp == ShiftFor(r, y);
    PassKeeps(r0, y, r);
    s := rexp - yexp;
    d := SubFloat(r, Ldexp(y, rexp - yexp));
  }

  /** The loop of mod, on a positive y and an r0 that is not less than zero; that may be a negative zero. */
  method ReduceLoop(r0: u64, y: u64) returns (r: u64, ghost shifts: seq<int>)
    requires IsFinite(r0) && (Sign(r0) == 0 || IsZero(r0)) && 0 < y <= INF
    ensures y == INF ==> r == r0
    ensures IsFinite(r) && Sign(r) == Sign(r0)
    ensures y < INF ==> Mag(y) > 0 && Mag(Abs(r)) == Mag(Abs(r0)) % Mag(y)
    ensures StrictlyDecreasing(shifts)
    ensures |shifts| > 0 ==> |shifts| <= shifts[0] + 1 && shifts[0] == ShiftFor(Abs(r0), y)
  {
    var (yfr, yexp) := Frexp(y);
    r := r0;
    shifts := [];
    ghost var m := Abs(r0);
    assert Mag(m) == 0 * Mag(y) + Mag(m);
    while AtLeast(r, y)
      invariant IsFinite(r) && (r == r0 || Sign(r) == Sign(r0) == 0)
      invariant IsRemainder(Mag(m), Mag(y), Mag(Abs(r)))
      invariant Countdown(m, y, Abs(r), shifts)
      invariant y == INF ==> r == r0
      decreases Mag(Abs(r))
    {
      GuardMeans(r, y);
      var d, s := TakeOff(r, y, yfr, yexp, m);
      CountdownStep(m, y, r, shifts, d);
      shifts := shifts + [s];
      r := d;
    }
    PassesBounded(shifts);
    LoopDone(m, y, r);
  }

  lemma GuardMeans(r: u64, y: u64)
    requires IsFinite(r) && (Sign(r) == 0 || IsZero(r)) && 0 < y <= INF && AtLeast(r, y)
    ensures y <= r == Abs(r) && IsFinite(y) && Sign(y) == 0 && Sign(r) == 0
  {
  }

  lemma LoopDone(r0: u64, y: u64, r: u64)
    requires IsFinite(r) && (Sign(r) == 0 || IsZero(r)) && 0 < y <= INF && !AtLeast(r, y)
    requires IsRemainder(Mag(r0), Mag(y), Mag(Abs(r)))
    ensures Mag(y) > 0 && Mag(Abs(r)) == Mag(r0) % Mag(y)
  {
    MagMonotone(Abs(r), y);
    RemainderDone(Mag(r0), Mag(y), Mag(Abs(r)));
  }

  /** mod. The ghost result lists the shifts of the passes of its loop. */
  method Remainder(x: u64, y0: u64) returns (r: u64, ghost shifts: seq<int>)
    ensures IsZero(y0) || !IsFinite(x) || IsNaN(y0) ==> r == NAN && IsNaN(r)
    ensures IsFinite(x) && Abs(y0) == INF ==> r == x
    ensures IsFinite(x) && IsFinite(y0) && !IsZero(y0) ==>
              IsFinite(r) && Sign(r) == Sign(x) && Mag(Abs(y0)) > 0 &&
              Mag(Abs(r)) == Mag(Abs(x)) % Mag(Abs(y0))
    ensures StrictlyDecreasing(shifts)
    ensures |shifts| > 0 ==> |shifts| <= shifts[0] + 1 && shifts[0] == ShiftFor(Abs(x), Abs(y0))
  {
    shifts := [];
    if IsZero(y0) || Abs(x) == INF || IsNaN(x) || IsNaN(y0) {
      return NAN, [];
    }
    var y := Abs(y0);
    SignFacts(x);
    SignFacts(y);
    r := x;
    if OrderKey(x) < 0 {
      r := Negate(x);
    }
    SignFacts(r);
    r, shifts := ReduceLoop(r, y);
    if OrderKey(x) < 0 {
      SignFacts(r);
      r := Negate(r);
    }
  }

  lemma SignFacts(x: u64)
    ensures Sign(x) <= 1 && Abs(x) < 0x8000_0000_0000_0000 && (Sign(x) == 0 <==> x == Abs(x))
    ensures OrderKey(x) < 0 <==> Sign(x) == 1 && !IsZero(x)
    ensures Sign(Negate(x)) == 1 - Sign(x) && Abs(Negate(x)) == Abs(x)
    ensures Sign(x) == 1 ==> Negate(x) == Abs(x)
    ensures Abs(Abs(x)) == Abs(x) && Sign(Abs(x)) == 0
  {
  }
}
