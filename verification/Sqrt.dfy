/** The bit-by-bit square root of src/math/sqrt.go, proved correctly rounded. */
module Sqrt {
  import opened Scaling
  import opened Words
  import opened Binary64
  import opened RoundToGrid

  function Square(x: int): (y: int)
    ensures y >= 0
  {
    SquareNonNegative(x);
    x * x
  }

  lemma SquareNonNegative(x: int)
    ensures x * x >= 0
  {
  }

  /**
   * The double r is nearer to the square root of x than any other double, and
   * there is no tie: the root lies strictly between the midpoints around r.
   * Both sides are squared, in units of two to the -2148.
   */
  ghost predicate NearestRoot(x: nat, r: nat)
  {
    r <= INF && forall f: nat | f <= INF && f != r :: OnSideOf(x, r, f)
  }

  /** The root of x lies on r's side of the midpoint between r and f. */
  ghost predicate OnSideOf(x: nat, r: nat, f: nat)
  {
    var t, mid := 4 * Scale(x, 1074), Square(Mag(r) + Mag(f));
    if r < f then t < mid else mid < t
  }

  // ---------- the loop ----------

  /** One more bit of the root: the code's test asks whether q + r still fits. */
  lemma RootStep(n: nat, q: nat, r: nat, ix: nat)
    requires r > 0 && n == Square(q) + ix * r && n < Square(q + 2 * r)
    ensures 2 * q + r <= ix ==> n == Square(q + r) + (ix - (2 * q + r)) * r
    ensures 2 * q + r > ix ==> n < Square(q + r)
    ensures ix < 4 * q + 4 * r
  {
    assert Square(q + r) == Square(q) + (2 * q + r) * r;
    assert Square(q + 2 * r) == Square(q) + (4 * q + 4 * r) * r;
    assert (ix - (2 * q + r)) * r == ix * r - (2 * q + r) * r;
    if 2 * q + r > ix { ProductOrder(ix, 2 * q + r, r); }
    if ix >= 4 * q + 4 * r { ProductOrder'(4 * q + 4 * r, ix, r); }
  }

  lemma ProductOrder(a: int, b: int, c: int)
    requires a < b && c > 0
    ensures a * c < b * c
  {
  }

  lemma ProductOrder'(a: int, b: int, c: int)
    requires a <= b && c > 0
    ensures a * c <= b * c
  {
  }

  /**
   * Before the iteration that tries the bit of weight two to the j: q holds the
   * bits found so far and ix the scaled remainder.
   */
  ghost predicate Digits(n: nat, q: nat, ix: nat, j: nat)
  {
    n == Square(q) + Scale(ix, j) && n < Square(q + 2 * Scale(1, j))
  }

  lemma RootIteration(n: nat, q: nat, ix: nat, j: nat)
    requires Digits(n, q, ix, j)
    ensures var r := Scale(1, j);
            ix < 4 * q + 4 * r &&
            var (q', ix') := if 2 * q + r <= ix then (q + r, ix - (2 * q + r)) else (q, ix);
            n == Square(q') + Scale(ix', j) && n < Square(q' + r)
  {
    ScaleIsProduct(ix, j);
    ScaleIsProduct(ix - (2 * q + Scale(1, j)), j);
    ScaleOrder(0, 1, j);
    RootStep(n, q, Scale(1, j), ix);
  }

  /** What one pass of the loop leaves, after the shifts. */
  ghost predicate Pass(n: nat, q: nat, ix: nat, j: int)
  {
    j >= -1 && if j >= 0 then Digits(n, q, ix, j) else ix % 2 == 0 && n == Square(q) + ix / 2 && n < Square(q + 1)
  }

  lemma RootPass(n: nat, q: nat, ix: nat, r: nat, j: nat)
    requires Digits(n, q, ix, j) && r == Scale(1, j) && q + 2 * r <= 0x40_0000_0000_0000
    ensures ix < 0x100_0000_0000_0000 && 2 * q + r < 0x100_0000_0000_0000
    ensures 2 * q + r <= ix ==> Pass(n, q + r, 2 * (ix - (2 * q + r)), j - 1)
    ensures 2 * q + r > ix ==> Pass(n, q, 2 * ix, j - 1)
    ensures r >= 1 && r / 2 == if j > 0 then Scale(1, j - 1) else 0
  {
    RootIteration(n, q, ix, j);
    ScaleOrder(0, 1, j);
    if 2 * q + r <= ix { NextPass(n, q + r, ix - (2 * q + r), j); } else { NextPass(n, q, ix, j); }
  }

  lemma NextPass(n: nat, q: nat, ix: nat, j: nat)
    requires n == Square(q) + Scale(ix, j) && n < Square(q + Scale(1, j))
    ensures Pass(n, q, 2 * ix, j - 1)
  {
    if j > 0 { ScaleScale(ix, 1, j - 1); }
  }

  /**
   * generate sqrt(x) bit by bit: q becomes the integer square root of
   * two to the 54 times m, and ix is nonzero exactly when that root is inexact.
   */
  method RootBits(m: u64) returns (q: u64, ix: u64)
    requires 0x10_0000_0000_0000 <= m < 0x40_0000_0000_0000
    ensures var n := 0x40_0000_0000_0000 * m;
            Square(q) <= n < Square(q + 1) && (ix != 0 <==> n != Square(q))
    ensures q < 0x40_0000_0000_0000
  {
    ghost var n := 0x40_0000_0000_0000 * m;
    OneBit(m);
    ix := Shl(m, 1);
    var s: u64 := 0;
    q := 0;
    var r: u64 := 0x20_0000_0000_0000;
    ghost var j := 53;
    RootStart(m, j);
    while r != 0
      invariant j >= -1 && r == if j >= 0 then Scale(1, j) else 0
      invariant s == 2 * q && q + 2 * r <= 0x40_0000_0000_0000 && q < 0x40_0000_0000_0000
      invariant Pass(n, q, ix, j)
      decreases r
    {
      RootPass(n, q, ix, r, j);
      var t := s + r;
      if t <= ix {
        s := t + r;
        ix := ix - t;
        q := q + r;
      }
      OneBit(ix);
      ix := Shl(ix, 1);
      OneBit(r);
      r := Shr(r, 1);
      j := j - 1;
    }
  }

  lemma RootStart(m: nat, j: nat)
    requires m < 0x40_0000_0000_0000 && j == 53
    ensures Scale(1, j) == 0x20_0000_0000_0000
    ensures Digits(0x40_0000_0000_0000 * m, 0, 2 * m, j)
  {
    Constants(1);
    Constants(2 * m);
  }

  // ---------- normalisation ----------

  lemma TestBit52(ix: u64, k: nat)
    requires k == 52 && ix < 0x20_0000_0000_0000
    ensures Shl(1, k) == 0x10_0000_0000_0000
    ensures And64(ix, Shl(1, k)) == 0 <==> ix < 0x10_0000_0000_0000
  {
    ScaleBy52(1, k);
    AndShifted(ix, 1, k);
    HalveIsDivision(ix, k);
    ScaleBy52(And(ix / 0x10_0000_0000_0000, 1), k);
    if ix >= 0x10_0000_0000_0000 { assert And(1, 1) == 1; }
  }

  /** ix &^= mask << shift; ix |= 1 << shift. */
  lemma SetImplicitBit(ix: u64, k: nat)
    requires k == 52 && ix < 0x8000_0000_0000_0000
    ensures Or64(And64(ix, Not(Shl(0x7FF, k))), Shl(1, k)) == 0x10_0000_0000_0000 + ix % 0x10_0000_0000_0000
  {
    var h, f := ix / 0x10_0000_0000_0000, ix % 0x10_0000_0000_0000;
    HalveIsDivision(ix, k);
    Cut(ix, k);
    ScaleBy52(h, k);
    ScaleBy52(2048, k);
    ScaleBy52(0x7FF, k);
    ScaleBy52(1, k);
    assert And64(ix, Not(Shl(0x7FF, k))) == f by {
      AndSplit(ix, 2048, k);
      HighBitClear(h, 11);
      ScaleOrder(0, 0, k);
    }
    OrDisjoint(1, f, k);
    OrCommutes(f, 0x10_0000_0000_0000);
  }

  lemma HighBitClear(h: nat, n: nat)
    requires n == 11 && h < 2048
    ensures And(h, 2048) == 0
  {
    ScaleSmall(1, n);
    AndShifted(h, 1, n);
    HalveLess(h, n, 1);
    ScaleOrder(0, 0, n);
  }

  /** The loop for a subnormal x: shift until the leading bit is in place. */
  method ShiftUp(x: u64) returns (ix: u64, exp: int)
    requires 0 < x < 0x10_0000_0000_0000
    ensures 0x10_0000_0000_0000 <= ix < 0x20_0000_0000_0000
    ensures -51 <= exp <= 1 && Scale(x, 52) == Scale(ix, exp + 51)
  {
    ix := x;
    exp := 0;
    TestBit52(ix, 52);
    while And64(ix, Shl(1, 52)) == 0
      invariant exp <= 0 && 0 < ix < 0x20_0000_0000_0000 && ix == Scale(x, -exp)
      invariant And64(ix, Shl(1, 52)) == 0 <==> ix < 0x10_0000_0000_0000
      decreases 0x20_0000_0000_0000 - ix
    {
      OneBit(ix);
      ix := Shl(ix, 1);
      exp := exp - 1;
      TestBit52(ix, 52);
    }
    ShiftBound(x, -exp);
    ScaleScale(x, -exp, 52 + exp);
    exp := exp + 1;
  }

  /**
   * Take a positive finite x apart as the code does: m has its leading bit at
   * 52 or 53 and the exponent left over is even.
   */
  method Normalise(x: u64) returns (ix: u64, exp: int)
    requires 0 < x < INF
    ensures 0x10_0000_0000_0000 <= ix < 0x40_0000_0000_0000
    ensures ix >= 0x20_0000_0000_0000 ==> ix % 2 == 0
    ensures -537 <= exp <= 511
    ensures Scale(Mag(x), 52) == Scale(ix, 2 * exp + 1074)
  {
    ix, exp := Unpack(x);
    ix, exp := MakeEven(ImplicitBit(ix), exp - 1023, Mag(x));
  }

  /** The biased exponent, made consistent with a shifted fraction when x is subnormal. */
  method Unpack(x: u64) returns (ix: u64, exp: int)
    requires 0 < x < INF
    ensures ix < 0x8000_0000_0000_0000 && -51 <= exp <= 2046
    ensures Scale(Mag(x), 52) == Scale(0x10_0000_0000_0000 + ix % 0x10_0000_0000_0000, exp + 51)
  {
    ExponentOf(x, 52);
    Significand(x);
    exp := And64(Shr(x, 52), 0x7FF);
    ix := x;
    if exp == 0 { // subnormal x
      ix, exp := ShiftUp(x);
    }
  }

  /** odd exp, double x to make it even; exp = exp/2, exponent of square root. */
  method MakeEven(ix0: u64, exp0: int, ghost v: nat) returns (ix: u64, exp: int)
    requires 0x10_0000_0000_0000 <= ix0 < 0x20_0000_0000_0000 && -1074 <= exp0 <= 1023
    requires Scale(v, 52) == Scale(ix0, exp0 + 1074)
    ensures 0x10_0000_0000_0000 <= ix < 0x40_0000_0000_0000
    ensures ix >= 0x20_0000_0000_0000 ==> ix % 2 == 0
    ensures -537 <= exp <= 511 && Scale(v, 52) == Scale(ix, 2 * exp + 1074)
  {
    ix, exp := ix0, exp0;
    if exp % 2 == 1 {
      OneBit(ix);
      Doubled(ix, exp0 + 1073);
      ix := Shl(ix, 1);
    }
    exp := exp / 2;
  }

  lemma Doubled(m: nat, n: nat)
    ensures Scale(m, n + 1) == Scale(2 * m, n)
  {
    ScaleScale(m, 1, n);
  }

  function ImplicitBit(ix: u64): (r: u64)
    requires ix < 0x8000_0000_0000_0000
    ensures r == 0x10_0000_0000_0000 + ix % 0x10_0000_0000_0000
  {
    SetImplicitBit(ix, 52);
    Or64(And64(ix, Not(Shl(0x7FF, 52))), Shl(1, 52))
  }

  /** A normal double is its significand scaled by its exponent field. */
  lemma Significand(x: u64)
    requires x < INF
    ensures var e, f := x / 0x10_0000_0000_0000, x % 0x10_0000_0000_0000;
            e <= 2046 &&
            if e == 0 then Mag(x) == x < 0x10_0000_0000_0000
            else Scale(Mag(x), 52) == Scale(0x10_0000_0000_0000 + f, e + 51)
  {
    var e, f := x / 0x10_0000_0000_0000, x % 0x10_0000_0000_0000;
    assert x == 0x10_0000_0000_0000 * e + f;
    MagOf(e, f);
    if e > 0 { ScaleScale(0x10_0000_0000_0000 + f, e - 1, 52); }
  }

  lemma ExponentOf(x: u64, k: nat)
    requires k == 52 && x < INF
    ensures And64(Shr(x, k), 0x7FF) == x / 0x10_0000_0000_0000
    ensures Shl(0x7FF, k) == INF
  {
    var h := x / 0x10_0000_0000_0000;
    assert h < 2047;
    assert Shr(x, k) == h by { HalveIsDivision(x, k); }
    assert And64(h, 0x7FF) == h by { ElevenBits(h, 11); }
    ScaleBy52(0x7FF, k);
  }

  lemma ShiftBound(x: nat, j: nat)
    requires x > 0 && Scale(x, j) < 0x20_0000_0000_0000
    ensures j <= 52
  {
    if j > 52 {
      ScaleGrows(x, 53, j);
      ScaleOrder(1, x, 53);
      ScaleOrder(x, 1, 53);
      Constants(1);
    }
  }

  // ---------- rounding ----------

  lemma SquareOrder(a: nat, b: nat)
    ensures a < b <==> Square(a) < Square(b)
    ensures a <= b <==> Square(a) <= Square(b)
  {
    if a < b { SquareLess(a, b); } else if b < a { SquareLess(b, a); }
  }

  lemma SquareLess(a: nat, b: nat)
    requires a < b
    ensures Square(a) < Square(b)
  {
    assert Square(b) == Square(a) + (b - a) * (a + b);
    ProductOrder(0, b - a, a + b);
  }

  lemma SquareParity(q: int)
    ensures Square(q) % 2 == q % 2
  {
    var h := q / 2;
    if q % 2 == 0 {
      assert Square(2 * h) == 2 * (2 * (h * h));
    } else {
      assert Square(2 * h + 1) == 2 * (2 * (h * h) + 2 * h) + 1;
    }
  }

  /**
   * Rounding the extra bit away: the root is never exactly halfway, the rounded
   * root is within half a unit, and it does not carry out of 53 bits.
   */
  lemma RoundedRoot(m: nat, n: nat, q: nat, mant: nat)
    requires 0x10_0000_0000_0000 <= m < 0x40_0000_0000_0000 && n == 0x40_0000_0000_0000 * m
    requires m >= 0x20_0000_0000_0000 ==> m % 2 == 0
    requires Square(q) <= n < Square(q + 1)
    requires mant == if n != Square(q) then (q + q % 2) / 2 else q / 2
    ensures n == Square(q) ==> q % 2 == 0
    ensures 0x10_0000_0000_0000 <= mant < 0x20_0000_0000_0000
    ensures Square(2 * mant - 1) < n < Square(2 * mant + 1)
    ensures mant == 0x10_0000_0000_0000 ==> Square(2 * mant) <= n
  {
    SquareParity(q);
    RootRange(m, n, q);
    SquareOrder(2 * mant - 1, q);
    SquareOrder(q + 1, 2 * mant + 1);
    SquareOrder(2 * mant, q);
  }

  lemma RootRange(m: nat, n: nat, q: nat)
    requires 0x10_0000_0000_0000 <= m < 0x40_0000_0000_0000 && n == 0x40_0000_0000_0000 * m
    requires m >= 0x20_0000_0000_0000 ==> m % 2 == 0
    requires Square(q) <= n < Square(q + 1)
    ensures 0x20_0000_0000_0000 <= q <= 0x3F_FFFF_FFFF_FFFE
  {
    assert Square(0x20_0000_0000_0000) == 0x400_0000_0000_0000_0000_0000_0000;
    SquareOrder(0x20_0000_0000_0000, q + 1);
    assert Square(0x3F_FFFF_FFFF_FFFF) == 0xFFF_FFFF_FFFF_FF80_0000_0000_0001;
    SquareOrder(0x3F_FFFF_FFFF_FFFF, q);
  }

  lemma SquareScaled(x: int, a: nat)
    ensures Square(Scale(x, a)) == Scale(Square(x), 2 * a)
  {
    ScaleProduct(x, x, a, a);
  }

  /** The radicand in the units of the rounded root. */
  lemma Radicand(x: nat, m: nat, exp: int)
    requires -537 <= exp && Scale(x, 52) == Scale(m, 2 * exp + 1074)
    ensures 4 * Scale(x, 1074) == Scale(4 * (0x40_0000_0000_0000 * m), 2 * (exp + 1021))
  {
    ScaleScale(x, 52, 1022);
    ScaleScale(m, 2 * exp + 1074, 1022);
    ScaleScale(m, 54, 2 * (exp + 1021));
    Constants(m);
    var n := Scale(m, 54);
    ScaleAdd(n, n, 2 * (exp + 1021));
    ScaleAdd(2 * n, 2 * n, 2 * (exp + 1021));
  }

  lemma RootIsNearest(x: nat, n: nat, a: nat, mant: nat, r: nat)
    requires 4 * Scale(x, 1074) == Scale(4 * n, 2 * a)
    requires 0x10_0000_0000_0000 <= mant < 0x20_0000_0000_0000 && a <= 2000
    requires Square(2 * mant - 1) < n < Square(2 * mant + 1)
    requires mant == 0x10_0000_0000_0000 ==> Square(2 * mant) <= n
    requires r == 0x10_0000_0000_0000 * (a + 1) + mant
    ensures NearestRoot(x, r)
  {
    Encoded(a + 1, mant);
    forall f: nat | f <= INF && f != r
      ensures OnSideOf(x, r, f)
    {
      if r < f {
        RootBelow(n, a, mant, r, f);
      } else {
        RootAbove(n, a, mant, r, f);
      }
    }
  }

  lemma RootBelow(n: nat, a: nat, mant: nat, r: nat, f: nat)
    requires n < Square(2 * mant + 1) && r < f
    requires Mag(r) == Scale(mant, a + 1) && Mag(r + 1) >= Scale(mant + 1, a + 1)
    ensures Scale(4 * n, 2 * a) < Square(Mag(r) + Mag(f))
  {
    MagMonotone(r + 1, f);
    var mid := Scale(4 * mant + 2, a);
    Doubled(mant, a);
    Doubled(mant + 1, a);
    ScaleAdd(2 * mant, 2 * mant + 2, a);
    SquareOrder(mid, Mag(r) + Mag(f));
    SquareScaled(4 * mant + 2, a);
    assert Square(4 * mant + 2) == 4 * Square(2 * mant + 1);
    ScaleOrder(4 * n, Square(4 * mant + 2), 2 * a);
  }

  lemma RootAbove(n: nat, a: nat, mant: nat, r: nat, f: nat)
    requires 0x10_0000_0000_0000 <= mant && f < r
    requires Square(2 * mant - 1) < n && (mant == 0x10_0000_0000_0000 ==> Square(2 * mant) <= n)
    requires Mag(r) == Scale(mant, a + 1)
    requires mant > 0x10_0000_0000_0000 ==> Mag(r - 1) == Scale(mant - 1, a + 1)
    ensures Square(Mag(r) + Mag(f)) < Scale(4 * n, 2 * a)
  {
    MagMonotone(f, r - 1);
    MagStep(r - 1);
    Doubled(mant, a);
    if mant > 0x10_0000_0000_0000 {
      var mid := Scale(4 * mant - 2, a);
      Doubled(mant - 1, a);
      ScaleAdd(2 * mant, 2 * mant - 2, a);
      SquareOrder(Mag(r) + Mag(f), mid);
      SquareScaled(4 * mant - 2, a);
      assert Square(4 * mant - 2) == 4 * Square(2 * mant - 1);
      ScaleOrder(Square(4 * mant - 2), 4 * n, 2 * a);
    } else {
      var mid := Scale(4 * mant, a);
      ScaleAdd(2 * mant, 2 * mant, a);
      SquareOrder(Mag(r) + Mag(f), mid);
      SquareScaled(4 * mant, a);
      assert Square(4 * mant) == 4 * Square(2 * mant);
      ScaleOrder(4 * n, Square(4 * mant), 2 * a);
    }
  }

  /** sqrt, with its special cases. */
  method SquareRoot(x: u64) returns (r: u64)
    ensures IsZero(x) || IsNaN(x) || x == INF ==> r == x
    ensures Sign(x) == 1 && !IsZero(x) && !IsNaN(x) ==> r == NAN && IsNaN(r)
    ensures 0 < x < INF ==> NearestRoot(Mag(x), r)
  {
    if IsZero(x) || IsNaN(x) || x == INF { return x; }
    if Sign(x) == 1 { return NAN; }
    var m, exp := Normalise(x);
    var q, ix := RootBits(m);
    FinishedRoot(x, m, exp, q, ix);
    if ix != 0 {
      q := q + And64(q, 1);
    }
    r := Shr(q, 1) + Shl(exp - 1 + 1023, 52);
  }

  lemma FinishedRoot(x: u64, m: u64, exp: int, q: u64, ix: u64)
    requires 0x10_0000_0000_0000 <= m < 0x40_0000_0000_0000 && (m >= 0x20_0000_0000_0000 ==> m % 2 == 0)
    requires -537 <= exp <= 511 && Scale(Mag(x), 52) == Scale(m, 2 * exp + 1074)
    requires var n := 0x40_0000_0000_0000 * m;
             Square(q) <= n < Square(q + 1) && (ix != 0 <==> n != Square(q))
    ensures q + And64(q, 1) < 0x1_0000_0000_0000_0000
    ensures var q' := if ix != 0 then q + And64(q, 1) else q;
            NearestRoot(Mag(x), Shr(q', 1) + Shl(exp - 1 + 1023, 52)) &&
            Shr(q', 1) + Shl(exp - 1 + 1023, 52) < INF
  {
    var n := 0x40_0000_0000_0000 * m;
    var mant := if ix != 0 then (q + q % 2) / 2 else q / 2;
    AndOne(q);
    RootRange(m, n, q);
    RoundedRoot(m, n, q, mant);
    OneBit(if ix != 0 then q + q % 2 else q);
    BiasedExponent(exp + 1022, 52);
    Radicand(Mag(x), m, exp);
    RootIsNearest(Mag(x), n, exp + 1021, mant, 0x10_0000_0000_0000 * (exp + 1022) + mant);
  }

  lemma BiasedExponent(e: u64, k: nat)
    requires e < 2047 && k == 52
    ensures Shl(e, k) == 0x10_0000_0000_0000 * e
  {
    ScaleBy52(e, k);
  }

  /** a is strictly closer to the real number root than b is. */
  ghost predicate Closer(a: nat, b: nat, root: real)
  {
    var mine, other := a as real - root, b as real - root;
    (if mine >= 0.0 then mine else -mine) < (if other >= 0.0 then other else -other)
  }

  /** Read over the reals: no other double is as close to the square root. */
  lemma NearestRootOverReals(x: nat, r: nat, f: nat, root: real)
    requires NearestRoot(x, r) && f <= INF && f != r
    requires root >= 0.0 && root * root == Scale(x, 1074) as real
    ensures Closer(Mag(r), Mag(f), root)
  {
    assert OnSideOf(x, r, f);
    RootFromSide(x, r, f, root);
  }

  lemma RootFromSide(x: nat, r: nat, f: nat, root: real)
    requires OnSideOf(x, r, f) && f != r
    requires root >= 0.0 && root * root == Scale(x, 1074) as real
    ensures Closer(Mag(r), Mag(f), root)
  {
    SideByMagnitude(x, r, f);
    CloserRoot(Scale(x, 1074), Mag(r), Mag(f), root);
  }

  lemma SideByMagnitude(x: nat, r: nat, f: nat)
    requires OnSideOf(x, r, f) && f != r
    ensures var t, a, b := Scale(x, 1074), Mag(r), Mag(f);
            a != b && if a < b then 4 * t < Square(a + b) else Square(a + b) < 4 * t
  {
    MagOrder(r, f);
    var a, b := Mag(r), Mag(f);
    var mid := Square(a + b);
    assert if r < f then 4 * Scale(x, 1074) < mid else mid < 4 * Scale(x, 1074);
  }

  lemma MagOrder(r: nat, f: nat)
    requires f != r
    ensures Mag(r) != Mag(f) && (r < f <==> Mag(r) < Mag(f))
  {
    if r < f { MagMonotone(r, f); } else { MagMonotone(f, r); }
  }

  lemma CloserRoot(t: nat, a: nat, b: nat, root: real)
    requires a != b && if a < b then 4 * t < Square(a + b) else Square(a + b) < 4 * t
    requires root >= 0.0 && root * root == t as real
    ensures Closer(a, b, root)
  {
    RootAgainstMidpoint(t, a + b, root);
    CloserSide(a, b, root);
  }

  lemma CloserSide(a: nat, b: nat, root: real)
    requires if a < b then 2.0 * root < (a + b) as real else a > b && (a + b) as real < 2.0 * root
    ensures Closer(a, b, root)
  {
  }

  lemma RootAgainstMidpoint(t: nat, sum: nat, root: real)
    requires root >= 0.0 && root * root == t as real
    ensures 4 * t < Square(sum) ==> 2.0 * root < sum as real
    ensures Square(sum) < 4 * t ==> sum as real < 2.0 * root
  {
    SquareAsReal(sum);
    assert (2.0 * root) * (2.0 * root) == 4.0 * (root * root);
    RealSquareOrder(2.0 * root, sum as real);
  }

  lemma SquareAsReal(x: nat)
    ensures Square(x) as real == (x as real) * (x as real)
  {
  }

  lemma RealSquareOrder(a: real, b: real)
    requires a >= 0.0 && b >= 0.0
    ensures a * a < b * b ==> a < b
    ensures b * b < a * a ==> b < a
  {
    if a <= b { assert a * a <= a * b <= b * b; } else { assert b * b <= b * a <= a * a; }
  }
}
