/**
 * IEEE 754 binary64 bit patterns, the numbers they stand for, and what it means
 * to round to nearest with ties to even (IEEE 754-2008, section 4.3.1).
 *
 * Every finite double is an integer multiple of the smallest subnormal, two to
 * the -1074, so a magnitude is a natural number of those units. Infinity is
 * given the value that would come next after the largest finite double, which
 * is where the standard puts the overflow threshold.
 */
module Binary64 {
  import opened Scaling
  import opened Words

  /** The bit pattern of positive infinity. */
  const INF: u64 := 0x7FF0_0000_0000_0000

  /** The bit pattern that math.NaN returns. */
  const NAN: u64 := 0x7FF8_0000_0000_0001

  /** A bit pattern without its sign bit. */
  function Abs(b: u64): u64 { b % 0x8000_0000_0000_0000 }

  function Sign(b: u64): u64 { b / 0x8000_0000_0000_0000 }

  predicate IsFinite(b: u64) { Abs(b) < 0x7FF0_0000_0000_0000 }

  predicate IsNaN(b: u64) { Abs(b) > 0x7FF0_0000_0000_0000 }

  predicate IsZero(b: u64) { Abs(b) == 0 }

  /**
   * The magnitude of a pattern without sign bit, in units of two to the -1074.
   * Below the second binade a pattern counts units; one exponent step up doubles.
   */
  function Mag(a: nat): nat
  {
    if a < 0x20_0000_0000_0000 then a else 2 * Mag(a - 0x10_0000_0000_0000)
  }

  /** Mag is the textbook reading of an exponent field e and a fraction field f. */
  lemma {:induction false} MagOf(e: nat, f: nat)
    requires f < 0x10_0000_0000_0000
    ensures Mag(0x10_0000_0000_0000 * e + f) == if e == 0 then f else Scale(0x10_0000_0000_0000 + f, e - 1)
  {
    if e > 1 { MagOf(e - 1, f); }
  }

  /** The signed number of units that a finite pattern stands for. */
  function Signed(b: u64): int { if Sign(b) == 0 then Mag(Abs(b)) else 0 - Mag(Abs(b)) }

  function Dist(x: int, y: int): nat { if x <= y then y - x else x - y }

  /**
   * The double r is a correctly rounded v, where one unit of v is two to the
   * -1074 - k: no double is nearer, and a tie goes to the even pattern.
   */
  ghost predicate NearestEven(v: nat, k: nat, r: nat)
  {
    r <= INF && forall f: nat | f <= INF :: NoFartherThan(v, k, r, f)
  }

  /** r is at least as close to v as f is, and is even if they are equally close. */
  ghost predicate NoFartherThan(v: nat, k: nat, r: nat, f: nat)
  {
    var mine, other := Dist(Scale(Mag(r), k), v), Dist(Scale(Mag(f), k), v);
    mine <= other && (mine == other && f != r ==> r % 2 == 0)
  }

  /** The same, asked only of the two neighbours of r. */
  ghost predicate BetweenMidpoints(v: nat, k: nat, r: nat)
  {
    r <= INF && (r < INF ==> BelowUpperMidpoint(v, k, r)) && (r > 0 ==> AboveLowerMidpoint(v, k, r))
  }

  ghost predicate BelowUpperMidpoint(v: nat, k: nat, r: nat)
  {
    var mid := Scale(Mag(r), k) + Scale(Mag(r + 1), k);
    2 * v <= mid && (2 * v == mid ==> r % 2 == 0)
  }

  ghost predicate AboveLowerMidpoint(v: nat, k: nat, r: nat)
    requires r > 0
  {
    var mid := Scale(Mag(r - 1), k) + Scale(Mag(r), k);
    mid <= 2 * v && (2 * v == mid ==> r % 2 == 0)
  }

  /** Consecutive patterns have increasing magnitudes. */
  lemma {:induction false} MagStep(a: nat)
    ensures Mag(a) < Mag(a + 1)
  {
    if a >= 0x20_0000_0000_0000 { MagStep(a - 0x10_0000_0000_0000); }
  }

  lemma {:induction false} MagMonotone(a: nat, b: nat)
    requires a <= b
    ensures Mag(a) <= Mag(b) && (a < b ==> Mag(a) < Mag(b))
    decreases b - a
  {
    if a < b {
      MagStep(b - 1);
      MagMonotone(a, b - 1);
    }
  }

  /** Beating both neighbours is beating every double. */
  lemma NeighboursSuffice(v: nat, k: nat, r: nat)
    requires BetweenMidpoints(v, k, r)
    ensures NearestEven(v, k, r)
  {
    forall f: nat | f <= INF
      ensures NoFartherThan(v, k, r, f)
    {
      if r < f {
        MagStep(r);
        MagMonotone(r + 1, f);
        ScaleOrder(Mag(r), Mag(r + 1), k);
        ScaleOrder(Mag(r + 1), Mag(f), k);
      } else if f < r {
        MagStep(r - 1);
        MagMonotone(f, r - 1);
        ScaleOrder(Mag(r - 1), Mag(r), k);
        ScaleOrder(Mag(f), Mag(r - 1), k);
      }
    }
  }

  /** At most one double is correctly rounded. */
  lemma NearestEvenUnique(v: nat, k: nat, r: nat, s: nat)
    requires NearestEven(v, k, r) && NearestEven(v, k, s)
    ensures r == s
  {
    assert NoFartherThan(v, k, r, s) && NoFartherThan(v, k, s, r);
    var lo, hi := if r <= s then r else s, if r <= s then s else r;
    ScaledMagStep(lo, hi, k);
    if lo + 1 <= INF { assert NoFartherThan(v, k, lo, lo + 1); }
  }

  lemma ScaledMagStep(r: nat, s: nat, k: nat)
    requires r <= s
    ensures r < s ==> Scale(Mag(r), k) < Scale(Mag(r + 1), k) <= Scale(Mag(s), k)
    ensures r + 1 < s ==> Scale(Mag(r + 1), k) < Scale(Mag(s), k)
  {
    if r < s {
      MagStep(r);
      MagMonotone(r + 1, s);
      ScaleOrder(Mag(r), Mag(r + 1), k);
      ScaleOrder(Mag(r + 1), Mag(s), k);
    }
  }

  /** Rounding does not depend on the unit chosen. */
  lemma MidpointsRescaled(v: nat, k: nat, r: nat, j: nat)
    ensures BetweenMidpoints(Scale(v, j), k + j, r) <==> BetweenMidpoints(v, k, r)
  {
    if r < INF { UpperRescaled(v, k, r, j); }
    if r > 0 { LowerRescaled(v, k, r, j); }
  }

  lemma UpperRescaled(v: nat, k: nat, r: nat, j: nat)
    ensures BelowUpperMidpoint(Scale(v, j), k + j, r) <==> BelowUpperMidpoint(v, k, r)
  {
    MidpointRescaled(v, k, Mag(r), Mag(r + 1), j);
  }

  lemma LowerRescaled(v: nat, k: nat, r: nat, j: nat)
    requires r > 0
    ensures AboveLowerMidpoint(Scale(v, j), k + j, r) <==> AboveLowerMidpoint(v, k, r)
  {
    MidpointRescaled(v, k, Mag(r - 1), Mag(r), j);
  }

  lemma MidpointRescaled(v: nat, k: nat, a: nat, b: nat, j: nat)
    ensures 2 * v <= Scale(a, k) + Scale(b, k)
       <==> 2 * Scale(v, j) <= Scale(a, k + j) + Scale(b, k + j)
    ensures 2 * v >= Scale(a, k) + Scale(b, k)
       <==> 2 * Scale(v, j) >= Scale(a, k + j) + Scale(b, k + j)
  {
    var mid := Scale(a, k) + Scale(b, k);
    ScaleScale(a, k, j);
    ScaleScale(b, k, j);
    ScaleAdd(Scale(a, k), Scale(b, k), j);
    ScaleAdd(v, v, j);
    ScaleOrder(2 * v, mid, j);
    ScaleOrder(mid, 2 * v, j);
  }

  /** A number that is a double rounds to itself, and to nothing else. */
  lemma ExactIsNearest(r: nat, k: nat)
    requires r <= INF
    ensures BetweenMidpoints(Scale(Mag(r), k), k, r)
  {
    MagStep(r);
    ScaleOrder(Mag(r), Mag(r + 1), k);
    if r > 0 {
      MagStep(r - 1);
      ScaleOrder(Mag(r - 1), Mag(r), k);
    }
  }

  // ---------- a reference definition of rounding ----------

  /** The largest pattern not above cap whose magnitude does not exceed v. */
  function Floor(v: nat, k: nat, cap: nat): (r: nat)
    requires cap <= INF
    ensures r <= cap && Scale(Mag(r), k) <= v
    ensures r < cap ==> v < Scale(Mag(r + 1), k)
  {
    if cap == 0 then ScaleOrder(0, 0, k); 0
    else if Scale(Mag(cap), k) <= v then cap
    else Floor(v, k, cap - 1)
  }

  /** Round to nearest, ties to even: the closer of the two doubles around v. */
  function Round(v: nat, k: nat): (r: nat)
    ensures r <= INF
  {
    var lo := Floor(v, k, INF);
    if lo == INF then lo
    else
      var mid := Scale(Mag(lo), k) + Scale(Mag(lo + 1), k);
      if 2 * v < mid || (2 * v == mid && lo % 2 == 0) then lo else lo + 1
  }

  lemma RoundIsNearestEven(v: nat, k: nat)
    ensures BetweenMidpoints(v, k, Round(v, k)) && NearestEven(v, k, Round(v, k))
  {
    var lo := Floor(v, k, INF);
    if Round(v, k) == lo { RoundedDown(v, k, lo); } else { RoundedUp(v, k, lo); }
    NeighboursSuffice(v, k, Round(v, k));
  }

  lemma RoundedDown(v: nat, k: nat, lo: nat)
    requires lo <= INF && Scale(Mag(lo), k) <= v
    requires lo < INF ==> BelowUpperMidpoint(v, k, lo)
    ensures BetweenMidpoints(v, k, lo)
  {
    if lo > 0 { ScaledMagStep(lo - 1, lo, k); }
  }

  lemma RoundedUp(v: nat, k: nat, lo: nat)
    requires lo < INF && v < Scale(Mag(lo + 1), k)
    requires AboveLowerMidpoint(v, k, lo + 1)
    ensures BetweenMidpoints(v, k, lo + 1)
  {
    if lo + 1 < INF { ScaledMagStep(lo + 1, lo + 2, k); }
  }

  /** Anything correctly rounded is what Round computes. */
  lemma NearestIsRound(v: nat, k: nat, r: nat)
    ensures NearestEven(v, k, r) <==> r == Round(v, k)
  {
    RoundIsNearestEven(v, k);
    if NearestEven(v, k, r) { NearestEvenUnique(v, k, r, Round(v, k)); }
  }

  /** Being nearest of all doubles is being nearer than both neighbours. */
  lemma NearestIsBetween(v: nat, k: nat, r: nat)
    ensures NearestEven(v, k, r) <==> BetweenMidpoints(v, k, r)
  {
    if BetweenMidpoints(v, k, r) { NeighboursSuffice(v, k, r); }
    NearestIsRound(v, k, r);
    RoundIsNearestEven(v, k);
  }

  /** The nearest double does not depend on the unit chosen. */
  lemma NearestRescaled(v: nat, k: nat, r: nat, j: nat)
    ensures NearestEven(Scale(v, j), k + j, r) <==> NearestEven(v, k, r)
  {
    MidpointsRescaled(v, k, r, j);
    NearestIsBetween(Scale(v, j), k + j, r);
    NearestIsBetween(v, k, r);
  }

  /** The exact product of two magnitudes. */
  function Product(x: u64, y: u64): nat
  {
    MulNonNegative(Mag(Abs(x)), Mag(Abs(y)));
    Mag(Abs(x)) * Mag(Abs(y))
  }

  lemma MulNonNegative(a: int, b: int)
    requires a >= 0 && b >= 0
    ensures a * b >= 0
  {
  }

  // ---------- hardware arithmetic on finite operands: exact, then rounded once ----------

  function Signbit(negative: bool): u64 { if negative then 0x8000_0000_0000_0000 else 0 }

  function MulFloat(a: u64, b: u64): u64 { Signbit(Sign(a) != Sign(b)) + Round(Product(a, b), 1074) }

  /** The difference of two finite doubles; an exact zero is +0. */
  function SubFloat(a: u64, b: u64): u64
  {
    var d := Signed(a) - Signed(b);
    Signbit(d < 0) + Round(Dist(d, 0), 0)
  }

  function Negate(a: u64): u64 { Signbit(Sign(a) == 0) + Abs(a) }

  /** The order of doubles that are not NaN. */
  function OrderKey(a: u64): int { if Sign(a) == 0 then Abs(a) else 0 - Abs(a) }

  // ---------- which numbers are doubles ----------

  /** The pattern of m times two to the j, for a significand of at most 53 bits. */
  function Pattern(m: nat, j: nat): (r: nat)
    requires m < 0x20_0000_0000_0000
    ensures Mag(r) == Scale(m, j)
    ensures m >= 0x10_0000_0000_0000 ==> r == 0x10_0000_0000_0000 * j + m
    decreases j
  {
    if j == 0 then m
    else if m >= 0x10_0000_0000_0000 then
      0x10_0000_0000_0000 + Pattern(m, j - 1)
    else
      ScaleScale(m, 1, j - 1);
      assert Scale(m, 1) == 2 * Scale(m, 0);
      Pattern(2 * m, j - 1)
  }

  /** The exponent of the last place of a pattern. */
  function UlpExponent(a: nat): nat
  {
    if a < 0x20_0000_0000_0000 then 0 else 1 + UlpExponent(a - 0x10_0000_0000_0000)
  }

  /** Every magnitude from a upward is a multiple of a's last place. */
  lemma {:induction false} MultipleOfUlp(a: nat, b: nat) returns (q: nat)
    requires a <= b
    ensures Mag(b) == Scale(q, UlpExponent(a))
    ensures b == a ==> q < 0x20_0000_0000_0000
    decreases b
  {
    if b < 0x20_0000_0000_0000 {
      q := b;
    } else if a < 0x20_0000_0000_0000 {
      q := Mag(b);
    } else {
      q := MultipleOfUlp(a - 0x10_0000_0000_0000, b - 0x10_0000_0000_0000);
    }
  }

  /** A multiple of a double's last place that is smaller than the double is a double. */
  lemma DifferenceIsDouble(z: nat, r: nat) returns (p: nat)
    requires z <= r <= INF && Mag(r) < 2 * Mag(z)
    ensures Mag(p) == Mag(r) - Mag(z) && p <= INF
  {
    var c := UlpExponent(z);
    var q := MultipleOfUlp(z, r);
    var w := MultipleOfUlp(z, z);
    MagMonotone(z, r);
    ScaleOrder(w, q, c);
    ScaleOrder(q, w, c);
    ScaleAdd(w, w, c);
    ScaleOrder(q, 2 * w, c);
    ScaleAdd(q, w, c);
    p := Pattern(q - w, c);
    if p > r { MagMonotone(r, p); }
  }
}
