/**
 * The last step shared by the software arithmetic: a 63-bit significand with a
 * sticky bit is rounded to 53 bits, and the result is the correctly rounded double.
 */
module RoundToGrid {
  import opened Scaling
  import opened Words
  import opened WideShifts
  import opened Binary64

  /** Drop the ten low bits of m, rounding half to even, as the last lines of FMA do. */
  function RoundBits(m: u64): u64
    requires m < 0x8000_0000_0000_0000
  {
    And64(Shr(m + Shl(1, 9), 10), Not(Zero(Xor64(And64(m, LowMask(10)), Shl(1, 9)))))
  }

  function Xor64(a: u64, b: u64): (r: u64)
    ensures r == Xor(a, b)
  {
    ScaleBy64(1);
    XorBound(a, b, 64);
    Xor(a, b)
  }

  lemma {:induction false} XorBound(a: nat, b: nat, k: nat)
    requires a < Scale(1, k) && b < Scale(1, k)
    ensures Xor(a, b) < Scale(1, k)
  {
    if k > 0 && (a != 0 || b != 0) { XorBound(a / 2, b / 2, k - 1); }
  }

  /** RoundBits as arithmetic. */
  lemma RoundBitsValue(m: u64)
    requires m < 0x8000_0000_0000_0000
    ensures var q, t := m / 1024, m % 1024;
            RoundBits(m) == if t < 512 || (t == 512 && q % 2 == 0) then q else q + 1
  {
    var q, t := m / 1024, m % 1024;
    var z: u64 := if t == 512 then 1 else 0;
    var up: u64 := (m + 512) / 1024;
    RoundBitsParts(m, t, z, up);
    AndNotBit(up, z);
    assert up == if t < 512 then q else q + 1;
  }

  lemma RoundBitsParts(m: u64, t: u64, z: u64, up: u64)
    requires m < 0x8000_0000_0000_0000
    requires t == m % 1024 && z == (if t == 512 then 1 else 0) && up == (m + 512) / 1024
    ensures RoundBits(m) == And64(up, Not(z))
  {
    Shl9();
    assert And64(m, LowMask(10)) == t by { LowMask10(m, 10); }
    assert Zero(Xor64(t, 512)) == z by { XorIsZero(t, 512); }
    assert Shr(m + 512, 10) == up by { Halve10(m + 512, 10); }
  }

  lemma Shl9()
    ensures Shl(1, 9) == 512
  {
    ScaleSmall(1, 9);
  }

  lemma LowMask10(m: u64, n: nat)
    requires n == 10
    ensures And64(m, LowMask(n)) == m % 1024
  {
    AndMask(m, n);
    Cut(m, n);
    ScaleSmall(Halve(m, n), n);
    ScaleSmall(1, n);
  }

  lemma Halve10(x: u64, n: nat)
    requires n == 10
    ensures Halve(x, n) == x / 1024
  {
    Cut(x, n);
    ScaleSmall(Halve(x, n), n);
    ScaleSmall(1, n);
  }

  /** The rounded significand is within half a unit of the exact value; half only when even. */
  lemma WithinHalf(v: nat, n: nat, m: u64)
    requires m < 0x8000_0000_0000_0000 && Compressed(v, n, m)
    ensures var r := RoundBits(m);
            2 * v <= Scale(2 * r + 1, n + 10) && (2 * v == Scale(2 * r + 1, n + 10) ==> r % 2 == 0)
    ensures var r := RoundBits(m);
            Scale(2 * r - 1, n + 10) <= 2 * v && (2 * v == Scale(2 * r - 1, n + 10) ==> r % 2 == 0)
  {
    var r: int := RoundBits(m);
    RoundBitsValue(m);
    HalfUnits(r, n);
    var hi, lo := 1024 * r + 512, 1024 * r - 512;
    if m % 2 == 0 {
      ScaleOrder(m, hi, n);
      ScaleOrder(lo, m, n);
      ScaleOrder(lo, hi, n);
    } else {
      ScaleOrder(m + 1, hi, n);
      ScaleOrder(lo, m - 1, n);
    }
  }

  lemma HalfUnits(r: nat, n: nat)
    ensures Scale(2 * r + 1, n + 10) == 2 * Scale(1024 * r + 512, n)
    ensures Scale(2 * r - 1, n + 10) == 2 * Scale(1024 * r - 512, n)
  {
    HalfUnit(2 * r + 1, n, 10);
    HalfUnit(2 * r - 1, n, 10);
    assert 512 * (2 * r + 1) == 1024 * r + 512;
    assert 512 * (2 * r - 1) == 1024 * r - 512;
  }

  lemma HalfUnit(x: int, n: nat, k: nat)
    requires k == 10
    ensures Scale(x, n + k) == 2 * Scale(512 * x, n)
  {
    ScaleScale(x, k, n);
    Constants(x);
    ScaleAdd(512 * x, 512 * x, n);
  }

  /** A significand on exponent pe, encoded as the code encodes it, and its neighbours. */
  lemma Encoded(pe: nat, mant: nat)
    requires mant <= 0x20_0000_0000_0000 && (pe > 0 ==> mant >= 0x10_0000_0000_0000)
    ensures var r := 0x10_0000_0000_0000 * pe + mant;
            Mag(r) == Scale(mant, pe) && Mag(r + 1) >= Scale(mant + 1, pe) &&
            (mant > 0 && (pe == 0 || mant > 0x10_0000_0000_0000) ==> Mag(r - 1) == Scale(mant - 1, pe))
  {
    EncodedValue(pe, mant);
    if mant < 0x20_0000_0000_0000 { EncodedValue(pe, mant + 1); }
    else { EncodedAbove(pe); }
    if mant > 0 && (pe == 0 || mant > 0x10_0000_0000_0000) { EncodedValue(pe, mant - 1); }
  }

  lemma {:induction false} EncodedValue(pe: nat, mant: nat)
    requires mant <= 0x20_0000_0000_0000 && (pe > 0 ==> mant >= 0x10_0000_0000_0000)
    ensures Mag(0x10_0000_0000_0000 * pe + mant) == Scale(mant, pe)
  {
    if pe > 0 { EncodedValue(pe - 1, mant); }
  }

  lemma {:induction false} EncodedAbove(pe: nat)
    ensures Mag(0x10_0000_0000_0000 * pe + 0x20_0000_0000_0001) >= Scale(0x20_0000_0000_0001, pe)
  {
    if pe > 0 { EncodedAbove(pe - 1); }
  }

  /** In range: the encoded, rounded significand is the correctly rounded double. */
  lemma GridIsNearest(v: nat, k: nat, pe: nat, m: u64)
    requires m < 0x8000_0000_0000_0000 && (pe > 0 ==> m >= 0x4000_0000_0000_0000)
    requires k >= 10 && Compressed(v, pe + k - 10, m)
    requires 0x10_0000_0000_0000 * pe + RoundBits(m) < INF
    ensures BetweenMidpoints(v, k, 0x10_0000_0000_0000 * pe + RoundBits(m))
  {
    RoundBitsValue(m);
    WithinHalf(v, pe + k - 10, m);
    var mant := RoundBits(m);
    GridBelow(v, k, pe, mant);
    if mant > 0 && (pe == 0 || mant > 0x10_0000_0000_0000) {
      GridAbove(v, k, pe, mant);
    } else if mant > 0 {
      AtBinade(v, pe + k - 10, m, mant);
      GridAboveBinade(v, k, pe, mant);
    }
  }

  lemma GridBelow(v: nat, k: nat, pe: nat, mant: nat)
    requires mant <= 0x20_0000_0000_0000 && (pe > 0 ==> mant >= 0x10_0000_0000_0000)
    requires 2 * v <= Scale(2 * mant + 1, pe + k)
    requires 2 * v == Scale(2 * mant + 1, pe + k) ==> mant % 2 == 0
    ensures BelowUpperMidpoint(v, k, 0x10_0000_0000_0000 * pe + mant)
  {
    var r := 0x10_0000_0000_0000 * pe + mant;
    Encoded(pe, mant);
    Midpoint(mant, pe, k);
    ScaleScale(mant, pe, k);
    ScaleScale(mant + 1, pe, k);
    ScaleOrder(Scale(mant + 1, pe), Mag(r + 1), k);
    ScaleOrder(Mag(r + 1), Scale(mant + 1, pe), k);
  }

  lemma GridAbove(v: nat, k: nat, pe: nat, mant: nat)
    requires 0 < mant <= 0x20_0000_0000_0000 && (pe > 0 ==> mant > 0x10_0000_0000_0000)
    requires Scale(2 * mant - 1, pe + k) <= 2 * v
    requires 2 * v == Scale(2 * mant - 1, pe + k) ==> mant % 2 == 0
    ensures AboveLowerMidpoint(v, k, 0x10_0000_0000_0000 * pe + mant)
  {
    var r := 0x10_0000_0000_0000 * pe + mant;
    assert Scale(Mag(r), k) == Scale(mant, pe + k) by { EncodedValue(pe, mant); ScaleScale(mant, pe, k); }
    assert Scale(Mag(r - 1), k) == Scale(mant - 1, pe + k) by { EncodedValue(pe, mant - 1); ScaleScale(mant - 1, pe, k); }
    Midpoint(mant - 1, pe, k);
    LowerMidpoint(v, k, r, mant, Scale(mant - 1, pe + k), Scale(mant, pe + k)) by { SameParity(pe, mant); }
  }

  lemma LowerMidpoint(v: nat, k: nat, r: nat, mant: nat, a: nat, b: nat)
    requires r > 0 && Scale(Mag(r - 1), k) == a && Scale(Mag(r), k) == b
    requires a + b <= 2 * v && (2 * v == a + b ==> mant % 2 == 0) && r % 2 == mant % 2
    ensures AboveLowerMidpoint(v, k, r)
  {
  }

  lemma SameParity(pe: nat, mant: nat)
    ensures (0x10_0000_0000_0000 * pe + mant) % 2 == mant % 2
  {
  }

  lemma GridAboveBinade(v: nat, k: nat, pe: nat, mant: nat)
    requires mant == 0x10_0000_0000_0000 && Scale(mant, pe + k) <= v
    ensures AboveLowerMidpoint(v, k, 0x10_0000_0000_0000 * pe + mant)
  {
    var r := 0x10_0000_0000_0000 * pe + mant;
    Encoded(pe, mant);
    ScaleScale(mant, pe, k);
    ScaledMagStep(r - 1, r, k);
  }

  lemma Midpoint(a: nat, pe: nat, k: nat)
    ensures Scale(2 * a + 1, pe + k) == Scale(a, pe + k) + Scale(a + 1, pe + k)
  {
    ScaleAdd(a, a + 1, pe + k);
  }

  /** At the bottom of a binade nothing was lost below the significand's leading bit. */
  lemma AtBinade(v: nat, n: nat, m: u64, mant: nat)
    requires Compressed(v, n, m) && m >= 0x4000_0000_0000_0000 && mant == 0x10_0000_0000_0000
    ensures Scale(mant, n + 10) <= v
  {
    HalfUnit(mant, n, 10);
    ScaleAdd(512 * mant, 512 * mant, n);
    assert 512 * mant + 512 * mant == 0x4000_0000_0000_0000;
    if m % 2 == 0 { ScaleOrder(0x4000_0000_0000_0000, m, n); ScaleOrder(m, 0x4000_0000_0000_0000, n); }
    else { ScaleOrder(0x4000_0000_0000_0000, m - 1, n); ScaleOrder(m - 1, 0x4000_0000_0000_0000, n); }
  }

  /** Out of range: the exact value is at or above the overflow threshold. */
  lemma OverflowIsNearest(v: nat, k: nat, pe: nat, m: u64)
    requires 0x4000_0000_0000_0000 <= m < 0x8000_0000_0000_0000
    requires k >= 10 && Compressed(v, pe + k - 10, m)
    requires pe > 2045 || (pe == 2045 && m + 512 >= 0x8000_0000_0000_0000)
    ensures BetweenMidpoints(v, k, INF)
  {
    var top := pe - 2045;
    var n := 2045 + k - 10;
    var c := 0x7FFF_FFFF_FFFF_FE00;
    AtLeast(v, pe + k - 10, m, if pe == 2045 then c else 0x4000_0000_0000_0000);
    if pe > 2045 {
      ScaleScale(0x4000_0000_0000_0000, pe - 2045, n);
      ScaleGrows(0x4000_0000_0000_0000, 1, pe - 2045);
      ScaleOrder(c, Scale(0x4000_0000_0000_0000, pe - 2045), n);
    }
    assert Scale(c, n) <= v;
    Threshold(n, k);
  }

  lemma AtLeast(v: nat, n: nat, m: nat, c: nat)
    requires Compressed(v, n, m) && c <= m && c % 2 == 0
    ensures Scale(c, n) <= v
  {
    if m % 2 == 0 { ScaleOrder(m, c, n); }
    else { ScaleOrder(m - 1, c, n); }
    ScaleOrder(c, m, n);
    ScaleOrder(c, m - 1, n);
  }

  lemma Threshold(n: nat, k: nat)
    requires n == 2045 + k - 10 && k >= 10
    ensures 2 * Scale(0x7FFF_FFFF_FFFF_FE00, n) == Scale(Mag(INF - 1), k) + Scale(Mag(INF), k)
  {
    var e := n + 10 - k;
    EncodedValue(e, 0x1F_FFFF_FFFF_FFFF);
    EncodedValue(e, 0x20_0000_0000_0000);
    ScaleScale(0x1F_FFFF_FFFF_FFFF, e, k);
    ScaleScale(0x20_0000_0000_0000, e, k);
    ScaleAdd(0x1F_FFFF_FFFF_FFFF, 0x20_0000_0000_0000, n + 10);
    HalfUnit(0x3F_FFFF_FFFF_FFFF, n, 10);
  }
}
