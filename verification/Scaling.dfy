/**
 * Multiplication and division by powers of two, as iterated doubling and halving.
 * Keeping the power of two out of sight keeps every proof about it linear.
 */
module Scaling {

  /** x times two to the n. */
  function Scale(x: int, n: nat): (y: int)
    ensures x >= 0 ==> y >= 0
  {
    if n == 0 then x else 2 * Scale(x, n - 1)
  }

  /** x divided by two to the n, rounded down. */
  function Halve(x: nat, n: nat): nat
  {
    if n == 0 then x else Halve(x / 2, n - 1)
  }

  /** The lowest n bits of x. */
  function Low(x: nat, n: nat): nat
  {
    if n == 0 then 0 else 2 * Low(x / 2, n - 1) + x % 2
  }

  lemma {:induction false} ScaleAdd(x: int, y: int, n: nat)
    ensures Scale(x + y, n) == Scale(x, n) + Scale(y, n)
    ensures Scale(x - y, n) == Scale(x, n) - Scale(y, n)
  {
    if n > 0 { ScaleAdd(x, y, n - 1); }
  }

  lemma {:induction false} ScaleOrder(x: int, y: int, n: nat)
    ensures x < y <==> Scale(x, n) < Scale(y, n)
    ensures x == y <==> Scale(x, n) == Scale(y, n)
    ensures x < y ==> Scale(x, n) + Scale(1, n) <= Scale(y, n)
    ensures Scale(1, n) >= 1
    ensures Scale(0, n) == 0
  {
    if n > 0 { ScaleOrder(x, y, n - 1); }
  }

  lemma {:induction false} ScaleScale(x: int, a: nat, b: nat)
    ensures Scale(Scale(x, a), b) == Scale(x, a + b)
  {
    if b > 0 { ScaleScale(x, a, b - 1); }
  }

  /** Doubling the exponent never shrinks a natural. */
  lemma {:induction false} ScaleGrows(x: nat, a: nat, b: nat)
    requires a <= b
    ensures Scale(x, a) <= Scale(x, b)
  {
    if a < b { ScaleGrows(x, a, b - 1); }
  }

  lemma {:induction false} ScaleProduct(x: int, y: int, a: nat, b: nat)
    ensures Scale(x, a) * Scale(y, b) == Scale(x * y, a + b)
  {
    if b > 0 {
      ScaleProduct(x, y, a, b - 1);
      ProductOfDouble(Scale(x, a), Scale(y, b - 1));
    } else if a > 0 {
      ScaleProduct(x, y, a - 1, 0);
      ProductOfDouble(y, Scale(x, a - 1));
    }
  }

  lemma ProductOfDouble(x: int, y: int)
    ensures x * (2 * y) == 2 * (x * y) == (2 * y) * x
  {
  }

  lemma {:induction false} Cut(x: nat, n: nat)
    ensures x == Scale(Halve(x, n), n) + Low(x, n)
    ensures 0 <= Low(x, n) < Scale(1, n)
  {
    if n > 0 { Cut(x / 2, n - 1); }
  }

  /** A number has only one quotient and remainder by a power of two. */
  lemma {:induction false} CutUnique(q: nat, r: nat, n: nat)
    requires r < Scale(1, n)
    ensures Halve(Scale(q, n) + r, n) == q
    ensures Low(Scale(q, n) + r, n) == r
  {
    if n > 0 {
      CutUnique(q, r / 2, n - 1);
      assert (Scale(q, n) + r) / 2 == Scale(q, n - 1) + r / 2;
    }
  }

  lemma HalveLess(x: nat, n: nat, bound: nat)
    requires x < Scale(bound, n)
    ensures Halve(x, n) < bound
  {
    Cut(x, n);
    ScaleOrder(Halve(x, n), bound, n);
    if Halve(x, n) >= bound { ScaleOrder(bound, Halve(x, n), n); }
  }

  /** The powers of two that 64-bit code uses. */
  lemma Constants(x: int)
    ensures Scale(x, 1) == 2 * x
    ensures Scale(x, 9) == 0x200 * x
    ensures Scale(x, 10) == 0x400 * x
    ensures Scale(x, 11) == 0x800 * x
    ensures Scale(x, 21) == 0x20_0000 * x
    ensures Scale(x, 52) == 0x10_0000_0000_0000 * x
    ensures Scale(x, 53) == 0x20_0000_0000_0000 * x
    ensures Scale(x, 54) == 0x40_0000_0000_0000 * x
    ensures Scale(x, 62) == 0x4000_0000_0000_0000 * x
    ensures Scale(x, 63) == 0x8000_0000_0000_0000 * x
    ensures Scale(x, 64) == 0x1_0000_0000_0000_0000 * x
  {
    SmallConstants(x);
    LargeConstants(x);
  }

  lemma SmallConstants(x: int)
    ensures Scale(x, 1) == 2 * x
    ensures Scale(x, 9) == 0x200 * x
    ensures Scale(x, 10) == 0x400 * x
    ensures Scale(x, 11) == 0x800 * x
    ensures Scale(x, 21) == 0x20_0000 * x
  {
    ScaleBy4(x);
    ScaleBy12(x);
    ScaleBy8(x, 12);
    assert Scale(x, 21) == 2 * Scale(x, 20);
    assert Scale(x, 11) == 2 * Scale(x, 10) == 4 * Scale(x, 9) == 8 * Scale(x, 8);
  }

  lemma LargeConstants(x: int)
    ensures Scale(x, 52) == 0x10_0000_0000_0000 * x
    ensures Scale(x, 53) == 0x20_0000_0000_0000 * x
    ensures Scale(x, 54) == 0x40_0000_0000_0000 * x
    ensures Scale(x, 62) == 0x4000_0000_0000_0000 * x
    ensures Scale(x, 63) == 0x8000_0000_0000_0000 * x
    ensures Scale(x, 64) == 0x1_0000_0000_0000_0000 * x
  {
    ScaleBy32(x);
    ScaleBy8(x, 32);
    ScaleBy8(x, 40);
    ScaleBy4At(x, 48);
    ScaleBy8(x, 52);
    assert Scale(x, 54) == 2 * Scale(x, 53) == 4 * Scale(x, 52);
    assert Scale(x, 62) == 2 * Scale(x, 61) == 4 * Scale(x, 60);
    assert Scale(x, 64) == 2 * Scale(x, 63) == 4 * Scale(x, 62);
  }

  lemma ScaleBy4(x: int)
    ensures Scale(x, 4) == 0x10 * x && Scale(x, 1) == 2 * x
  {
    assert Scale(x, 2) == 2 * Scale(x, 1) == 4 * Scale(x, 0);
  }

  lemma ScaleBy4At(x: int, n: nat)
    ensures Scale(x, n + 4) == 0x10 * Scale(x, n)
  {
    ScaleScale(x, n, 4);
    ScaleBy4(Scale(x, n));
  }

  lemma ScaleBy8(x: int, n: nat)
    ensures Scale(x, n + 8) == 0x100 * Scale(x, n)
  {
    ScaleBy4At(x, n);
    ScaleBy4At(x, n + 4);
  }

  lemma ScaleBy12(x: int)
    ensures Scale(x, 8) == 0x100 * x && Scale(x, 12) == 0x1000 * x
  {
    ScaleBy4(x);
    ScaleBy4At(x, 4);
    ScaleBy4At(x, 8);
  }

  lemma ScaleBy32(x: int)
    ensures Scale(x, 32) == 0x1_0000_0000 * x
  {
    ScaleBy12(x);
    ScaleBy8(x, 8);
    ScaleBy8(x, 16);
    ScaleBy8(x, 24);
  }

  lemma ScaleBy64(x: int)
    ensures Scale(x, 64) == 0x1_0000_0000_0000_0000 * x
  {
    LargeConstants(x);
  }

  /** Scale(x, n) really is x times a power of two. */
  lemma ScaleIsProduct(x: int, n: nat)
    ensures Scale(x, n) == x * Scale(1, n)
  {
    ScaleProduct(x, 1, 0, n);
  }

  lemma ScaleBy52(x: int, k: nat)
    requires k == 52
    ensures Scale(x, k) == 0x10_0000_0000_0000 * x
  {
    LargeConstants(x);
  }

  lemma ScaleBy63(x: int, k: nat)
    requires k == 63
    ensures Scale(x, k) == 0x8000_0000_0000_0000 * x
  {
    LargeConstants(x);
  }

  lemma ScaleSmall(x: nat, n: nat)
    ensures n == 9 ==> Scale(x, n) == 0x200 * x
    ensures n == 10 ==> Scale(x, n) == 0x400 * x
    ensures n == 11 ==> Scale(x, n) == 0x800 * x
    ensures n == 21 ==> Scale(x, n) == 0x20_0000 * x
  {
    if n == 9 || n == 10 || n == 11 || n == 21 { SmallConstants(x); }
  }
}
