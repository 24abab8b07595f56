/** 64-bit words as naturals below 2^64, with the operators of Go's uint64. */
module Words {
  import opened Scaling

  type u64 = x: nat | x < 0x1_0000_0000_0000_0000

  // ---------- bitwise operators, defined bit by bit ----------

  function Or(a: nat, b: nat): (r: nat)
    decreases a + b
  {
    if a == 0 && b == 0 then 0
    else 2 * Or(a / 2, b / 2) + (if a % 2 == 1 || b % 2 == 1 then 1 else 0)
  }

  function And(a: nat, b: nat): (r: nat)
    decreases a + b
  {
    if a == 0 || b == 0 then 0
    else 2 * And(a / 2, b / 2) + (if a % 2 == 1 && b % 2 == 1 then 1 else 0)
  }

  function Xor(a: nat, b: nat): (r: nat)
    decreases a + b
  {
    if a == 0 && b == 0 then 0
    else 2 * Xor(a / 2, b / 2) + (if a % 2 != b % 2 then 1 else 0)
  }

  function Not(a: u64): u64 { 0x1_0000_0000_0000_0000 - 1 - a }

  /** Bitwise or of two words is a word. */
  function Or64(a: u64, b: u64): (r: u64)
    ensures r == Or(a, b)
  {
    ScaleBy64(1);
    OrBound(a, b, 64);
    Or(a, b)
  }

  /** Shifts by a count that may exceed the width, as Go defines them. */
  function Shl(x: u64, n: nat): u64
  {
    if n >= 64 then 0 else Scale(x, n) % 0x1_0000_0000_0000_0000
  }

  function Shr(x: u64, n: nat): u64
  {
    HalveBound(x, n);
    if n >= 64 then 0 else Halve(x, n)
  }

  lemma {:induction false} HalveBound(x: nat, n: nat)
    ensures Halve(x, n) <= x
  {
    if n > 0 { HalveBound(x / 2, n - 1); }
  }

  /** Subtraction of unsigned words wraps around. */
  function Sub(a: u64, b: u64): u64
  {
    if a >= b then a - b else 0x1_0000_0000_0000_0000 + a - b
  }

  function Nonzero(x: u64): u64 { if x != 0 then 1 else 0 }

  function Zero(x: u64): u64 { if x == 0 then 1 else 0 }

  /** The mask of the n lowest bits. */
  function LowMask(n: nat): u64
    requires n <= 64
  {
    ScaleBy64(1);
    ScaleGrows(1, n, 64);
    ScaleOrder(0, 1, n);
    Scale(1, n) - 1
  }

  /** And64 of two words is a word. */
  function And64(a: u64, b: u64): (r: u64)
    ensures r == And(a, b)
  {
    AndBound(a, b);
    And(a, b)
  }

  /** The number of leading zero bits of a word. */
  function LeadingZeros(x: u64): (n: nat)
    ensures n <= 64
    ensures x > 0 ==> n < 64 && Scale(1, 63 - n) <= x < Scale(1, 64 - n)
    ensures x == 0 ==> n == 64
  {
    ScaleBy64(1);
    LeadingZerosFrom(x, 64)
  }

  function LeadingZerosFrom(x: nat, width: nat): (n: nat)
    requires x < Scale(1, width)
    ensures n <= width
    ensures x > 0 ==> n < width && Scale(1, width - 1 - n) <= x < Scale(1, width - n)
    ensures x == 0 ==> n == width
  {
    if width == 0 then 0
    else if x >= Scale(1, width - 1) then ScaleOrder(0, 1, width - 1); 0
    else 1 + LeadingZerosFrom(x, width - 1)
  }

  // ---------- what the bitwise operators mean as arithmetic ----------

  lemma {:induction false} OrDisjoint(a: nat, b: nat, k: nat)
    requires b < Scale(1, k)
    ensures Or(Scale(a, k), b) == Scale(a, k) + b
  {
    if k == 0 {
      OrZero(a);
    } else {
      OrDisjoint(a, b / 2, k - 1);
    }
  }

  lemma {:induction false} OrZero(a: nat)
    ensures Or(a, 0) == a == Or(0, a)
  {
    if a > 0 { OrZero(a / 2); }
  }

  lemma OrBit(a: nat, b: nat)
    requires b <= 1
    ensures Or(a, b) == if b == 1 then a - a % 2 + 1 else a
  {
    OrZero(a);
    OrZero(a / 2);
  }

  lemma {:induction false} OrIsZero(a: nat, b: nat)
    ensures Or(a, b) == 0 <==> a == 0 && b == 0
  {
    if a != 0 || b != 0 { OrIsZero(a / 2, b / 2); }
  }

  lemma {:induction false} OrBound(a: nat, b: nat, k: nat)
    requires a < Scale(1, k) && b < Scale(1, k)
    ensures Or(a, b) < Scale(1, k)
  {
    if k > 0 && (a != 0 || b != 0) { OrBound(a / 2, b / 2, k - 1); }
  }

  lemma {:induction false} OrCommutes(a: nat, b: nat)
    ensures Or(a, b) == Or(b, a)
  {
    if a != 0 || b != 0 { OrCommutes(a / 2, b / 2); }
  }

  lemma {:induction false} OrSelf(a: nat)
    ensures Or(a, a) == a
  {
    if a != 0 { OrSelf(a / 2); }
  }

  lemma {:induction false} AndBound(a: nat, b: nat)
    ensures And(a, b) <= a
  {
    if a != 0 && b != 0 { AndBound(a / 2, b / 2); }
  }

  lemma {:induction false} AndMask(a: nat, k: nat)
    ensures Scale(1, k) >= 1 && And(a, Scale(1, k) - 1) == Low(a, k)
  {
    ScaleOrder(0, 1, k);
    if k > 0 {
      ScaleOrder(0, 1, k - 1);
      AndMask(a / 2, k - 1);
      LowOfZero(k);
    }
  }

  lemma {:induction false} LowOfZero(k: nat)
    ensures Low(0, k) == 0
  {
    if k > 0 { LowOfZero(k - 1); }
  }

  lemma {:induction false} XorIsZero(a: nat, b: nat)
    ensures Xor(a, b) == 0 <==> a == b
  {
    if a != 0 || b != 0 { XorIsZero(a / 2, b / 2); }
  }

  /** Clearing bit 0 of a word, or nothing. */
  lemma AndNotBit(a: u64, z: u64)
    requires z <= 1
    ensures And(a, Not(z)) == a - z * (a % 2)
  {
    ScaleBy64(1);
    if z == 0 {
      AndMask(a, 64);
      CutUnique(0, a, 64);
      ScaleOrder(0, 0, 64);
    } else if a > 0 {
      AndMask(a / 2, 63);
      CutUnique(0, a / 2, 63);
      ScaleOrder(0, 0, 63);
    }
  }

  /** Cutting a word into its top n and its low 64 - n bits. */
  lemma ShlShr(x: u64, n: nat)
    requires n < 64
    ensures Shl(x, n) == Scale(Low(x, 64 - n), n)
    ensures Scale(x, n) == 0x1_0000_0000_0000_0000 * Halve(x, 64 - n) + Shl(x, n)
    ensures Halve(x, 64 - n) < Scale(1, n)
  {
    ShlShrSplit(x, n);
    var l := Scale(Low(x, 64 - n), n);
    assert Shl(x, n) == Scale(x, n) % 0x1_0000_0000_0000_0000;
    assert Scale(x, n) == 0x1_0000_0000_0000_0000 * Halve(x, 64 - n) + l;
    WordHalf(x, n);
  }

  lemma WordHalf(x: u64, n: nat)
    requires n < 64
    ensures Halve(x, 64 - n) < Scale(1, n)
  {
    ScaleScale(1, n, 64 - n);
    ScaleBy64(1);
    HalveLess(x, 64 - n, Scale(1, n));
  }

  lemma ShlShrSplit(x: u64, n: nat)
    requires n < 64
    ensures Scale(x, n) == 0x1_0000_0000_0000_0000 * Halve(x, 64 - n) + Scale(Low(x, 64 - n), n)
    ensures 0 <= Scale(Low(x, 64 - n), n) < 0x1_0000_0000_0000_0000
  {
    var h, l := Halve(x, 64 - n), Low(x, 64 - n);
    Cut(x, 64 - n);
    assert Scale(x, n) == 0x1_0000_0000_0000_0000 * h + Scale(l, n) by {
      ScaleAdd(Scale(h, 64 - n), l, n);
      ScaleScale(h, 64 - n, n);
      ScaleBy64(h);
    }
    assert 0 <= Scale(l, n) < 0x1_0000_0000_0000_0000 by {
      ScaleOrder(l, Scale(1, 64 - n), n);
      ScaleScale(1, 64 - n, n);
      ScaleBy64(1);
    }
  }

  lemma HalveIsDivision(b: u64, k: nat)
    requires k == 52
    ensures Halve(b, k) == b / 0x10_0000_0000_0000
  {
    Cut(b, k);
    ScaleBy52(Halve(b, k), k);
    ScaleBy52(1, k);
  }

  lemma ElevenBits(h: nat, n: nat)
    requires n == 11
    ensures And(h, 2047) == h % 2048
  {
    ScaleSmall(1, n);
    AndMask(h, n);
    Cut(h, n);
    ScaleSmall(Halve(h, n), n);
  }

  lemma {:induction false} AndShifted(a: nat, c: nat, k: nat)
    ensures And(a, Scale(c, k)) == Scale(And(Halve(a, k), c), k)
  {
    if k > 0 {
      AndShifted(a / 2, c, k - 1);
      ScaleOrder(0, c, k - 1);
      ScaleOrder(0, 0, k);
    }
  }

  lemma OneBit(x: u64)
    ensures x < 0x8000_0000_0000_0000 ==> Shl(x, 1) == 2 * x
    ensures Shr(x, 1) == x / 2
  {
    assert Scale(x, 1) == 2 * Scale(x, 0);
    assert Halve(x, 1) == Halve(x / 2, 0);
  }

  lemma {:induction false} AndSplit(a: nat, c: nat, k: nat)
    ensures Scale(1, k) >= 1 && And(a, Scale(c, k) + Scale(1, k) - 1) == Scale(And(Halve(a, k), c), k) + Low(a, k)
  {
    ScaleOrder(0, 1, k);
    if k > 0 {
      AndSplit(a / 2, c, k - 1);
      if a == 0 { AndSplitZero(c, k); }
    }
  }

  lemma {:induction false} AndSplitZero(c: nat, k: nat)
    ensures Halve(0, k) == 0 && Low(0, k) == 0 && Scale(And(0, c), k) == 0
  {
    if k > 0 { AndSplitZero(c, k - 1); }
  }

  lemma AndOne(x: u64)
    ensures And64(x, 1) == x % 2
  {
    if x > 0 { assert And(x / 2, 0) == 0; }
  }
}
