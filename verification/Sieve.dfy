/**
 * The concurrent prime sieve of doc/play/sieve.go: Generate, a chain of Filter
 * goroutines and main, joined by unbuffered channels, under every schedule and
 * for any number of rounds of main's loop (the program asks for ten).
 *
 * A step is one rendezvous. Channel 0 leads out of Generate, channel j + 1 out of
 * the filter with index j; the last channel is the one main receives from.
 */
module Sieve {
  import opened Wrappers

  /** A Filter goroutine: its prime, and the value it is sending if it is not receiving. */
  datatype Filter = Filter(prime: nat, holding: Option<nat>)

  /** next is Generate's i; sent is history: the values that went over each channel. */
  datatype State = State(next: nat, filters: seq<Filter>, printed: seq<nat>, sent: seq<seq<nat>>)

  const START := State(2, [], [], [[]])

  /** The value waiting to be sent on channel j. */
  function Offered(s: State, j: nat): Option<nat>
    requires j <= |s.filters|
  {
    if j == 0 then Some(s.next) else s.filters[j - 1].holding
  }

  /** A filter with a value in hand is not receiving; main always is until it returns. */
  predicate Receiving(s: State, j: nat)
    requires j <= |s.filters|
  {
    j == |s.filters| || s.filters[j].holding.None?
  }

  predicate Enabled(s: State, rounds: nat, j: nat)
  {
    |s.printed| < rounds && j <= |s.filters| < |s.sent| && Offered(s, j).Some? && Receiving(s, j) &&
    (j < |s.filters| ==> s.filters[j].prime != 0)
  }

  /** Filter's loop body between receiving i and sending it or receiving again. */
  function Take(f: Filter, i: nat): Filter
    requires f.prime != 0
  {
    f.(holding := if i % f.prime != 0 then Some(i) else None)
  }

  /** The rendezvous on channel j. */
  function Step(s: State, rounds: nat, j: nat): State
    requires Enabled(s, rounds, j)
  {
    var i := Offered(s, j).value;
    var next := if j == 0 then s.next + 1 else s.next;
    var freed := if j == 0 then s.filters else s.filters[j - 1 := s.filters[j - 1].(holding := None)];
    var sent := s.sent[j := s.sent[j] + [i]];
    if j < |s.filters| then
      State(next, freed[j := Take(freed[j], i)], s.printed, sent)
    else
      // main prints the prime and starts a filter for it on a new channel
      State(next, freed + [Filter(i, None)], s.printed + [i], sent + [[]])
  }

  /** A run is the list of channels that the schedule picks. */
  function Exec(rounds: nat, run: seq<nat>): Option<State>
  {
    if run == [] then Some(START)
    else
      var before := Exec(rounds, run[..|run| - 1]);
      var j := run[|run| - 1];
      if before.Some? && Enabled(before.value, rounds, j) then Some(Step(before.value, rounds, j)) else None
  }

  // ---------- the streams ----------

  predicate Divides(d: nat, n: nat) { d != 0 && n % d == 0 }

  predicate Coprime(ps: seq<nat>, n: nat) { forall i :: 0 <= i < |ps| ==> !Divides(ps[i], n) }

  /** The integers from 2 up to hi that none of ps divides, in order. */
  function Survivors(ps: seq<nat>, hi: nat): seq<nat>
  {
    if hi <= 2 then [] else Survivors(ps, hi - 1) + if Coprime(ps, hi - 1) then [hi - 1] else []
  }

  /** What a filter lets through. */
  function Keep(s: seq<nat>, p: nat): seq<nat>
  {
    if s == [] then []
    else
      var x := s[|s| - 1];
      Keep(s[..|s| - 1], p) + if Divides(p, x) then [] else [x]
  }

  function Held(f: Filter): seq<nat> { if f.holding.Some? then [f.holding.value] else [] }

  lemma {:induction false} KeepAppend(a: seq<nat>, b: seq<nat>, p: nat)
    ensures Keep(a + b, p) == Keep(a, p) + Keep(b, p)
  {
    if b == [] {
      assert a + b == a;
    } else {
      KeepAppend(a, b[..|b| - 1], p);
      assert (a + b)[..|a + b| - 1] == a + b[..|b| - 1];
    }
  }

  lemma {:induction false} KeepShrinks(s: seq<nat>, p: nat)
    ensures |Keep(s, p)| <= |s|
  {
    if s != [] { KeepShrinks(s[..|s| - 1], p); }
  }

  lemma {:induction false} KeepSurvivors(ps: seq<nat>, p: nat, hi: nat)
    requires p != 0
    ensures Keep(Survivors(ps, hi), p) == Survivors(ps + [p], hi)
  {
    if hi > 2 {
      KeepSurvivors(ps, p, hi - 1);
      var x := hi - 1;
      assert Coprime(ps + [p], x) <==> Coprime(ps, x) && !Divides(p, x) by {
        assert (ps + [p])[|ps|] == p;
        assert forall i :: 0 <= i < |ps| ==> (ps + [p])[i] == ps[i];
      }
      if Coprime(ps, x) {
        KeepAppend(Survivors(ps, x), [x], p);
        assert Keep([x], p) == if Divides(p, x) then [] else [x];
      } else {
        assert Survivors(ps, hi) == Survivors(ps, x);
      }
    }
  }

  /** The first survivor is the least, and every smaller candidate has a divisor in ps. */
  lemma {:induction false} FirstSurvivor(ps: seq<nat>, hi: nat)
    requires Survivors(ps, hi) != []
    ensures var v := Survivors(ps, hi)[0];
            2 <= v < hi && Coprime(ps, v) && forall m: nat :: 2 <= m < v ==> !Coprime(ps, m)
  {
    if Survivors(ps, hi - 1) != [] {
      FirstSurvivor(ps, hi - 1);
    } else {
      NoSurvivor(ps, hi - 1);
    }
  }

  lemma {:induction false} NoSurvivor(ps: seq<nat>, hi: nat)
    requires Survivors(ps, hi) == []
    ensures forall m: nat :: 2 <= m < hi ==> !Coprime(ps, m)
  {
    if hi > 2 { NoSurvivor(ps, hi - 1); }
  }

  // ---------- the invariant ----------

  /** Channel j + 1, with what its filter holds, is channel j filtered. */
  ghost predicate Linked(s: State, j: nat)
    requires j < |s.filters| && |s.sent| == |s.filters| + 1
  {
    s.sent[j] != [] && s.sent[j][0] == s.filters[j].prime >= 2 &&
    s.sent[j + 1] + Held(s.filters[j]) == Keep(s.sent[j], s.filters[j].prime)
  }

  ghost predicate Inv(s: State)
  {
    |s.sent| == |s.filters| + 1 && |s.printed| == |s.filters| && s.next >= 2 &&
    s.sent[0] == Survivors([], s.next) && s.sent[|s.filters|] == [] &&
    (forall j: nat :: j < |s.filters| ==> s.printed[j] == s.filters[j].prime && Linked(s, j))
  }

  lemma {:induction false} AllSurvive(hi: nat)
    requires hi >= 2
    ensures Survivors([], hi + 1) == Survivors([], hi) + [hi]
  {
  }

  /** Every value on a channel is at least 2, so the one main takes can be a filter's prime. */
  lemma {:induction false} OfferedIsBig(s: State, j: nat)
    requires Inv(s) && j <= |s.filters| && Offered(s, j).Some?
    ensures Offered(s, j).value >= 2
    ensures forall i :: 0 <= i < |s.sent[j]| ==> s.sent[j][i] >= 2
  {
    if j == 0 {
      SurvivorsBig([], s.next);
    } else {
      var k := j - 1;
      assert Linked(s, k);
      BigBelow(s, k);
      KeepBig(s.sent[k], s.filters[k].prime);
      var all := s.sent[j] + Held(s.filters[k]);
      assert all[|all| - 1] == Offered(s, j).value;
      assert forall i :: 0 <= i < |s.sent[j]| ==> s.sent[j][i] == all[i];
    }
  }

  lemma {:induction false} SurvivorsBig(ps: seq<nat>, hi: nat)
    ensures forall i :: 0 <= i < |Survivors(ps, hi)| ==> 2 <= Survivors(ps, hi)[i] < hi
  {
    if hi > 2 { SurvivorsBig(ps, hi - 1); }
  }

  lemma {:induction false} KeepBig(s: seq<nat>, p: nat)
    requires forall i :: 0 <= i < |s| ==> s[i] >= 2
    ensures forall i :: 0 <= i < |Keep(s, p)| ==> Keep(s, p)[i] >= 2
  {
    if s != [] { KeepBig(s[..|s| - 1], p); }
  }

  lemma {:induction false} BigBelow(s: State, j: nat)
    requires Inv(s) && j <= |s.filters|
    ensures forall i :: 0 <= i < |s.sent[j]| ==> s.sent[j][i] >= 2
  {
    if j == 0 {
      SurvivorsBig([], s.next);
    } else {
      assert Linked(s, j - 1);
      BigBelow(s, j - 1);
      KeepBig(s.sent[j - 1], s.filters[j - 1].prime);
      var all := s.sent[j] + Held(s.filters[j - 1]);
      assert forall i :: 0 <= i < |s.sent[j]| ==> s.sent[j][i] == all[i];
    }
  }

  /** A filter that takes a value still produces its filtered input. */
  lemma TakeLinked(input: seq<nat>, out: seq<nat>, f: Filter, i: nat)
    requires f.prime != 0 && f.holding.None? && out + Held(f) == Keep(input, f.prime)
    ensures out + Held(Take(f, i)) == Keep(input + [i], f.prime)
  {
    assert (input + [i])[..|input + [i]| - 1] == input;
    assert out + Held(f) == out;
  }

  lemma StepKeepsInv(s: State, rounds: nat, j: nat)
    requires Inv(s) && Enabled(s, rounds, j)
    ensures Inv(Step(s, rounds, j))
  {
    var s' := Step(s, rounds, j);
    var i := Offered(s, j).value;
    OfferedIsBig(s, j);
    if j == 0 { AllSurvive(s.next); }
    forall k: nat | k < |s'.filters| ensures s'.printed[k] == s'.filters[k].prime && Linked(s', k) {
      if k < |s.filters| {
        assert Linked(s, k);
        if k + 1 == j {
          assert s.sent[j] + [i] + [] == s.sent[j] + [i];
        } else if k == j {
          TakeLinked(s.sent[j], s.sent[j + 1], s.filters[j], i);
        }
      } else {
        assert s.sent[j] + [i] == [i];
        assert Keep([i], i) == Keep([], i) + [];
      }
    }
  }

  lemma {:induction false} ReachableInv(rounds: nat, run: seq<nat>)
    requires Exec(rounds, run).Some?
    ensures Inv(Exec(rounds, run).value)
  {
    if run != [] {
      ReachableInv(rounds, run[..|run| - 1]);
      StepKeepsInv(Exec(rounds, run[..|run| - 1]).value, rounds, run[|run| - 1]);
    }
  }

  /** Channel j carries, in order, a prefix of the integers the first j primes leave over, missing at most j. */
  lemma {:induction false} StreamIsPrefix(s: State, j: nat)
    requires Inv(s) && j <= |s.filters|
    ensures s.sent[j] <= Survivors(s.printed[..j], s.next)
    ensures |Survivors(s.printed[..j], s.next)| <= |s.sent[j]| + j
  {
    if j == 0 {
      assert s.printed[..0] == [];
    } else {
      var k := j - 1;
      var p := s.filters[k].prime;
      StreamIsPrefix(s, k);
      assert Linked(s, k);
      var all := Survivors(s.printed[..k], s.next);
      var rest := all[|s.sent[k]|..];
      assert all == s.sent[k] + rest;
      KeepAppend(s.sent[k], rest, p);
      KeepShrinks(rest, p);
      KeepSurvivors(s.printed[..k], p, s.next);
      assert s.printed[..j] == s.printed[..k] + [p];
    }
  }

  /** In every schedule, channel j has carried a prefix of the integers from 2 up that the first j primes do not divide. */
  lemma Streams(rounds: nat, run: seq<nat>, j: nat)
    requires Exec(rounds, run).Some? && j <= |Exec(rounds, run).value.printed|
    ensures var s := Exec(rounds, run).value; j < |s.sent| && s.sent[j] <= Survivors(s.printed[..j], s.next)
  {
    ReachableInv(rounds, run);
    StreamIsPrefix(Exec(rounds, run).value, j);
  }

  // ---------- primes ----------

  ghost predicate IsPrime(n: nat)
  {
    n >= 2 && forall d: nat :: 2 <= d < n ==> !Divides(d, n)
  }

  /** ps lists all primes up to its last element, in order: the first |ps| primes. */
  ghost predicate FirstPrimes(ps: seq<nat>)
  {
    (forall i, j :: 0 <= i < j < |ps| ==> ps[i] < ps[j]) &&
    (forall i :: 0 <= i < |ps| ==> IsPrime(ps[i])) &&
    (forall q: nat :: ps != [] && IsPrime(q) && q <= ps[|ps| - 1] ==> q in ps)
  }

  lemma DividesTrans(a: nat, b: nat, c: nat)
    requires Divides(a, b) && Divides(b, c)
    ensures Divides(a, c)
  {
    var x, y := b / a, c / b;
    assert b == a * x && c == b * y;
    assert c == a * (x * y);
    MultipleMod(a, x * y);
  }

  lemma ModUnique(n: nat, a: nat, q: nat, r: nat)
    requires r < a && n == a * q + r
    ensures n % a == r
  {
    var d := q - n / a;
    assert a * d == n % a - r by {
      assert n == a * (n / a) + n % a;
      assert a * d == a * q - a * (n / a);
    }
    if d >= 1 {
      AtLeast(a, d);
    } else if d <= -1 {
      Opposite(a, d);
      AtLeast(a, -d);
    }
  }

  lemma Opposite(a: int, d: int)
    ensures a * d == -(a * -d)
  {
  }

  lemma DividesAtMost(a: nat, b: nat)
    requires Divides(a, b) && b != 0
    ensures a <= b
  {
    if a > b { ModUnique(b, a, 0, b); }
  }

  lemma PrimeDivisor(p: nat, q: nat)
    requires IsPrime(p) && IsPrime(q) && Divides(p, q)
    ensures p == q
  {
    DividesAtMost(p, q);
  }

  lemma MultipleMod(a: nat, k: nat)
    requires a != 0
    ensures (a * k) % a == 0 && (a >= 2 ==> (a * k + 1) % a == 1)
  {
    ModUnique(a * k, a, k, 0);
    if a >= 2 { ModUnique(a * k + 1, a, k, 1); }
  }

  /** v has no divisor in ps, and every smaller candidate has one. */
  ghost predicate Next(ps: seq<nat>, v: nat)
  {
    v >= 2 && Coprime(ps, v) && forall m: nat :: 2 <= m < v ==> !Coprime(ps, m)
  }

  lemma NextIsPrime(ps: seq<nat>, v: nat)
    requires Next(ps, v)
    ensures IsPrime(v)
  {
    forall d: nat | 2 <= d < v && Divides(d, v) ensures false {
      assert !Coprime(ps, d);
      var i :| 0 <= i < |ps| && Divides(ps[i], d);
      DividesTrans(ps[i], d, v);
    }
  }

  lemma SmallerPrimesListed(ps: seq<nat>, v: nat, q: nat)
    requires FirstPrimes(ps) && Next(ps, v) && IsPrime(q) && q < v
    ensures q in ps
  {
    assert !Coprime(ps, q);
    var i :| 0 <= i < |ps| && Divides(ps[i], q);
    PrimeDivisor(ps[i], q);
  }

  lemma NextIsNew(ps: seq<nat>, v: nat)
    requires Next(ps, v)
    ensures v !in ps
  {
    ModUnique(v, v, 1, 0);
    assert Divides(v, v);
  }

  lemma NextIsLarger(ps: seq<nat>, v: nat, i: nat)
    requires FirstPrimes(ps) && Next(ps, v) && i < |ps|
    ensures ps[i] < v
  {
    NextIsPrime(ps, v);
    NextIsNew(ps, v);
  }

  /** The least number above 1 that the first primes do not divide is the next prime. */
  lemma NextPrime(ps: seq<nat>, v: nat)
    requires FirstPrimes(ps) && Next(ps, v)
    ensures FirstPrimes(ps + [v])
  {
    NextIsPrime(ps, v);
    forall i: nat | i < |ps| ensures ps[i] < v { NextIsLarger(ps, v, i); }
    forall q: nat | IsPrime(q) && q < v ensures q in ps + [v] {
      SmallerPrimesListed(ps, v, q);
    }
  }

  lemma PrintedIsNext(s: State, k: nat, front: seq<nat>)
    requires Inv(s) && k < |s.printed| && front == s.printed[..k]
    ensures Next(front, s.printed[k])
  {
    assert Linked(s, k);
    StreamIsPrefix(s, k);
    FirstSurvivor(s.printed[..k], s.next);
  }

  /** main has printed the first primes. */
  lemma {:induction false} PrintedArePrimes(s: State, k: nat, primes: seq<nat>)
    requires Inv(s) && k <= |s.printed| && primes == s.printed[..k]
    ensures FirstPrimes(primes)
  {
    if k != 0 {
      var front := s.printed[..k - 1];
      PrintedArePrimes(s, k - 1, front);
      PrintedIsNext(s, k - 1, front);
      NextPrime(front, s.printed[k - 1]);
      assert primes == front + [s.printed[k - 1]];
    }
  }

  /** In every schedule, what main has received so far is exactly the first primes in order. */
  lemma KthIsKthPrime(rounds: nat, run: seq<nat>)
    requires Exec(rounds, run).Some?
    ensures FirstPrimes(Exec(rounds, run).value.printed)
  {
    ReachableInv(rounds, run);
    var s := Exec(rounds, run).value;
    assert s.printed[..|s.printed|] == s.printed;
    PrintedArePrimes(s, |s.printed|, s.printed);
  }

  lemma UnlistedIsLater(ps: seq<nat>, k: nat, q: nat)
    requires FirstPrimes(ps) && k < |ps| && IsPrime(q) && forall i :: 0 <= i < k ==> ps[i] != q
    ensures ps[k] <= q
  {
    assert ps[k] <= ps[|ps| - 1];
    if q <= ps[|ps| - 1] {
      var i :| 0 <= i < |ps| && ps[i] == q;
    }
  }

  lemma NoGap(ps: seq<nat>, qs: seq<nat>, k: nat)
    requires FirstPrimes(ps) && FirstPrimes(qs) && k < |ps| && k < |qs|
    requires forall i :: 0 <= i < k ==> ps[i] == qs[i]
    ensures ps[k] <= qs[k]
  {
    UnlistedIsLater(ps, k, qs[k]);
  }

  /** There is only one list of the first n primes. */
  lemma {:induction false} FirstPrimesUnique(ps: seq<nat>, qs: seq<nat>)
    requires FirstPrimes(ps) && FirstPrimes(qs) && |ps| <= |qs|
    ensures ps <= qs
  {
    if ps != [] {
      var k := |ps| - 1;
      FirstPrimesPrefix(ps, k);
      FirstPrimesUnique(ps[..k], qs);
      assert forall i :: 0 <= i < k ==> ps[i] == ps[..k][i] == qs[i];
      NoGap(ps, qs, k);
      NoGap(qs, ps, k);
    }
  }

  lemma FirstPrimesPrefix(ps: seq<nat>, k: nat)
    requires FirstPrimes(ps) && k <= |ps|
    ensures FirstPrimes(ps[..k])
  {
    forall q: nat | k > 0 && IsPrime(q) && q <= ps[k - 1] ensures q in ps[..k] {
      assert ps[k - 1] <= ps[|ps| - 1];
      var i :| 0 <= i < |ps| && ps[i] == q;
      assert i < k;
      assert ps[..k][i] == q;
    }
  }

  // ---------- no deadlock, and no schedule that runs forever ----------

  /** Some channel at or below j can move. */
  lemma {:induction false} SomeStep(s: State, rounds: nat, j: nat) returns (k: nat)
    requires Inv(s) && |s.printed| < rounds && j <= |s.filters| && Receiving(s, j)
    ensures k <= j && Enabled(s, rounds, k)
  {
    if j < |s.filters| { assert Linked(s, j); }
    if Offered(s, j).Some? {
      k := j;
    } else {
      k := SomeStep(s, rounds, j - 1);
    }
  }

  /** In every schedule, until main has its primes, some rendezvous is possible. */
  lemma NoDeadlock(rounds: nat, run: seq<nat>)
    requires Exec(rounds, run).Some? && |Exec(rounds, run).value.printed| < rounds
    ensures exists j :: Enabled(Exec(rounds, run).value, rounds, j)
  {
    ReachableInv(rounds, run);
    var s := Exec(rounds, run).value;
    var j := SomeStep(s, rounds, |s.filters|);
  }

  function Product(ps: seq<nat>): nat
  {
    if ps == [] then 1 else Product(ps[..|ps| - 1]) * ps[|ps| - 1]
  }

  lemma {:induction false} ProductDivisible(ps: seq<nat>, i: nat)
    requires i < |ps| && forall k :: 0 <= k < |ps| ==> ps[k] >= 2
    ensures Divides(ps[i], Product(ps))
  {
    var k := |ps| - 1;
    if i == k {
      assert Product(ps) == ps[k] * Product(ps[..k]) by { Commute(Product(ps[..k]), ps[k]); }
      MultipleMod(ps[k], Product(ps[..k]));
    } else {
      ProductDivisible(ps[..k], i);
      var q := Product(ps[..k]);
      if q != 0 {
        Commute(q, ps[k]);
        MultipleMod(q, ps[k]);
        DividesTrans(ps[i], q, Product(ps));
      } else {
        assert Product(ps) == 0;
      }
    }
  }

  lemma Commute(a: nat, b: nat)
    ensures a * b == b * a
  {
  }

  /** One more than a multiple of the product survives. */
  lemma OneMoreSurvives(ps: seq<nat>, m: nat)
    requires forall k :: 0 <= k < |ps| ==> ps[k] >= 2
    ensures Coprime(ps, m * Product(ps) + 1)
  {
    forall i | 0 <= i < |ps| ensures !Divides(ps[i], m * Product(ps) + 1) {
      ProductDivisible(ps, i);
      var p, q := ps[i], Product(ps) / ps[i];
      assert Product(ps) == p * q;
      assert m * (p * q) == p * (q * m);
      MultipleMod(p, q * m);
    }
  }

  lemma {:induction false} SurvivorsGrow(ps: seq<nat>, a: nat, b: nat)
    requires a <= b
    ensures |Survivors(ps, a)| <= |Survivors(ps, b)|
    decreases b
  {
    if a < b { if b > 2 { SurvivorsGrow(ps, a, b - 1); } }
  }

  lemma {:induction false} ManySurvivors(ps: seq<nat>, m: nat)
    requires Product(ps) >= 1 && forall k :: 0 <= k < |ps| ==> ps[k] >= 2
    ensures m <= |Survivors(ps, m * Product(ps) + 2)|
  {
    if m != 0 {
      ManySurvivors(ps, m - 1);
      var v := m * Product(ps) + 1;
      assert m * Product(ps) == (m - 1) * Product(ps) + Product(ps);
      SurvivorsGrow(ps, (m - 1) * Product(ps) + 2, v);
      OneMoreSurvives(ps, m);
    }
  }

  lemma {:induction false} ProductPositive(ps: seq<nat>)
    requires forall k :: 0 <= k < |ps| ==> ps[k] >= 2
    ensures Product(ps) >= 1
  {
    if ps != [] {
      ProductPositive(ps[..|ps| - 1]);
      AtLeast(Product(ps[..|ps| - 1]), ps[|ps| - 1]);
    }
  }

  lemma AtLeast(a: nat, b: nat)
    requires b >= 1
    ensures a * b >= a
  {
    assert a * b == a * (b - 1) + a;
  }

  /** As far as Generate can get when these primes have been printed. */
  function Limit(ps: seq<nat>): nat { (|ps| + 1) * Product(ps) + 2 }

  lemma LimitSurvivors(ps: seq<nat>)
    requires forall k :: 0 <= k < |ps| ==> ps[k] >= 2
    ensures |ps| < |Survivors(ps, Limit(ps))|
  {
    ProductPositive(ps);
    ManySurvivors(ps, |ps| + 1);
  }

  /** Generate cannot run ahead: the values in the chain are held, one by each filter, or were printed. */
  lemma GenerateIsHeldBack(s: State)
    requires Inv(s)
    ensures s.next <= Limit(s.printed)
  {
    var n := |s.printed|;
    StreamIsPrefix(s, n);
    assert s.printed[..n] == s.printed;
    forall k | 0 <= k < n ensures s.printed[k] >= 2 { assert Linked(s, k); }
    LimitSurvivors(s.printed);
    if s.next > Limit(s.printed) { SurvivorsGrow(s.printed, Limit(s.printed), s.next); }
  }

  /** How many rendezvous there have been. */
  function Total(sent: seq<seq<nat>>): nat
  {
    if sent == [] then 0 else Total(sent[..|sent| - 1]) + |sent[|sent| - 1]|
  }

  lemma {:induction false} TotalGrows(sent: seq<seq<nat>>, j: nat, i: nat)
    requires j < |sent|
    ensures Total(sent[j := sent[j] + [i]]) == Total(sent) + 1
  {
    var k := |sent| - 1;
    var sent' := sent[j := sent[j] + [i]];
    if j < k {
      TotalGrows(sent[..k], j, i);
      assert sent'[..k] == sent[..k][j := sent[..k][j] + [i]];
    } else {
      assert sent'[..k] == sent[..k];
    }
  }

  lemma {:induction false} TotalIsLength(rounds: nat, run: seq<nat>)
    requires Exec(rounds, run).Some?
    ensures Total(Exec(rounds, run).value.sent) == |run|
  {
    if run == [] {
      assert START.sent[..0] == [];
    } else {
      var s, j := Exec(rounds, run[..|run| - 1]).value, run[|run| - 1];
      TotalIsLength(rounds, run[..|run| - 1]);
      var i := Offered(s, j).value;
      TotalGrows(s.sent, j, i);
      var sent := s.sent[j := s.sent[j] + [i]];
      assert (sent + [[]])[..|sent|] == sent;
    }
  }

  lemma {:induction false} TotalBound(sent: seq<seq<nat>>, bound: nat)
    requires forall j :: 0 <= j < |sent| ==> |sent[j]| <= bound
    ensures Total(sent) <= |sent| * bound
  {
    if sent != [] {
      TotalBound(sent[..|sent| - 1], bound);
      assert |sent| * bound == (|sent| - 1) * bound + bound;
    }
  }

  lemma {:induction false} SurvivorsFew(ps: seq<nat>, hi: nat)
    ensures |Survivors(ps, hi)| <= hi
  {
    if hi > 2 { SurvivorsFew(ps, hi - 1); }
  }

  /** A bound on the number of steps in terms of the primes asked for. */
  function Budget(ps: seq<nat>): nat { (|ps| + 1) * Limit(ps) }

  lemma BudgetGrows(ps: seq<nat>, qs: seq<nat>)
    requires |ps| <= |qs| && Product(ps) <= Product(qs)
    ensures Budget(ps) <= Budget(qs)
  {
    Monotone(|ps| + 1, Product(ps), |qs| + 1, Product(qs));
    Monotone(|ps| + 1, Limit(ps), |qs| + 1, Limit(qs));
  }

  lemma Monotone(a: nat, b: nat, c: nat, d: nat)
    requires a <= c && b <= d
    ensures a * b <= c * d
  {
    assert c * d == a * b + a * (d - b) + (c - a) * d;
  }

  lemma ChannelIsShort(s: State, j: nat)
    requires Inv(s) && j <= |s.filters|
    ensures |s.sent[j]| <= s.next
  {
    StreamIsPrefix(s, j);
    SurvivorsFew(s.printed[..j], s.next);
  }

  lemma RunIsTotal(rounds: nat, run: seq<nat>)
    requires Exec(rounds, run).Some?
    ensures var s := Exec(rounds, run).value; |run| <= |s.sent| * s.next
  {
    ReachableInv(rounds, run);
    var s := Exec(rounds, run).value;
    TotalIsLength(rounds, run);
    forall j | 0 <= j < |s.sent| ensures |s.sent[j]| <= s.next { ChannelIsShort(s, j); }
    TotalBound(s.sent, s.next);
  }

  lemma RunIsShort(rounds: nat, run: seq<nat>)
    requires Exec(rounds, run).Some?
    ensures |run| <= Budget(Exec(rounds, run).value.printed)
  {
    var s := Exec(rounds, run).value;
    ReachableInv(rounds, run);
    RunIsTotal(rounds, run);
    GenerateIsHeldBack(s);
    Monotone(|s.sent|, s.next, |s.sent|, Limit(s.printed));
  }

  lemma {:induction false} ProductPrefix(ps: seq<nat>, qs: seq<nat>)
    requires ps <= qs && forall k :: 0 <= k < |qs| ==> qs[k] >= 2
    ensures Product(ps) <= Product(qs)
    decreases |qs|
  {
    if |ps| == |qs| {
      assert ps == qs;
    } else {
      var front := qs[..|qs| - 1];
      ProductPrefix(ps, front);
      ProductPositive(front);
      AtLeast(Product(front), qs[|qs| - 1]);
    }
  }

  lemma {:induction false} PrintedBound(rounds: nat, run: seq<nat>)
    requires Exec(rounds, run).Some?
    ensures |Exec(rounds, run).value.printed| <= rounds
  {
    if run != [] { PrintedBound(rounds, run[..|run| - 1]); }
  }

  /**
   * The program is correct whatever the scheduler does, fair or not: no schedule
   * takes more steps than a bound fixed by the primes asked for, and one that
   * cannot be continued has printed exactly those primes.
   */
  lemma EveryScheduleFinishes(ps: seq<nat>, run: seq<nat>)
    requires FirstPrimes(ps) && Exec(|ps|, run).Some?
    ensures |run| <= Budget(ps)
    ensures var s := Exec(|ps|, run).value;
            s.printed <= ps && ((forall j :: !Enabled(s, |ps|, j)) <==> s.printed == ps)
  {
    var s := Exec(|ps|, run).value;
    KthIsKthPrime(|ps|, run);
    PrintedBound(|ps|, run);
    FirstPrimesUnique(s.printed, ps);
    assert forall k :: 0 <= k < |ps| ==> IsPrime(ps[k]);
    RunIsShort(|ps|, run);
    ProductPrefix(s.printed, ps);
    BudgetGrows(s.printed, ps);
    if |s.printed| < |ps| { NoDeadlock(|ps|, run); }
  }
}
