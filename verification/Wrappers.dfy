/** Shapes that several components share. */
module Wrappers {

  datatype Option<T> = None | Some(value: T)

  predicate NoRepeats<T(==)>(s: seq<T>) { forall i, j :: 0 <= i < j < |s| ==> s[i] != s[j] }

  /** n times d, by addition. */
  function Times(n: nat, d: int): (r: int)
    ensures d >= 0 ==> r >= 0
  {
    if n == 0 then 0 else Times(n - 1, d) + d
  }

  lemma {:induction false} TimesIsProduct(n: nat, d: int)
    ensures Times(n, d) == n * d
  {
    if n > 0 {
      TimesIsProduct(n - 1, d);
      assert n * d == (n - 1) * d + d;
    }
  }

  /** The sum of the work of all calls. */
  function Total<T>(calls: seq<T>, work: T -> nat): nat
  {
    if calls == [] then 0 else work(calls[0]) + Total(calls[1..], work)
  }

  lemma {:induction false} TotalUpdate<T>(calls: seq<T>, work: T -> nat, i: nat, x: T)
    requires i < |calls|
    ensures Total(calls[i := x], work) == Total(calls, work) - work(calls[i]) + work(x)
  {
    if i == 0 {
      assert calls[i := x][1..] == calls[1..];
    } else {
      TotalUpdate(calls[1..], work, i - 1, x);
      assert calls[i := x][1..] == calls[1..][i - 1 := x];
    }
  }

  lemma {:induction false} TotalBound<T>(calls: seq<T>, work: T -> nat, most: nat)
    requires forall x :: work(x) <= most
    ensures Total(calls, work) <= most * |calls|
  {
    if calls != [] {
      TotalBound(calls[1..], work, most);
      assert most * |calls| == most + most * |calls[1..]|;
    }
  }
}
