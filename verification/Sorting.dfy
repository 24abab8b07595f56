/** Byte strings in the order of sort.Strings, and sorting them. */
module Sorting {
  import opened Wrappers
  import opened Text

  /** a <= b in the byte-wise order. */
  predicate Leq(a: Bytes, b: Bytes)
  {
    a == [] || (b != [] && (a[0] < b[0] || (a[0] == b[0] && Leq(a[1..], b[1..]))))
  }

  /** The first byte in which they differ is smaller in a. */
  predicate SmallerAt(a: Bytes, b: Bytes, k: nat) { k < |a| && k < |b| && a[..k] == b[..k] && a[k] < b[k] }

  /** The order of sort.Strings: a beginning comes first, and otherwise the first difference decides. */
  lemma {:induction false} LeqMeans(a: Bytes, b: Bytes)
    ensures Leq(a, b) <==> a <= b || exists k: nat :: SmallerAt(a, b, k)
  {
    if a == [] || b == [] {
    } else if a[0] != b[0] {
      if a[0] < b[0] { assert SmallerAt(a, b, 0); }
    } else {
      LeqMeans(a[1..], b[1..]);
      assert a == [a[0]] + a[1..] && b == [b[0]] + b[1..];
      forall k: nat ensures SmallerAt(a[1..], b[1..], k) <==> SmallerAt(a, b, k + 1) { SmallerNext(a, b, k); }
      if k: nat :| SmallerAt(a, b, k) { assert SmallerAt(a[1..], b[1..], k - 1); }
    }
  }

  lemma SmallerNext(a: Bytes, b: Bytes, k: nat)
    requires a != [] && b != [] && a[0] == b[0]
    ensures SmallerAt(a[1..], b[1..], k) <==> SmallerAt(a, b, k + 1)
  {
    if k < |a[1..]| && k < |b[1..]| {
      assert a[..k + 1] == [a[0]] + a[1..][..k] && b[..k + 1] == [b[0]] + b[1..][..k];
      assert a[1..][..k] == a[..k + 1][1..] && b[1..][..k] == b[..k + 1][1..];
    }
  }

  lemma {:induction false} LeqTotal(a: Bytes, b: Bytes)
    ensures Leq(a, b) || Leq(b, a)
    ensures Leq(a, b) && Leq(b, a) ==> a == b
  {
    if a != [] && b != [] {
      LeqTotal(a[1..], b[1..]);
      assert a == [a[0]] + a[1..] && b == [b[0]] + b[1..];
    }
  }

  lemma {:induction false} LeqTrans(a: Bytes, b: Bytes, c: Bytes)
    requires Leq(a, b) && Leq(b, c)
    ensures Leq(a, c)
  {
    if a != [] && b != [] && c != [] && a[0] == b[0] == c[0] { LeqTrans(a[1..], b[1..], c[1..]); }
  }

  predicate Sorted(s: seq<Bytes>) { forall i, j :: 0 <= i < j < |s| ==> Leq(s[i], s[j]) }

  /** keys is the strings of s, each once, in order. */
  ghost predicate Lists(keys: seq<Bytes>, s: set<Bytes>)
  {
    Sorted(keys) && NoRepeats(keys) && forall k :: k in keys <==> k in s
  }

  /** The keys of a map in sorted order: what collecting them and calling sort.Strings gives. */
  method SortedKeys<V>(m: map<Bytes, V>) returns (keys: seq<Bytes>)
    ensures keys == Ordered(m.Keys)
    ensures Lists(keys, m.Keys)
  {
    keys := [];
    var rest := m.Keys;
    while rest != {}
      invariant rest <= m.Keys && Lists(keys, m.Keys - rest)
      decreases rest
    {
      var k :| k in rest;
      rest := rest - {k};
      var i := Place(keys, k);
      InsertSorted(keys, i, k);
      keys := keys[..i] + [k] + keys[i..];
    }
    ListsUnique(keys, Ordered(m.Keys), m.Keys);
  }

  /** Where k belongs in a sorted list without it. */
  method Place(keys: seq<Bytes>, k: Bytes) returns (i: nat)
    ensures i <= |keys| && forall j :: 0 <= j < i ==> Leq(keys[j], k)
    ensures i < |keys| ==> !Leq(keys[i], k)
  {
    i := 0;
    while i < |keys| && Leq(keys[i], k)
      invariant i <= |keys| && forall j :: 0 <= j < i ==> Leq(keys[j], k)
    {
      i := i + 1;
    }
  }

  /** The strings of a set in sorted order, whatever order they are collected in. */
  ghost function Ordered(s: set<Bytes>): (keys: seq<Bytes>)
    ensures Lists(keys, s)
  {
    if s == {} then []
    else
      var k := Least(s);
      var rest := Ordered(s - {k});
      assert forall x :: x in [k] + rest <==> x == k || x in rest;
      [k] + rest
  }

  ghost function Least(s: set<Bytes>): (k: Bytes)
    requires s != {}
    ensures k in s && forall x :: x in s ==> Leq(k, x)
  {
    var a :| a in s;
    LeqTotal(a, a);
    if s == {a} then a
    else
      assert s - {a} != {};
      var b := Least(s - {a});
      LeastOfBoth(s, a, b);
      if Leq(a, b) then a else b
  }

  lemma LeastOfBoth(s: set<Bytes>, a: Bytes, b: Bytes)
    requires a in s && b in s && forall x :: x in s - {a} ==> Leq(b, x)
    ensures var k := if Leq(a, b) then a else b; forall x :: x in s ==> Leq(k, x)
  {
    LeqTotal(a, b);
    LeqTotal(a, a);
    forall x | x in s && x != a && Leq(a, b) ensures Leq(a, x) { LeqTrans(a, b, x); }
  }

  /** A set of strings has one sorted listing. */
  lemma {:induction false} ListsUnique(a: seq<Bytes>, b: seq<Bytes>, s: set<Bytes>)
    requires Lists(a, s) && Lists(b, s)
    ensures a == b
  {
    if a == [] || b == [] {
      NothingListed(a, s);
      NothingListed(b, s);
    } else {
      FirstIsLeast(a, b, s);
      FirstIsLeast(b, a, s);
      LeqTotal(a[0], b[0]);
      ListsTail(a, s);
      ListsTail(b, s);
      ListsUnique(a[1..], b[1..], s - {a[0]});
      assert a == [a[0]] + a[1..] && b == [b[0]] + b[1..];
    }
  }

  lemma NothingListed(a: seq<Bytes>, s: set<Bytes>)
    requires Lists(a, s)
    ensures a == [] <==> s == {}
  {
    if a != [] { assert a[0] in s; }
  }

  lemma FirstIsLeast(a: seq<Bytes>, b: seq<Bytes>, s: set<Bytes>)
    requires Lists(a, s) && Lists(b, s) && a != [] && b != []
    ensures Leq(a[0], b[0])
  {
    assert b[0] in s;
    var i :| 0 <= i < |a| && a[i] == b[0];
    LeqTotal(a[0], a[0]);
  }

  lemma ListsTail(a: seq<Bytes>, s: set<Bytes>)
    requires Lists(a, s) && a != []
    ensures Lists(a[1..], s - {a[0]})
  {
    assert a == [a[0]] + a[1..];
  }

  lemma InsertSorted(keys: seq<Bytes>, i: nat, k: Bytes)
    requires Sorted(keys) && NoRepeats(keys) && k !in keys && i <= |keys|
    requires forall j :: 0 <= j < i ==> Leq(keys[j], k)
    requires i < |keys| ==> !Leq(keys[i], k)
    ensures var r := keys[..i] + [k] + keys[i..];
            Sorted(r) && NoRepeats(r) && forall x :: x in r <==> x in keys || x == k
  {
    var r := keys[..i] + [k] + keys[i..];
    SortedAround(keys, i, k, r);
    forall x ensures x in r <==> x in keys || x == k {
      if x in keys {
        var j :| 0 <= j < |keys| && keys[j] == x;
        assert r[if j < i then j else j + 1] == x;
      }
      assert r[i] == k;
    }
  }

  lemma SortedAround(keys: seq<Bytes>, i: nat, k: Bytes, r: seq<Bytes>)
    requires Sorted(keys) && NoRepeats(keys) && k !in keys && i <= |keys|
    requires forall j :: 0 <= j < i ==> Leq(keys[j], k)
    requires i < |keys| ==> !Leq(keys[i], k)
    requires |r| == |keys| + 1
    requires forall j {:trigger r[j]} :: 0 <= j < |r| ==> r[j] == if j < i then keys[j] else if j == i then k else keys[j - 1]
    ensures Sorted(r) && NoRepeats(r)
  {
    forall j | i <= j < |keys| ensures Leq(k, keys[j]) {
      LeqTotal(keys[i], k);
      if i < j { LeqTrans(k, keys[i], keys[j]); }
    }
    forall a, b | 0 <= a < b < |r| ensures Leq(r[a], r[b]) && r[a] != r[b] {
      if a != i && b != i {
        var x, y := if a < i then a else a - 1, if b < i then b else b - 1;
        assert r[a] == keys[x] && r[b] == keys[y];
      }
    }
  }
}
