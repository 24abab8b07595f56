/**
 * Count, Split, Join and Replace of src/bytes/bytes.go, with their precomputed
 * output buffers. Index finds the first occurrence.
 */
module Slices {
  import opened Wrappers
  import opened Text
  import opened Buffers

  // ---------- what the functions mean ----------

  predicate Found(s: Bytes, sep: Bytes) { Index(s, sep) != -1 }

  /** What is before the first occurrence of sep. */
  function Before(s: Bytes, sep: Bytes): Bytes
    requires Found(s, sep)
  {
    s[..Index(s, sep)]
  }

  /** What is after it. */
  function After(s: Bytes, sep: Bytes): (r: Bytes)
    requires Found(s, sep)
    ensures |r| == |s| - |sep| - |Before(s, sep)|
  {
    s[Index(s, sep) + |sep|..]
  }

  lemma AroundFirst(s: Bytes, sep: Bytes)
    requires Found(s, sep)
    ensures Before(s, sep) + (sep + After(s, sep)) == s
  {
    ThreeParts(s, Index(s, sep), |sep|);
  }

  lemma ThreeParts(s: Bytes, i: nat, n: nat)
    requires i + n <= |s|
    ensures s[..i] + (s[i..i + n] + s[i + n..]) == s
  {
  }

  /** The occurrences of sep that do not overlap, from the left. */
  function Occurrences(s: Bytes, sep: Bytes): nat
    requires sep != []
    decreases |s|
  {
    if !Found(s, sep) then 0 else 1 + Occurrences(After(s, sep), sep)
  }

  /** A piece with the first keep bytes of the separator after it. */
  function Piece(s: Bytes, sep: Bytes, keep: nat): Bytes
    requires Found(s, sep) && keep <= |sep|
  {
    Before(s, sep) + sep[..keep]
  }

  /** At most n pieces of s, cut at the first occurrences of sep. */
  function Pieces(s: Bytes, sep: Bytes, keep: nat, n: nat): (r: seq<Bytes>)
    requires sep != [] && keep <= |sep| && n >= 1
    ensures 1 <= |r| <= n
    decreases n
  {
    if n == 1 || !Found(s, sep) then [s] else [Piece(s, sep, keep)] + Pieces(After(s, sep), sep, keep, n - 1)
  }

  /** The pieces with sep between them. */
  function Joined(parts: seq<Bytes>, sep: Bytes): Bytes
  {
    if parts == [] then []
    else if |parts| == 1 then parts[0]
    else parts[0] + (sep + Joined(parts[1..], sep))
  }

  /** The first k occurrences of old replaced. */
  function Replaced(s: Bytes, old_: Bytes, new_: Bytes, k: nat): Bytes
    requires old_ != []
    decreases k
  {
    if k == 0 || !Found(s, old_) then s else Before(s, old_) + (new_ + Replaced(After(s, old_), old_, new_, k - 1))
  }

  // ---------- and how they fit together ----------

  lemma JoinedCons(first: Bytes, parts: seq<Bytes>, sep: Bytes)
    requires parts != []
    ensures Joined([first] + parts, sep) == first + (sep + Joined(parts, sep))
  {
    assert ([first] + parts)[1..] == parts;
  }

  lemma NothingKept(s: Bytes, sep: Bytes)
    requires Found(s, sep)
    ensures Piece(s, sep, 0) == Before(s, sep)
  {
  }

  /** Cutting and joining with something else is replacing. */
  lemma {:induction false} JoinOfPieces(s: Bytes, old_: Bytes, new_: Bytes, k: nat)
    requires old_ != []
    ensures Joined(Pieces(s, old_, 0, k + 1), new_) == Replaced(s, old_, new_, k)
    decreases k
  {
    if k > 0 && Found(s, old_) {
      var rest := After(s, old_);
      JoinOfPieces(rest, old_, new_, k - 1);
      NothingKept(s, old_);
      JoinedCons(Before(s, old_), Pieces(rest, old_, 0, k), new_);
    }
  }

  lemma ReplacedNext(s: Bytes, old_: Bytes, new_: Bytes, k: nat, rest: Bytes, more: Bytes)
    requires old_ != [] && k > 0 && Found(s, old_) && rest == After(s, old_) && more == Replaced(rest, old_, new_, k - 1)
    ensures Replaced(s, old_, new_, k) == Before(s, old_) + (new_ + more)
  {
  }

  lemma OccurrencesNext(s: Bytes, sep: Bytes)
    requires sep != [] && Found(s, sep)
    ensures Occurrences(s, sep) == 1 + Occurrences(After(s, sep), sep)
  {
  }

  /** The same bytes, one by one. */
  predicate SameBytes(a: Bytes, b: Bytes) { |a| == |b| && forall i :: 0 <= i < |a| ==> a[i] == b[i] }

  /** Replacing a string by itself changes nothing. */
  lemma {:induction false} ReplaceBySame(s: Bytes, sep: Bytes, k: nat)
    requires sep != []
    ensures SameBytes(Replaced(s, sep, sep, k), s)
    decreases k
  {
    if k > 0 && Found(s, sep) {
      var rest := After(s, sep);
      ReplaceBySame(rest, sep, k - 1);
      SameNext(s, sep, k, rest, Replaced(rest, sep, sep, k - 1));
    }
  }

  lemma SameNext(s: Bytes, sep: Bytes, k: nat, rest: Bytes, more: Bytes)
    requires sep != [] && k > 0 && Found(s, sep) && rest == After(s, sep)
    requires more == Replaced(rest, sep, sep, k - 1) && SameBytes(more, rest)
    ensures SameBytes(Replaced(s, sep, sep, k), s)
  {
    AroundFirst(s, sep);
    ReplacedNext(s, sep, sep, k, rest, more);
    assert more == rest;
  }

  /** More replacements than occurrences make no difference. */
  lemma {:induction false} ReplaceAllThereAre(s: Bytes, old_: Bytes, new_: Bytes, k: nat)
    requires old_ != [] && k >= Occurrences(s, old_)
    ensures Replaced(s, old_, new_, k) == Replaced(s, old_, new_, Occurrences(s, old_))
    decreases k
  {
    if k > 0 && Found(s, old_) {
      ReplaceAllThereAre(After(s, old_), old_, new_, k - 1);
      OccurrencesNext(s, old_);
      var rest := After(s, old_);
      var more := Replaced(rest, old_, new_, k - 1);
      ReplacedNext(s, old_, new_, k, rest, more);
      ReplacedNext(s, old_, new_, Occurrences(s, old_), rest, more);
    }
  }

  /** The size computed in advance. */
  lemma {:induction false} ReplacedLength(s: Bytes, old_: Bytes, new_: Bytes, k: nat)
    requires old_ != [] && k <= Occurrences(s, old_)
    ensures |Replaced(s, old_, new_, k)| == |s| + Times(k, |new_| - |old_|)
    decreases k
  {
    if k > 0 { ReplacedLength(After(s, old_), old_, new_, k - 1); }
  }

  // ---------- the methods ----------

  method Count(s: Bytes, sep: Bytes) returns (n: nat)
    ensures n == if sep == [] then |Runes(s)| + 1 else Occurrences(s, sep)
  {
    if sep == [] { return |Runes(s)| + 1; }
    n := 0;
    var rest := s;
    while true
      invariant n + Occurrences(rest, sep) == Occurrences(s, sep)
      decreases |rest|
    {
      var i := Index(rest, sep);
      if i == -1 { return; }
      n := n + 1;
      rest := After(rest, sep);
    }
  }

  /** explode: s cut after each character, into at most n pieces; all of them for n <= 0. */
  function Exploded(s: Bytes, n: nat): seq<Bytes>
    requires n >= 1
    decreases |s|
  {
    if s == [] then [] else if n == 1 then [s] else [s[..RuneLen(s)]] + Exploded(s[RuneLen(s)..], n - 1)
  }

  lemma ExplodeStep(a: seq<Bytes>, rest: Bytes, size: nat, n: nat)
    requires rest != [] && size == RuneLen(rest) && n > 1
    ensures a + Exploded(rest, n) == a + [rest[..size]] + Exploded(rest[size..], n - 1)
  {
    Assoc(a, [rest[..size]], Exploded(rest[size..], n - 1));
  }

  method Explode(s: Bytes, n: int) returns (a: seq<Bytes>)
    ensures a == if n > 0 then Exploded(s, n) else if s == [] then [] else Exploded(s, |s|)
  {
    var limit := if n <= 0 then |s| else n;
    if limit == 0 { return []; }
    a := ExplodeLoop(s, limit);
  }

  method ExplodeLoop(s: Bytes, limit: nat) returns (a: seq<Bytes>)
    requires limit > 0
    ensures a == Exploded(s, limit)
  {
    var rest := s;
    ghost var all := Exploded(s, limit);
    a := [];
    assert [] + all == all;
    while |rest| > 0
      invariant |a| < limit && a + Exploded(rest, limit - |a|) == all
      decreases |rest|
    {
      if |a| + 1 >= limit {
        assert Exploded(rest, 1) == [rest];
        a := a + [rest];
        return;
      }
      var size := RuneLen(rest);
      ExplodeStep(a, rest, size, limit - |a|);
      a := a + [rest[..size]];
      rest := rest[size..];
    }
    assert a + [] == a;
  }

  /** genSplit */
  method GenSplit(s: Bytes, sep: Bytes, sepSave: nat, n0: int) returns (r: seq<Bytes>)
    requires sepSave <= |sep|
    ensures n0 == 0 ==> r == []
    ensures n0 > 0 ==> r == if sep == [] then Exploded(s, n0) else Pieces(s, sep, sepSave, n0)
    ensures n0 < 0 ==> r == if sep == [] then Runes(s) else Pieces(s, sep, sepSave, Occurrences(s, sep) + 1)
  {
    if n0 == 0 { return []; }
    if |sep| == 0 {
      if s != [] { ExplodedAll(s, |s|); }
      r := Explode(s, n0);
      return;
    }
    var n := n0;
    if n < 0 {
      var c := Count(s, sep);
      n := c + 1;
    }
    r := FillSplit(s, sep, sepSave, n);
  }

  /** The body of genSplit's loop: the next piece, and what comes after its separator. */
  method CutOne(s: Bytes, sep: Bytes, sepSave: nat) returns (found: bool, piece: Bytes, rest: Bytes)
    requires sep != [] && sepSave <= |sep|
    ensures found == Found(s, sep)
    ensures found ==> piece == Piece(s, sep, sepSave) && rest == After(s, sep)
  {
    var m := Index(s, sep);
    if m < 0 { return false, [], s; }
    PieceIs(s, sep, sepSave);
    return true, s[..m + sepSave], s[m + |sep|..];
  }

  lemma SplitStep(done: seq<Bytes>, s: Bytes, sep: Bytes, keep: nat, k: nat)
    requires sep != [] && keep <= |sep| && k >= 2 && Found(s, sep)
    ensures done + Pieces(s, sep, keep, k) == done + [Piece(s, sep, keep)] + Pieces(After(s, sep), sep, keep, k - 1)
  {
    Assoc(done, [Piece(s, sep, keep)], Pieces(After(s, sep), sep, keep, k - 1));
  }

  /** The loop that fills genSplit's n slots, the last of them with what is left. */
  method FillSplit(s: Bytes, sep: Bytes, sepSave: nat, total: nat) returns (r: seq<Bytes>)
    requires sep != [] && sepSave <= |sep| && total >= 1
    ensures r == Pieces(s, sep, sepSave, total)
  {
    var a := new Bytes[total](i => []);
    ghost var all := Pieces(s, sep, sepSave, total);
    assert a[..0] + all == all;
    var i, rest := FillSlots(s, sep, sepSave, a);
    ghost var done := a[..i];
    a[i] := rest;
    assert a[..i + 1] == done + [rest];
    return a[..i + 1];
  }

  /** All slots but the last. */
  method FillSlots(s: Bytes, sep: Bytes, sepSave: nat, a: array<Bytes>) returns (i: nat, rest: Bytes)
    requires sep != [] && sepSave <= |sep| && a.Length >= 1
    modifies a
    ensures i < a.Length && a[..i] + [rest] == Pieces(s, sep, sepSave, a.Length)
  {
    var total := a.Length;
    ghost var all := Pieces(s, sep, sepSave, total);
    i, rest := 0, s;
    ghost var done: seq<Bytes> := [];
    assert done + all == all;
    while i < total - 1
      invariant i <= total - 1 && a[..i] == done
      invariant done + Pieces(rest, sep, sepSave, total - i) == all
    {
      var found, piece, after := CutOne(rest, sep, sepSave);
      if !found { return; }
      SplitStep(done, rest, sep, sepSave, total - i);
      done := done + [piece];
      a[i] := piece;
      rest := after;
      i := i + 1;
    }
  }

  lemma PieceIs(s: Bytes, sep: Bytes, keep: nat)
    requires Found(s, sep) && keep <= |sep|
    ensures Index(s, sep) + keep <= |s| && s[..Index(s, sep) + keep] == Piece(s, sep, keep)
  {
    UpToMatch(s, sep, Index(s, sep), keep);
  }

  lemma UpToMatch(s: Bytes, sep: Bytes, i: nat, keep: nat)
    requires i + |sep| <= |s| && s[i..i + |sep|] == sep && keep <= |sep|
    ensures s[..i + keep] == s[..i] + sep[..keep]
  {
    var l, r := s[..i + keep], s[..i] + sep[..keep];
    forall j | 0 <= j < |l| ensures l[j] == r[j] {
      if j >= i { assert s[i..i + |sep|][j - i] == s[j]; }
    }
  }

  method SplitN(s: Bytes, sep: Bytes, n: int) returns (r: seq<Bytes>)
    ensures n == 0 ==> r == []
    ensures n > 0 ==> r == if sep == [] then Exploded(s, n) else Pieces(s, sep, 0, n)
    ensures n < 0 ==> r == if sep == [] then Runes(s) else Pieces(s, sep, 0, Occurrences(s, sep) + 1)
  {
    r := GenSplit(s, sep, 0, n);
  }

  /** The size that Join computes. */
  function JoinLen(parts: seq<Bytes>, sepLen: nat): nat
  {
    if parts == [] then 0 else |parts[0]| + (if |parts| == 1 then 0 else sepLen) + JoinLen(parts[1..], sepLen)
  }

  lemma {:induction false} JoinedLength(parts: seq<Bytes>, sep: Bytes)
    ensures |Joined(parts, sep)| == JoinLen(parts, |sep|)
  {
    if |parts| > 1 { JoinedLength(parts[1..], sep); } else if |parts| == 1 { assert JoinLen(parts[1..], |sep|) == 0; }
  }

  function TotalLen(parts: seq<Bytes>): nat { if parts == [] then 0 else TotalLen(parts[..|parts| - 1]) + |parts[|parts| - 1]| }

  lemma TotalLenNext(parts: seq<Bytes>, i: nat)
    requires i < |parts|
    ensures TotalLen(parts[..i + 1]) == TotalLen(parts[..i]) + |parts[i]|
  {
    assert parts[..i + 1][..i] == parts[..i];
  }

  lemma {:induction false} TotalLenFront(parts: seq<Bytes>)
    requires parts != []
    ensures TotalLen(parts) == |parts[0]| + TotalLen(parts[1..])
  {
    if |parts| == 1 {
      assert parts[..0] == [] && parts[1..] == [];
    } else {
      var front := parts[..|parts| - 1];
      TotalLenFront(front);
      assert front[1..] == parts[1..][..|parts| - 2];
    }
  }

  lemma {:induction false} JoinLenIs(parts: seq<Bytes>, sepLen: nat)
    requires parts != []
    ensures JoinLen(parts, sepLen) == TotalLen(parts) + Times(|parts| - 1, sepLen)
  {
    TotalLenFront(parts);
    if |parts| > 1 { JoinLenIs(parts[1..], sepLen); } else { assert parts[1..] == []; }
  }

  /** The pieces that are left, each with a separator before it. */
  function Rest(parts: seq<Bytes>, sep: Bytes): (r: Bytes)
  {
    if parts == [] then [] else sep + (parts[0] + Rest(parts[1..], sep))
  }

  lemma {:induction false} JoinedIsRest(parts: seq<Bytes>, sep: Bytes)
    requires parts != []
    ensures Joined(parts, sep) == parts[0] + Rest(parts[1..], sep)
  {
    if |parts| > 1 {
      JoinedIsRest(parts[1..], sep);
    } else {
      assert parts[1..] == [] && parts[0] + [] == parts[0];
    }
  }

  /** The size of the output: the separators and then the pieces. */
  method JoinSize(parts: seq<Bytes>, sep: Bytes) returns (n: nat)
    requires parts != []
    ensures n == |Joined(parts, sep)|
  {
    JoinSizeIs(parts, sep);
    n := |sep| * (|parts| - 1);
    ghost var seps := n;
    assert parts[..0] == [];
    for i := 0 to |parts|
      invariant n == seps + TotalLen(parts[..i])
    {
      TotalLenNext(parts, i);
      n := n + |parts[i]|;
    }
    assert parts[..|parts|] == parts;
  }

  lemma JoinSizeIs(parts: seq<Bytes>, sep: Bytes)
    requires parts != []
    ensures |sep| * (|parts| - 1) + TotalLen(parts) == |Joined(parts, sep)|
  {
    JoinLenIs(parts, |sep|);
    JoinedLength(parts, sep);
    TimesCommutes(|parts| - 1, |sep|);
  }

  lemma TimesCommutes(n: nat, d: nat)
    ensures Times(n, d) == d * n
  {
    TimesIsProduct(n, d);
  }

  method Join(parts: seq<Bytes>, sep: Bytes) returns (r: Bytes)
    ensures r == Joined(parts, sep)
  {
    if |parts| == 0 { return []; }
    if |parts| == 1 { return parts[0]; }
    var n := JoinSize(parts, sep);
    var b := new Byte[n];
    JoinedIsRest(parts, sep);
    var bp: nat := Copy(b, 0, parts[0]);
    assert b[..bp] == parts[0];
    for i := 1 to |parts|
      invariant bp <= b.Length && b[..bp] + Rest(parts[i..], sep) == Joined(parts, sep)
    {
      ghost var done, more := b[..bp], Rest(parts[i + 1..], sep);
      RestStep(done, parts, i, sep);
      bp := Copy(b, bp, sep);
      bp := Copy(b, bp, parts[i]);
    }
    assert parts[|parts|..] == [] && b[..bp] + [] == b[..bp] && b[..bp] == b[..];
    return b[..];
  }

  lemma RestStep(done: Bytes, parts: seq<Bytes>, i: nat, sep: Bytes)
    requires i < |parts|
    ensures done + Rest(parts[i..], sep) == done + sep + parts[i] + Rest(parts[i + 1..], sep)
  {
    assert parts[i..][1..] == parts[i + 1..];
    var more := Rest(parts[i + 1..], sep);
    Assoc(done, sep, parts[i] + more);
    Assoc(done + sep, parts[i], more);
  }

  // ---------- replacing ----------

  /** The characters of s, with new_ after each of the first k. */
  function Interleaved(s: Bytes, new_: Bytes, k: nat): Bytes
    requires k <= |Runes(s)|
    decreases k
  {
    if k == 0 then s else s[..RuneLen(s)] + (new_ + Interleaved(s[RuneLen(s)..], new_, k - 1))
  }

  /** An empty old matches at the beginning and after each character. */
  function ReplacedEmpty(s: Bytes, new_: Bytes, k: nat): Bytes
    requires k <= |Runes(s)| + 1
  {
    if k == 0 then s else new_ + Interleaved(s, new_, k - 1)
  }

  /** Each of the strings, and more after each. */
  function Spread(parts: seq<Bytes>, more: Bytes): Bytes
  {
    if parts == [] then [] else parts[0] + (more + Spread(parts[1..], more))
  }

  /** So it is the first k characters, each with new_ behind it, and then the others. */
  lemma {:induction false} InterleavedIs(s: Bytes, new_: Bytes, k: nat)
    requires k <= |Runes(s)|
    ensures Interleaved(s, new_, k) == Spread(Runes(s)[..k], new_) + Joined(Runes(s)[k..], [])
    decreases |s|
  {
    var all := Runes(s);
    if k == 0 {
      assert all[..0] == [] && all[0..] == all;
      if s != [] { ExplodedAll(s, |s|); JoinOfExploded(s, |s|); }
    } else {
      var c, rest := s[..RuneLen(s)], s[RuneLen(s)..];
      InterleavedIs(rest, new_, k - 1);
      assert all[..k][1..] == Runes(rest)[..k - 1] && all[..k][0] == c && all[k..] == Runes(rest)[k - 1..];
      SpreadStep(c, new_, Spread(Runes(rest)[..k - 1], new_), Joined(all[k..], []));
    }
  }

  lemma SpreadStep(c: Bytes, new_: Bytes, a: Bytes, b: Bytes)
    ensures c + (new_ + (a + b)) == c + (new_ + a) + b
  {
    Assoc(new_, a, b);
    Assoc(c, new_ + a, b);
  }

  lemma {:induction false} InterleavedLength(s: Bytes, new_: Bytes, k: nat)
    requires k <= |Runes(s)|
    ensures |Interleaved(s, new_, k)| == |s| + Times(k, |new_|)
    decreases k
  {
    if k > 0 { InterleavedLength(s[RuneLen(s)..], new_, k - 1); }
  }

  lemma InterleaveStep(done: Bytes, rest: Bytes, new_: Bytes, k: nat)
    requires 0 < k <= |Runes(rest)|
    ensures rest != [] && k - 1 <= |Runes(rest[RuneLen(rest)..])|
    ensures done + Interleaved(rest, new_, k) ==
            done + rest[..RuneLen(rest)] + new_ + Interleaved(rest[RuneLen(rest)..], new_, k - 1)
  {
    var c, more := rest[..RuneLen(rest)], Interleaved(rest[RuneLen(rest)..], new_, k - 1);
    Assoc(done, c, new_ + more);
    Assoc(done + c, new_, more);
  }

  /** The end of the character at start. */
  method NextRune(s: Bytes, start: nat, ghost rest: Bytes) returns (j: nat)
    requires start <= |s| && rest == s[start..] && rest != []
    ensures start <= j <= |s| && s[start..j] == rest[..RuneLen(rest)] && s[j..] == rest[RuneLen(rest)..]
  {
    j := start + RuneLen(s[start..]);
  }

  /** copy(t[w:], s[start:j]) and then copy(t[w:], new_) */
  method CopyBoth(t: array<Byte>, w: nat, piece: Bytes, new_: Bytes) returns (end: nat)
    requires w + |piece| + |new_| <= t.Length
    modifies t
    ensures end == w + |piece| + |new_| && t[..end] == old(t[..w]) + piece + new_
  {
    end := Copy(t, w, piece);
    end := Copy(t, end, new_);
  }

  /** Replace for an empty old. */
  method ReplaceEmpty(s: Bytes, new_: Bytes, k: nat) returns (r: Bytes)
    requires 0 < k <= |Runes(s)| + 1
    ensures r == ReplacedEmpty(s, new_, k)
  {
    InterleavedLength(s, new_, k - 1);
    TimesIsProduct(k - 1, |new_|);
    assert k * |new_| == (k - 1) * |new_| + |new_|;
    var t := new Byte[|s| + k * |new_|];
    assert t.Length == |ReplacedEmpty(s, new_, k)|;
    r := ReplaceEmptyLoop(s, new_, k, t);
  }

  method ReplaceEmptyLoop(s: Bytes, new_: Bytes, k: nat, t: array<Byte>) returns (r: Bytes)
    requires 0 < k <= |Runes(s)| + 1 && t.Length == |ReplacedEmpty(s, new_, k)|
    modifies t
    ensures r == ReplacedEmpty(s, new_, k) == t[..]
  {
    ghost var result, rest := ReplacedEmpty(s, new_, k), s;
    var w: nat, start: nat := 0, 0;
    // the first match is before any character
    w := Copy(t, w, new_);
    assert t[..w] == new_ && s[0..] == s;
    for i := 1 to k
      invariant w <= t.Length == |result| && start <= |s| && rest == s[start..] && k - i <= |Runes(rest)|
      invariant t[..w] + Interleaved(rest, new_, k - i) == result
    {
      InterleaveStep(t[..w], rest, new_, k - i);
      var j := NextRune(s, start, rest);
      w := CopyBoth(t, w, s[start..j], new_);
      start := j;
      rest := rest[RuneLen(rest)..];
    }
    w := Copy(t, w, s[start..]);
    assert w == t.Length && t[..w] == t[..];
    return t[..w];
  }

  /** Replace for an old_ that is not empty, k of whose occurrences are replaced. */
  method FillReplace(s: Bytes, old_: Bytes, new_: Bytes, k: nat) returns (r: Bytes)
    requires old_ != [] && k <= Occurrences(s, old_)
    ensures r == Replaced(s, old_, new_, k)
  {
    ReplacedLength(s, old_, new_, k);
    TimesIsProduct(k, |new_| - |old_|);
    ghost var result := Replaced(s, old_, new_, k);
    var t := new Byte[|s| + k * (|new_| - |old_|)];
    assert t.Length == |result|;
    r := ReplaceLoop(s, old_, new_, k, t);
  }

  /** The replacement that starts at or after start. */
  method NextMatch(s: Bytes, start: nat, old_: Bytes, ghost rest: Bytes) returns (j: nat)
    requires start <= |s| && rest == s[start..] && old_ != [] && Found(rest, old_)
    ensures start <= j && j + |old_| <= |s| && s[start..j] == Before(rest, old_) && s[j + |old_|..] == After(rest, old_)
  {
    var i := Index(s[start..], old_);
    j := start + i;
    assert s[start..][..i] == s[start..j];
    assert s[start..][i + |old_|..] == s[j + |old_|..];
  }

  /** What has been written, and the replacements still to be made in the rest of s, make up the result. */
  ghost predicate Replacing(
    s: Bytes, old_: Bytes, new_: Bytes, k: nat, start: nat, rest: Bytes, done: Bytes, result: Bytes)
    requires old_ != []
  {
    start <= |s| && rest == s[start..] && k <= Occurrences(rest, old_) && done + Replaced(rest, old_, new_, k) == result
  }

  /** The body of Replace's loop: the stretch before the next match, and new_ for the match. */
  method ReplaceOne(
    s: Bytes, old_: Bytes, new_: Bytes, k: nat, t: array<Byte>, w0: nat, start0: nat, ghost rest0: Bytes, ghost result: Bytes)
    returns (w: nat, start: nat, ghost rest: Bytes)
    requires old_ != [] && k > 0 && w0 <= t.Length == |result| && Replacing(s, old_, new_, k, start0, rest0, t[..w0], result)
    modifies t
    ensures w <= t.Length && Replacing(s, old_, new_, k - 1, start, rest, t[..w], result)
  {
    ReplaceStep(t[..w0], rest0, old_, new_, k);
    rest := After(rest0, old_);
    var j := NextMatch(s, start0, old_, rest0);
    start := j + |old_|;
    w := CopyBoth(t, w0, s[start0..j], new_);
  }

  lemma ReplacingStarts(s: Bytes, old_: Bytes, new_: Bytes, k: nat, done: Bytes) returns (result: Bytes, rest: Bytes)
    requires old_ != [] && k <= Occurrences(s, old_) && done == []
    ensures Replacing(s, old_, new_, k, 0, rest, done, result) && result == Replaced(s, old_, new_, k)
  {
    result, rest := Replaced(s, old_, new_, k), s;
    assert s[0..] == s && done + result == result;
  }

  lemma ReplacingEnds(s: Bytes, old_: Bytes, new_: Bytes, start: nat, rest: Bytes, done: Bytes, result: Bytes)
    requires old_ != [] && Replacing(s, old_, new_, 0, start, rest, done, result)
    ensures done + s[start..] == result
  {
  }

  /** The loop that applies the replacements. */
  method ReplaceMatches(s: Bytes, old_: Bytes, new_: Bytes, k: nat, t: array<Byte>) returns (w: nat, start: nat)
    requires old_ != [] && k <= Occurrences(s, old_) && t.Length == |Replaced(s, old_, new_, k)|
    modifies t
    ensures w <= t.Length && start <= |s| && t[..w] + s[start..] == Replaced(s, old_, new_, k)
  {
    w, start := 0, 0;
    ghost var result, rest := ReplacingStarts(s, old_, new_, k, t[..w]);
    for i := 0 to k
      invariant w <= t.Length && Replacing(s, old_, new_, k - i, start, rest, t[..w], result)
    {
      w, start, rest := ReplaceOne(s, old_, new_, k - i, t, w, start, rest, result);
    }
    ReplacingEnds(s, old_, new_, start, rest, t[..w], result);
  }

  /** The replacements and what comes after the last of them, into a buffer that they fill exactly. */
  method ReplaceLoop(s: Bytes, old_: Bytes, new_: Bytes, k: nat, t: array<Byte>) returns (r: Bytes)
    requires old_ != [] && k <= Occurrences(s, old_) && t.Length == |Replaced(s, old_, new_, k)|
    modifies t
    ensures r == Replaced(s, old_, new_, k) == t[..]
  {
    var w, start := ReplaceMatches(s, old_, new_, k, t);
    w := Copy(t, w, s[start..]);
    assert w == t.Length && t[..w] == t[..];
    return t[..w];
  }

  lemma ReplaceStep(done: Bytes, rest: Bytes, old_: Bytes, new_: Bytes, k: nat)
    requires old_ != [] && 0 < k <= Occurrences(rest, old_)
    ensures Found(rest, old_) && k - 1 <= Occurrences(After(rest, old_), old_)
    ensures done + Replaced(rest, old_, new_, k) ==
            done + Before(rest, old_) + new_ + Replaced(After(rest, old_), old_, new_, k - 1)
  {
    var more := Replaced(After(rest, old_), old_, new_, k - 1);
    Assoc(done, Before(rest, old_), new_ + more);
    Assoc(done + Before(rest, old_), new_, more);
  }

  /**
   * Replace. For an old_ that is not empty it is SplitN, or Split for a negative
   * n, and then Join.
   */
  method Replace(s: Bytes, old_: Bytes, new_: Bytes, n: int) returns (r: Bytes)
    ensures old_ != [] && n >= 0 ==> r == Replaced(s, old_, new_, n) == Joined(Pieces(s, old_, 0, n + 1), new_)
    ensures old_ != [] && n < 0 ==> r == Joined(Pieces(s, old_, 0, Occurrences(s, old_) + 1), new_)
    ensures old_ == [] ==>
      r == ReplacedEmpty(s, new_, if n < 0 || |Runes(s)| + 1 < n then |Runes(s)| + 1 else n)
  {
    if old_ != [] {
      if n >= 0 { JoinOfPieces(s, old_, new_, n); }
      JoinOfPieces(s, old_, new_, Occurrences(s, old_));
      if n >= Occurrences(s, old_) { ReplaceAllThereAre(s, old_, new_, n); }
    }
    var m := 0;
    if n != 0 { m := Count(s, old_); }
    if m == 0 { return s; }
    var k := n;
    if n < 0 || m < n { k := m; }
    if old_ == [] {
      r := ReplaceEmpty(s, new_, k);
    } else {
      r := FillReplace(s, old_, new_, k);
    }
  }

  /** Join(Split(s, sep), sep) == s, and so for any number of cuts. */
  lemma {:induction false} JoinOfSplit(s: Bytes, sep: Bytes, cuts: nat)
    requires sep != []
    ensures Joined(Pieces(s, sep, 0, cuts + 1), sep) == s
  {
    JoinOfPieces(s, sep, sep, cuts);
    ReplaceBySame(s, sep, cuts);
    assert Replaced(s, sep, sep, cuts) == s;
  }

  lemma JoinedEmpty(first: Bytes, parts: seq<Bytes>)
    ensures Joined([first] + parts, []) == first + Joined(parts, [])
  {
    if parts == [] { assert first + [] == first; } else { JoinedCons(first, parts, []); }
    assert [] + Joined(parts, []) == Joined(parts, []);
  }

  /** Cutting between characters loses nothing either. */
  lemma {:induction false} JoinOfExploded(s: Bytes, n: nat)
    requires n >= 1
    ensures Joined(Exploded(s, n), []) == s
    decreases |s|
  {
    if s != [] && n > 1 {
      var c, rest := s[..RuneLen(s)], s[RuneLen(s)..];
      JoinOfExploded(rest, n - 1);
      assert c + rest == s;
      JoinedEmpty(c, Exploded(rest, n - 1));
    }
  }

  /** And with the whole separator kept, nor does cutting at separators. */
  lemma {:induction false} JoinOfKept(s: Bytes, sep: Bytes, n: nat)
    requires sep != [] && n >= 1
    ensures Joined(Pieces(s, sep, |sep|, n), []) == s
    decreases n
  {
    if n > 1 && Found(s, sep) {
      var rest := Pieces(After(s, sep), sep, |sep|, n - 1);
      JoinOfKept(After(s, sep), sep, n - 1);
      JoinedEmpty(Piece(s, sep, |sep|), rest);
      AroundFirst(s, sep);
      assert sep[..|sep|] == sep;
      Assoc(Before(s, sep), sep, After(s, sep));
    }
  }

  /** The first pieces are characters, and only the last of n can be more. */
  lemma {:induction false} ExplodedFirst(s: Bytes, n: nat)
    requires 1 <= n <= |Runes(s)|
    ensures |Exploded(s, n)| == n && Exploded(s, n)[..n - 1] == Runes(s)[..n - 1]
    decreases |s|
  {
    if n > 1 {
      var c, rest := s[..RuneLen(s)], s[RuneLen(s)..];
      ExplodedFirst(rest, n - 1);
      assert Exploded(s, n)[..n - 1] == [c] + Exploded(rest, n - 1)[..n - 2];
      assert Runes(s)[..n - 1] == [c] + Runes(rest)[..n - 2];
    }
  }

  /** With room for all of them, the pieces are the characters. */
  lemma {:induction false} ExplodedAll(s: Bytes, n: nat)
    requires n >= 1 && n >= |s|
    ensures Exploded(s, n) == Runes(s)
    decreases |s|
  {
    if s != [] {
      var rest := s[RuneLen(s)..];
      if n == 1 { assert s[..1] == s && rest == []; } else { ExplodedAll(rest, n - 1); }
    }
  }

  lemma PrefixOfPrefix(t: Bytes, s: Bytes, m: nat)
    requires m <= |s| && t <= s[..m]
    ensures t <= s
  {
  }

  /** Before the first occurrence there is none. */
  lemma {:induction false} NoneBeforeFirst(s: Bytes, t: Bytes, m: nat)
    requires t != [] && Found(s, t) && m <= Index(s, t)
    ensures !Found(s[..m], t)
  {
    if m == 0 {
      assert s[..0] == [];
    } else {
      NoneBeforeFirst(s[1..], t, m - 1);
      assert s[..m][1..] == s[1..][..m - 1];
      if t <= s[..m] { PrefixOfPrefix(t, s, m); }
    }
  }

  /** Split leaves no separator in any piece, and cuts at every occurrence. */
  lemma {:induction false} SplitIsComplete(s: Bytes, sep: Bytes)
    requires sep != []
    ensures var parts := Pieces(s, sep, 0, Occurrences(s, sep) + 1);
            |parts| == Occurrences(s, sep) + 1 && forall i :: 0 <= i < |parts| ==> !Found(parts[i], sep)
    decreases |s|
  {
    if Found(s, sep) {
      SplitIsComplete(After(s, sep), sep);
      NoneBeforeFirst(s, sep, Index(s, sep));
      assert Piece(s, sep, 0) == Before(s, sep);
    }
  }
}
