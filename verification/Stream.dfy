/**
 * The io.Reader under a buffered reader or scanner. It holds the bytes it has
 * still to give and a plan of how it answers each call; every way of cutting
 * the bytes into chunks, with or without an error beside the last of them, is
 * the behaviour of some plan, and so are readers that break the rules.
 */
module Stream {
  import opened Wrappers
  import opened Text

  datatype Error = EOF | NoProgress | TooLong | BadReadCount | BufferFull | NegativeCount | InvalidUnread | Failure(code: nat)

  /**
   * Give: up to n bytes, and the final error too if asked to fail once no bytes
   * are left. Glitch: up to n bytes and an error at any time. Negative and
   * TooMany: a count outside the buffer.
   */
  datatype Reply = Give(n: nat, fail: bool) | Glitch(n: nat, err: Error) | Negative | TooMany

  /** maxConsecutiveEmptyReads */
  const MAX_EMPTY: nat := 100

  /** The replies of a well-behaved reader: proper counts, no error before the end, and no run of as many empty ones as the caller tries. */
  ghost predicate WellBehaved(plan: seq<Reply>, tries: nat)
  {
    (forall i :: 0 <= i < |plan| ==> plan[i].Give?) && forall i: nat :: !LongGap(plan, i, tries)
  }

  predicate Empty(reply: Reply) { reply.Give? && reply.n == 0 }

  ghost predicate LongGap(plan: seq<Reply>, i: nat, tries: nat)
  {
    i + tries <= |plan| && forall j :: i <= j < i + tries ==> Empty(plan[j])
  }

  lemma GapLater(plan: seq<Reply>, k: nat, i: nat, tries: nat)
    requires k <= |plan|
    ensures LongGap(plan[k..], i, tries) ==> LongGap(plan, i + k, tries)
  {
    var later := plan[k..];
    if LongGap(later, i, tries) {
      assert forall j :: i + k <= j < i + k + tries ==> plan[j] == later[j - k];
    }
  }

  lemma WellBehavedLater(plan: seq<Reply>, k: nat, tries: nat)
    requires WellBehaved(plan, tries) && k <= |plan|
    ensures WellBehaved(plan[k..], tries)
  {
    forall i: nat ensures !LongGap(plan[k..], i, tries) { GapLater(plan, k, i, tries); }
  }

  /** What is left of the plan after a call. */
  function Tail(plan: seq<Reply>): seq<Reply> { if plan == [] then [] else plan[1..] }

  /** The next call is answered by the rules; without a plan it is. */
  predicate GivesNext(plan: seq<Reply>) { plan == [] || plan[0].Give? }

  predicate EmptyNext(plan: seq<Reply>) { plan != [] && Empty(plan[0]) }

  predicate GlitchNext(plan: seq<Reply>) { plan != [] && plan[0].Glitch? }

  lemma StillWellBehaved(plan: seq<Reply>, tries: nat)
    requires WellBehaved(plan, tries)
    ensures GivesNext(plan) && WellBehaved(Tail(plan), tries)
  {
    if plan != [] { WellBehavedLater(plan, 1, tries); }
  }

  /** The first k replies of the plan have been had, all of them empty. */
  ghost predicate Tried(plan: seq<Reply>, now: seq<Reply>, k: nat)
  {
    k <= |plan| && now == plan[k..] && forall j :: 0 <= j < k ==> Empty(plan[j])
  }

  lemma TriedOnce(plan: seq<Reply>, now: seq<Reply>, k: nat)
    requires Tried(plan, now, k) && EmptyNext(now)
    ensures Tried(plan, Tail(now), k + 1)
  {
    assert plan[k] == now[0];
  }

  /** A read into the free part of a buffer leaves the data in front of it. */
  lemma ReadKeeps(before: Bytes, after: Bytes, start: nat, end: nat)
    requires start <= end <= |before| == |after| && after[..end] == before[..end]
    ensures after[start..end] == before[start..end]
  {
    assert after[..end][start..] == before[..end][start..];
  }

  /** What a read adds to the data. */
  lemma ChunkTaken(before: Bytes, after: Bytes, r: nat, w: nat, n: nat, more: Bytes)
    requires r <= w && w + n <= |before| == |after| && after[..w] == before[..w]
    requires n <= |more| && after[w..w + n] == more[..n]
    ensures after[r..w + n] == before[r..w] + more[..n]
  {
    ReadKeeps(before, after, r, w);
    assert after[r..w + n] == after[r..w] + after[w..w + n];
  }

  class Source {
    var rest: Bytes
    var plan: seq<Reply>
    const final: Error
    ghost var given: Bytes

    constructor (data: Bytes, plan: seq<Reply>, final: Error)
      ensures rest == data && this.plan == plan && this.final == final && given == []
    {
      rest, this.plan, this.final, given := data, plan, final, [];
    }

    /** Read(p[lo..]): like any Reader it may scribble over all of p[lo..]. */
    method Read(p: array<Byte>, lo: nat) returns (n: int, err: Option<Error>)
      requires lo <= p.Length
      modifies this, p
      ensures p[..lo] == old(p[..lo])
      ensures n < 0 || n > p.Length - lo ==> rest == old(rest) && given == old(given) && err.None?
      ensures 0 <= n <= p.Length - lo ==>
        n <= |old(rest)| && p[lo..lo + n] == old(rest)[..n] && rest == old(rest)[n..] && given == old(given) + old(rest)[..n]
      ensures plan == Tail(old(plan))
      ensures old(plan) != [] && (old(plan)[0].Negative? || old(plan)[0].TooMany?) <==> n < 0 || n > p.Length - lo
      ensures old(plan) != [] && old(plan)[0].Glitch? ==> err == Some(old(plan)[0].err)
      ensures GivesNext(old(plan)) ==>
        (err.Some? ==> err == Some(final) && rest == []) && (n == 0 && lo < p.Length && err.None? ==> EmptyNext(old(plan)))
    {
      var room := p.Length - lo;
      var reply := if plan == [] then Give(room, true) else plan[0];
      plan := if plan == [] then [] else plan[1..];
      if reply.Negative? { return -1, None; }
      if reply.TooMany? { return room + 1, None; }
      var k := if reply.n < room then reply.n else room;
      if |rest| < k { k := |rest|; }
      for i := 0 to k
        invariant rest == old(rest) && given == old(given) && plan == Tail(old(plan))
        invariant p[..lo] == old(p[..lo]) && p[lo..lo + i] == rest[..i]
      {
        p[lo + i] := rest[i];
        assert p[lo..lo + i + 1] == p[lo..lo + i] + [rest[i]];
      }
      given := given + rest[..k];
      rest := rest[k..];
      n := k;
      if reply.Glitch? {
        err := Some(reply.err);
      } else {
        err := if rest == [] && (reply.fail || (k == 0 && reply.n > 0)) then Some(final) else None;
      }
    }
  }
}
