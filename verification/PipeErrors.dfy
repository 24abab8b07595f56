/**
 * What the callers of an io.Pipe (src/io/pipe.go) are told, in terms of the calls
 * that were made: which error a close leaves for the other half, what a Read has
 * taken, and that a call made after a close fails.
 */
module PipeErrors {
  import opened Wrappers
  import opened Pipe

  // ---------- which close comes first ----------

  datatype CloseCall = CloseCall(write: bool, err: Option<Error>)

  /** The closes of a run, in the order in which they were called. */
  function CloseCalls(run: seq<Action>): seq<CloseCall>
  {
    if run == [] then []
    else
      var a := run[|run| - 1];
      CloseCalls(run[..|run| - 1]) + if a.StartClose? then [CloseCall(a.write, a.err)] else []
  }

  /** What a close leaves: its error, or EOF for the reader and ErrClosedPipe for the writer. */
  predicate Leaves(c: CloseCall, e: Error)
  {
    match c.err
    case Some(given) => e == given
    case None => if c.write then e == EOF else e == ErrClosedPipe
  }

  /** The close of the given half that was the first to store its error. */
  function FirstToStore(run: seq<Action>, write: bool): Option<CloseCall>
  {
    if run == [] then None
    else
      var before, a := run[..|run| - 1], run[|run| - 1];
      var first := FirstToStore(before, write);
      if first.Some? then first
      else if a.StepCloser? && a !in before && a.c < |CloseCalls(before)| && CloseCalls(before)[a.c].write == write then
        Some(CloseCalls(before)[a.c])
      else None
  }

  /** The error that is stored for a half is what the first close of it leaves. */
  predicate Stored(run: seq<Action>, write: bool, err: Option<Error>)
  {
    var first := FirstToStore(run, write);
    (first.Some? <==> err.Some?) && (first.Some? && err.Some? ==> Leaves(first.value, err.value))
  }

  /** Which closes there are, and which of them have stored. */
  predicate CallsOk(run: seq<Action>, s: State)
  {
    |s.closers| == |CloseCalls(run)| &&
    forall c: nat :: c < |s.closers| ==>
      s.closers[c].write == CloseCalls(run)[c].write && Leaves(CloseCalls(run)[c], s.closers[c].err) &&
      (s.closers[c].stored <==> StepCloser(c) in run)
  }

  predicate ClosersInv(run: seq<Action>, s: State)
  {
    CallsOk(run, s) && Stored(run, true, s.werr) && Stored(run, false, s.rerr)
  }

  lemma CallsStep(before: seq<Action>, a: Action, run: seq<Action>, s: State)
    requires run == before + [a] && CallsOk(before, s) && Enabled(s, a)
    requires forall c: nat :: StepCloser(c) in before ==> c < |s.closers|
    ensures CallsOk(run, Apply(s, a))
  {
    assert run[..|run| - 1] == before && run[|run| - 1] == a;
  }

  lemma StoredStep(before: seq<Action>, a: Action, run: seq<Action>, s: State)
    requires run == before + [a] && ClosersInv(before, s) && Enabled(s, a)
    ensures Stored(run, true, Apply(s, a).werr) && Stored(run, false, Apply(s, a).rerr)
  {
    assert run[..|run| - 1] == before && run[|run| - 1] == a;
  }

  lemma {:induction false} ReachableClosers(run: seq<Action>)
    requires Exec(run).Some?
    ensures ClosersInv(run, Exec(run).value)
    ensures forall c: nat :: StepCloser(c) in run ==> c < |Exec(run).value.closers|
  {
    if run != [] {
      var before, a := run[..|run| - 1], run[|run| - 1];
      assert run == before + [a];
      ReachableClosers(before);
      CallsStep(before, a, run, Exec(before).value);
      StoredStep(before, a, run, Exec(before).value);
    }
  }

  // ---------- the errors of the callers ----------

  /**
   * A Read that fails gets what the first close of the write half left, unless the
   * read half was closed too; then it may get ErrClosedPipe instead.
   */
  lemma ReadErrorIs(run: seq<Action>, r: nat)
    requires Exec(run).Some? && r < |Exec(run).value.readers|
    requires var x := Exec(run).value.readers[r]; x.pc.Read? && x.pc.err.Some?
    ensures var e := Exec(run).value.readers[r].pc.err.value;
            var theirs, own := FirstToStore(run, true), FirstToStore(run, false);
            if own.None? then theirs.Some? && Leaves(theirs.value, e)
            else e == ErrClosedPipe || (theirs.Some? && Leaves(theirs.value, e))
  {
    ReachableClosers(run);
    ReadError(run, r);
  }

  lemma WriteErrorIs(run: seq<Action>, w: nat)
    requires Exec(run).Some? && w < |Exec(run).value.writers|
    requires var x := Exec(run).value.writers[w]; x.pc.Wrote? && x.pc.err.Some?
    ensures var e := Exec(run).value.writers[w].pc.err.value;
            var theirs, own := FirstToStore(run, false), FirstToStore(run, true);
            if own.None? then theirs.Some? && Leaves(theirs.value, e)
            else e == ErrClosedPipe || (theirs.Some? && Leaves(theirs.value, e))
  {
    ReachableClosers(run);
    WriteError(run, w);
  }

  lemma {:induction false} CallsAreStarted(run: seq<Action>)
    ensures forall c :: c in CloseCalls(run) ==> StartClose(c.write, c.err) in run
  {
    if run != [] { CallsAreStarted(run[..|run| - 1]); }
  }

  lemma {:induction false} FirstIsCalled(run: seq<Action>, write: bool)
    ensures var first := FirstToStore(run, write);
            first.Some? ==> first.value.write == write && StartClose(write, first.value.err) in run
  {
    if run != [] {
      FirstIsCalled(run[..|run| - 1], write);
      CallsAreStarted(run[..|run| - 1]);
    }
  }

  /** w.Close() and nothing else: the Reads that fail get EOF. */
  lemma CloseMeansEOF(run: seq<Action>, r: nat)
    requires Exec(run).Some? && r < |Exec(run).value.readers|
    requires forall err :: StartClose(false, err) !in run && (StartClose(true, err) in run ==> err.None?)
    ensures var x := Exec(run).value.readers[r]; x.pc.Read? && x.pc.err.Some? ==> x.pc.err == Some(EOF)
  {
    var x := Exec(run).value.readers[r];
    if x.pc.Read? && x.pc.err.Some? {
      ReadErrorIs(run, r);
      FirstIsCalled(run, true);
      FirstIsCalled(run, false);
    }
  }

  /** r.Close() and nothing else: the Writes that fail get ErrClosedPipe. */
  lemma CloseMeansClosedPipe(run: seq<Action>, w: nat)
    requires Exec(run).Some? && w < |Exec(run).value.writers|
    requires forall err :: StartClose(true, err) !in run && (StartClose(false, err) in run ==> err.None?)
    ensures var x := Exec(run).value.writers[w]; x.pc.Wrote? && x.pc.err.Some? ==> x.pc.err == Some(ErrClosedPipe)
  {
    var x := Exec(run).value.writers[w];
    if x.pc.Wrote? && x.pc.err.Some? {
      WriteErrorIs(run, w);
      FirstIsCalled(run, true);
      FirstIsCalled(run, false);
    }
  }

  /** On the half that was closed itself, and only that, a call that fails gets ErrClosedPipe whatever error the close was given. */
  lemma OwnCloseMeansClosedPipe(run: seq<Action>, i: nat)
    requires Exec(run).Some?
    ensures var s := Exec(run).value;
            (forall err :: StartClose(true, err) !in run) && i < |s.readers| && s.readers[i].pc.Read? && s.readers[i].pc.err.Some? ==>
              s.readers[i].pc.err == Some(ErrClosedPipe)
    ensures var s := Exec(run).value;
            (forall err :: StartClose(false, err) !in run) && i < |s.writers| && s.writers[i].pc.Wrote? && s.writers[i].pc.err.Some? ==>
              s.writers[i].pc.err == Some(ErrClosedPipe)
  {
    var s := Exec(run).value;
    FirstIsCalled(run, true);
    FirstIsCalled(run, false);
    if i < |s.readers| && s.readers[i].pc.Read? && s.readers[i].pc.err.Some? { ReadErrorIs(run, i); }
    if i < |s.writers| && s.writers[i].pc.Wrote? && s.writers[i].pc.err.Some? { WriteErrorIs(run, i); }
  }

  // ---------- what a Read has taken ----------

  /** The handshake of r at position i of the run, and what it took: as much as fits of what the Write had left. */
  ghost predicate TookAt(run: seq<Action>, i: nat, w: nat, r: nat, got: seq<Byte>)
  {
    i < |run| && run[i] == Handshake(w, r) && Exec(run[..i]).Some? &&
    var s := Exec(run[..i]).value;
    w < |s.writers| && r < |s.readers| &&
    var x, room := s.writers[w], s.readers[r].size;
    x.n <= |x.data| && got == x.data[x.n..][..if room < |x.data| - x.n then room else |x.data| - x.n]
  }

  lemma GotKept(s: State, a: Action, r: nat)
    requires Inv(s) && Enabled(s, a) && r in s.taken && r < |s.readers|
    ensures r < |Apply(s, a).readers| && Apply(s, a).readers[r].got == s.readers[r].got
  {
    assert ReaderInv(s, r);
  }

  lemma NewlyTaken(s: State, a: Action, r: nat)
    requires Enabled(s, a) && r !in s.taken && r in Apply(s, a).taken
    ensures a.Handshake? && a.r == r
  {
  }

  lemma JustTaken(run: seq<Action>, before: seq<Action>, w: nat, r: nat)
    requires run == before + [Handshake(w, r)] && Exec(run).Some?
    ensures r < |Exec(run).value.readers| && TookAt(run, |before|, w, r, Exec(run).value.readers[r].got)
  {
    assert run[..|run| - 1] == before && run[..|before|] == before;
    ReachableInv(before);
    assert WriterInv(Exec(before).value, w);
  }

  /** A Read that took anything took all it had room for, or all that was left of one Write. */
  lemma {:induction false} TakenFrom(run: seq<Action>, r: nat) returns (i: nat, w: nat)
    requires Exec(run).Some? && r in Exec(run).value.taken && r < |Exec(run).value.readers|
    ensures TookAt(run, i, w, r, Exec(run).value.readers[r].got)
  {
    var before, a := run[..|run| - 1], run[|run| - 1];
    var s := Exec(before).value;
    assert run == before + [a];
    ReachableInv(before);
    if r in s.taken {
      GotKept(s, a, r);
      i, w := TakenFrom(before, r);
      assert before[..i] == run[..i];
    } else {
      NewlyTaken(s, a, r);
      i, w := |before|, a.w;
      JustTaken(run, before, w, r);
    }
  }

  predicate HasMet(s: State, w: nat)
  {
    w < |s.writers| && (s.writers[w].n > 0 || s.writers[w].pc.Await? || s.writers[w].pc == Wrote(None))
  }

  lemma MetStep(s: State, a: Action, w: nat)
    requires Enabled(s, a) && HasMet(Apply(s, a), w) && !HasMet(s, w)
    ensures a.Handshake? && a.w == w
  {
  }

  /** A Write that has counted something, or that returned without an error, has met a Read, even if it had no data. */
  lemma {:induction false} WriteMeetsRead(run: seq<Action>, w: nat) returns (r: nat)
    requires Exec(run).Some? && HasMet(Exec(run).value, w)
    ensures Handshake(w, r) in run
  {
    var before, a := run[..|run| - 1], run[|run| - 1];
    var s := Exec(before).value;
    assert run == before + [a];
    if HasMet(s, w) {
      r := WriteMeetsRead(before, w);
    } else {
      MetStep(s, a, w);
      r := a.r;
    }
  }

  // ---------- calls made after a close ----------

  /** A call that was not there when the pipe was closed never gets past its first look at done. */
  predicate LateCallsFail(s: State, writers: nat, readers: nat)
  {
    s.done &&
    (forall w :: writers <= w < |s.writers| ==>
      var x := s.writers[w]; x.n == 0 && (x.pc.Enter? || x.pc.LoadWerr? || x.pc.LoadRerr? || (x.pc.Wrote? && x.pc.err.Some?))) &&
    (forall r :: readers <= r < |s.readers| ==>
      var x := s.readers[r]; x.got == [] && (x.pc.Check? || x.pc.ReadRerr? || x.pc.ReadWerr? || (x.pc.Read? && x.pc.err.Some?)))
  }

  lemma LateStep(s: State, a: Action, writers: nat, readers: nat)
    requires LateCallsFail(s, writers, readers) && Enabled(s, a)
    ensures LateCallsFail(Apply(s, a), writers, readers)
  {
  }

  /** A Read or Write that starts after the pipe was closed moves no bytes, and if it returns, it returns an error. */
  lemma {:induction false} ClosedForGood(run: seq<Action>, more: seq<Action>)
    requires Exec(run + more).Some? && Exec(run).Some? && Exec(run).value.done
    ensures var s := Exec(run).value; LateCallsFail(Exec(run + more).value, |s.writers|, |s.readers|)
  {
    if more == [] {
      assert run + more == run;
    } else {
      var before := more[..|more| - 1];
      assert (run + more)[..|run + more| - 1] == run + before;
      ClosedForGood(run, before);
      var s := Exec(run).value;
      LateStep(Exec(run + before).value, more[|more| - 1], |s.writers|, |s.readers|);
    }
  }
}
