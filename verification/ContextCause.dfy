/**
 * No cancellation without a cause: who asked for the errors of the contexts of
 * src/context/context.go.
 */
module ContextCause {
  import opened Wrappers
  import opened Context

  /** WithDeadline found the deadline of m passed. */
  ghost predicate FoundExpired(run: seq<Action>, m: Node)
  {
    exists i :: 0 <= i < |run| && ExpiresAt(run[..i], run[i], m)
  }

  /** After the run before, the step a is WithDeadline finding the deadline of m passed. */
  predicate ExpiresAt(before: seq<Action>, a: Action, m: Node)
  {
    Exec(before).Some? && a.Run? && a.expired && CanRun(Exec(before).value, a.t, a.child, a.expired) &&
    Top(Exec(before).value.threads[a.t]) == Arm(m)
  }

  /** Someone asked for m itself to end with e: its cancel function was called, its timer fired, or its deadline had passed from the start. */
  ghost predicate Source(run: seq<Action>, s: State, m: Node, e: Err)
  {
    m < |s.ctxs| &&
    match e
    case Canceled => CallCancel(m, true) in run || CallCancel(m, false) in run
    case DeadlineExceeded => s.ctxs[m].timed && (Fire(m) in run || FoundExpired(run, m))
  }

  /** The request came from n or from above it. */
  ghost predicate Caused(run: seq<Action>, s: State, n: Node, e: Err)
  {
    exists m: Node :: (m == n || Ancestor(s, m, n)) && Source(run, s, m, e)
  }

  ghost predicate CauseInv(run: seq<Action>, s: State)
  {
    (forall n: nat, e: Err :: n < |s.ctxs| && s.ctxs[n].err == Some(e) ==> Caused(run, s, n, e)) &&
    (forall t: nat, i: nat :: t < |s.threads| && i < |s.threads[t]| ==> FrameCaused(run, s, s.threads[t][i]))
  }

  ghost predicate FrameCaused(run: seq<Action>, s: State, f: Frame)
  {
    (f.WantLock? || f.Looping? ==> Caused(run, s, f.node, f.e)) &&
    (f.Arm? && f.node < |s.ctxs| ==> s.ctxs[f.node].timed)
  }

  ghost predicate TimerInv(s: State)
  {
    forall n: nat :: n < |s.ctxs| && s.ctxs[n].timer.Armed? ==> s.ctxs[n].timed
  }

  lemma {:induction false} AncestorStable(s: State, s': State, t: Tid, x: Node, n: Node)
    requires Stable(s, s', t) && Ancestor(s, x, n)
    ensures Ancestor(s', x, n)
    decreases n
  {
    if Parent(s, n) != x { AncestorStable(s, s', t, x, Parent(s, n)); }
  }

  /** A cause is still one after another action. */
  lemma CauseLonger(run: seq<Action>, a: Action, s: State, n: Node, e: Err)
    requires Caused(run, s, n, e)
    ensures Caused(run + [a], s, n, e)
  {
    var m :| (m == n || Ancestor(s, m, n)) && Source(run, s, m, e);
    if e.DeadlineExceeded? && FoundExpired(run, m) {
      var i :| 0 <= i < |run| && ExpiresAt(run[..i], run[i], m);
      assert (run + [a])[..i] == run[..i] && (run + [a])[i] == run[i];
    }
    assert Source(run + [a], s, m, e);
  }

  lemma CauseStable(run: seq<Action>, s: State, s': State, t: Tid, n: Node, e: Err)
    requires Stable(s, s', t) && Caused(run, s, n, e)
    ensures Caused(run, s', n, e)
  {
    var m :| (m == n || Ancestor(s, m, n)) && Source(run, s, m, e);
    if m != n { AncestorStable(s, s', t, m, n); }
    assert Source(run, s', m, e);
  }

  lemma FrameCausedLater(run: seq<Action>, a: Action, s: State, s': State, t: Tid, f: Frame)
    requires Stable(s, s', t) && f.node < |s.ctxs| && (FrameCaused(run, s, f) || FrameCaused(run + [a], s, f))
    ensures FrameCaused(run + [a], s', f)
  {
    if f.WantLock? || f.Looping? {
      if FrameCaused(run, s, f) { CauseLonger(run, a, s, f.node, f.e); }
      CauseStable(run + [a], s, s', t, f.node, f.e);
    }
  }

  lemma CauseInherited(run: seq<Action>, s: State, p: Node, n: Node, e: Err)
    requires HasParent(s, n) && Parent(s, n) == p < n && Caused(run, s, p, e)
    ensures Caused(run, s, n, e)
  {
    var m :| (m == p || Ancestor(s, m, p)) && Source(run, s, m, e);
    assert Ancestor(s, m, n);
  }

  /** The frames a running goroutine adds are caused. */
  lemma RunCaused(run: seq<Action>, s: State, a: Action, f: Frame)
    requires Exec(run) == Some(s) && a.Run? && Running(s, a.t, a.child, a.expired) && CauseInv(run, s)
    requires f in Next(s, a.t, Top(s.threads[a.t]), a.child, a.expired).1
    ensures FrameCaused(run, s, f) || FrameCaused(run + [a], s, f)
  {
    var top := Top(s.threads[a.t]);
    AtTop(s, a.t);
    assert FrameCaused(run, s, top);
    if f.WantLock? || f.Looping? {
      if top.Looping? && top.pending != {} {
        NextChildCaused(run, s, a, f);
      } else if top.Arm? {
        assert (run + [a])[..|run|] == run && ExpiresAt(run, a, top.node);
        assert Source(run + [a], s, top.node, DeadlineExceeded);
      } else if IsAttachFrame(top, top.node) {
        CauseInherited(run, s, Parent(s, top.node), top.node, s.ctxs[Parent(s, top.node)].err.value);
      }
    }
  }

  lemma NextChildCaused(run: seq<Action>, s: State, a: Action, f: Frame)
    requires a.Run? && Running(s, a.t, a.child, a.expired) && CauseInv(run, s)
    requires var top := Top(s.threads[a.t]);
             top.Looping? && top.pending != {} && (f == top.(pending := top.pending - {a.child}) || f == WantLock(a.child, top.e, false))
    ensures FrameCaused(run, s, f)
  {
    var top := Top(s.threads[a.t]);
    AtTop(s, a.t);
    assert FrameCaused(run, s, top) && CtxInv(s, a.child);
    CauseInherited(run, s, top.node, a.child, top.e);
  }

  lemma CauseKept(run: seq<Action>, a: Action, s: State, s': State, t: Tid, news: seq<Frame>, u: Tid, i: nat)
    requires Stable(s, s', t) && CauseInv(run, s) && Inv(s)
    requires t < |s.threads| && s.threads[t] != [] && s'.threads == s.threads[t := Pop(s.threads[t]) + news]
    requires forall f :: f in news ==> (FrameCaused(run, s, f) || FrameCaused(run + [a], s, f)) && f.node < |s.ctxs|
    requires u < |s'.threads| && i < |s'.threads[u]|
    ensures FrameCaused(run + [a], s', s'.threads[u][i])
  {
    var f := s'.threads[u][i];
    if u == t && i >= |s.threads[t]| - 1 {
      assert f in news;
    } else {
      assert f == s.threads[u][i] && FrameInv(s, u, i) && FrameCaused(run, s, f);
    }
    FrameCausedLater(run, a, s, s', t, f);
  }

  lemma RunKeepsCause(run: seq<Action>, s: State, a: Action)
    requires Exec(run) == Some(s) && Inv(s) && Enabled(s, a) && a.Run? && CauseInv(run, s)
    ensures CauseInv(run + [a], Apply(s, a))
  {
    var s' := Apply(s, a);
    var t, top := a.t, Top(s.threads[a.t]);
    RunKeepsInv(s, t, a.child, a.expired);
    AtTop(s, t);
    var news := Next(s, t, top, a.child, a.expired).1;
    forall f | f in news ensures (FrameCaused(run, s, f) || FrameCaused(run + [a], s, f)) && f.node < |s.ctxs| {
      RunCaused(run, s, a, f);
      NewFrames(s, t, a.child, a.expired, f);
    }
    forall u: nat, i: nat | u < |s'.threads| && i < |s'.threads[u]| ensures FrameCaused(run + [a], s', s'.threads[u][i]) {
      CauseKept(run, a, s, s', t, news, u, i);
    }
    forall n: nat, e: Err | n < |s'.ctxs| && s'.ctxs[n].err == Some(e) ensures Caused(run + [a], s', n, e) {
      ErrSetByClose(s, a, n);
      if s.ctxs[n].err.None? {
        assert FrameCaused(run, s, top);
        assert top.e == e;
      }
      CauseLonger(run, a, s, n, e);
      CauseStable(run + [a], s, s', t, n, e);
    }
  }

  /** The frames that take the place of the top one are about its own context or one of its children. */
  lemma NewFrames(s: State, t: Tid, child: Node, expired: bool, f: Frame)
    requires Running(s, t, child, expired) && f in Next(s, t, Top(s.threads[t]), child, expired).1
    ensures f.node < |s.ctxs|
  {
    AtTop(s, t);
    var top := Top(s.threads[t]);
    if top.Looping? { assert CtxInv(s, top.node); }
  }

  lemma SpawnKeepsCause(run: seq<Action>, s: State, a: Action)
    requires Inv(s) && Enabled(s, a) && !a.Run? && CauseInv(run, s) && TimerInv(s)
    ensures CauseInv(run + [a], Apply(s, a))
  {
    var s' := Apply(s, a);
    var t := |s.threads|;
    SpawnKeepsInv(s, a);
    forall u: nat, i: nat | u < |s'.threads| && i < |s'.threads[u]| ensures FrameCaused(run + [a], s', s'.threads[u][i]) {
      var f := s'.threads[u][i];
      if u < t {
        assert FrameInv(s, u, i) && FrameCaused(run, s, f);
        FrameCausedLater(run, a, s, s', t, f);
      } else if f.WantLock? {
        assert a in run + [a];
        assert Source(run + [a], s', f.node, f.e);
      }
    }
    forall n: nat, e: Err | n < |s'.ctxs| && s'.ctxs[n].err == Some(e) ensures Caused(run + [a], s', n, e) {
      CauseLonger(run, a, s, n, e);
      CauseStable(run + [a], s, s', t, n, e);
    }
  }

  lemma {:induction false} ReachableCause(run: seq<Action>)
    requires Exec(run).Some?
    ensures CauseInv(run, Exec(run).value) && TimerInv(Exec(run).value)
  {
    if run != [] {
      var before, a := run[..|run| - 1], run[|run| - 1];
      var s := Exec(before).value;
      ReachableInv(before);
      ReachableCause(before);
      assert run == before + [a];
      if a.Run? {
        RunKeepsCause(before, s, a);
        var f := Top(s.threads[a.t]);
        assert FrameCaused(before, s, f);
      } else {
        SpawnKeepsCause(before, s, a);
      }
    }
  }

  /**
   * No context is cancelled out of nowhere: behind Canceled there is a call of
   * the cancel function of the context or of an ancestor, behind
   * DeadlineExceeded a timer of one of them that fired, or a deadline that had
   * passed when it was made.
   */
  lemma CancelHasCause(run: seq<Action>, n: Node)
    requires Exec(run).Some? && Cancelled(Exec(run).value, n)
    ensures Caused(run, Exec(run).value, n, Exec(run).value.ctxs[n].err.value)
  {
    ReachableCause(run);
  }
}
