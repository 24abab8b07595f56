/**
 * What cancelling gives back (src/context/context.go): a cancelled context is
 * taken out of its parent's children, lets go of its own, and its timer is
 * stopped.
 */
module ContextRelease {
  import opened Wrappers
  import opened Context

  predicate ParentCancelled(s: State, n: Node) { HasParent(s, n) && s.ctxs[Parent(s, n)].err.Some? }

  /** propagateCancel before it has looked at the parent's error under the parent's mutex. */
  predicate IsFresh(f: Frame) { f.AskDone? || f.Select? || f.AskErr? || f.FindParent? || f.CheckParent? || f.WantParent? }

  /** A cancel call of n that has set the error and not returned. */
  predicate IsStopping(f: Frame, n: Node) { f.node == n && (f.Looping? || IsRemoveFrame(f) || f.WantStop?) }

  /** And that is going to remove n from its parent. */
  predicate IsRemoving(f: Frame, n: Node) { f.node == n && ((f.Looping? && f.remove) || IsRemoveFrame(f)) }

  predicate At(s: State, t: Tid, i: nat) { t < |s.threads| && i < |s.threads[t]| }

  ghost predicate Stopping(s: State, n: Node)
  {
    exists t: nat, i: nat :: At(s, t, i) && IsStopping(s.threads[t][i], n)
  }

  ghost predicate Removing(s: State, n: Node)
  {
    exists t: nat, i: nat :: At(s, t, i) && IsRemoving(s.threads[t][i], n)
  }

  // ---------- the invariant ----------

  /** propagateCancel runs once for a context, on the goroutine that makes it, and before anyone else may cancel it. */
  ghost predicate FrameRel(s: State, t: Tid, i: nat)
    requires At(s, t, i)
  {
    var stack := s.threads[t];
    var f := stack[i];
    var n := f.node;
    n < |s.ctxs| &&
    var c := s.ctxs[n];
    (IsAttachFrame(f, n) ==> c.maker == t && !c.attached) &&
    (IsFresh(f) ==> c.err.None?) &&
    (f.HoldParent? || f.Linked? ==> ParentCancelled(s, n)) &&
    (f.WantLock? ==> c.attached || (i > 0 && (stack[i - 1] == HoldParent(n) || stack[i - 1] == Linked(n)))) &&
    (f.WantLock? && !f.remove ==> c.err.Some? || ParentCancelled(s, n)) &&
    (f.Arm? ==> c.timed && (c.attached || (i + 1 < |stack| && IsAttachFrame(stack[i + 1], n))))
  }

  /** What a cancelled context still holds, some call is about to give back. */
  ghost predicate CtxRel(s: State, n: Node)
    requires n < |s.ctxs|
  {
    var c := s.ctxs[n];
    (forall d :: d in c.children && d < |s.ctxs| ==> s.ctxs[d].attached) &&
    (c.timer.Armed? ==> c.attached && c.timed) &&
    (c.err.Some? && c.timer.Armed? ==> Stopping(s, n)) &&
    (c.err.Some? && HasParent(s, n) && n in s.ctxs[Parent(s, n)].children ==> ParentCancelled(s, n) || Removing(s, n))
  }

  ghost predicate Rel(s: State)
  {
    (forall t: nat, i: nat :: At(s, t, i) ==> FrameRel(s, t, i)) &&
    (forall n: nat :: n < |s.ctxs| ==> CtxRel(s, n))
  }

  // ---------- what a step does ----------

  /** The step of goroutine t finishes propagateCancel for n. */
  predicate Attaches(s: State, f: Frame, n: Node)
  {
    f.node == n && ((f.WantParent? && HasParent(s, n) && s.ctxs[Parent(s, n)].err.None?) || f.HoldParent? || f.Linked?)
  }

  lemma Effects(s: State, t: Tid, child: Node, expired: bool, n: Node)
    requires Running(s, t, child, expired) && n < |s.ctxs|
    ensures var s', f := RunStep(s, t, child, expired), Top(s.threads[t]);
            |s'.ctxs| == |s.ctxs| &&
            var c, c' := s.ctxs[n], s'.ctxs[n];
            (c'.attached <==> c.attached || Attaches(s, f, n)) &&
            (c'.timer.Armed? ==> (c.timer.Armed? && f != WantStop(n)) || (f == Arm(n) && c.err.None?)) &&
            (c'.err == c.err || (f.WantLock? && f.node == n && c.err.None?)) &&
            forall d :: d in c'.children ==> d in c.children || (f == WantParent(d) && Attaches(s, f, d))
  {
    AtTop(s, t);
  }

  /** A frame of another goroutine, or below the top one. */
  lemma FrameRelKept(s: State, t: Tid, child: Node, expired: bool, u: Tid, i: nat)
    requires Running(s, t, child, expired) && Rel(s) && At(s, u, i) && !(u == t && i == |s.threads[t]| - 1)
    ensures At(RunStep(s, t, child, expired), u, i) && FrameRel(RunStep(s, t, child, expired), u, i)
  {
    var s' := RunStep(s, t, child, expired);
    var f, top := s.threads[u][i], Top(s.threads[t]);
    var last := |s.threads[t]| - 1;
    RunKeepsInv(s, t, child, expired);
    if u == t {
      BelowTop(s, t, child, expired, i);
    } else {
      assert FrameInv(s, u, i) && FrameRel(s, u, i) && FrameInv(s, t, last) && FrameRel(s, t, last);
      Effects(s, t, child, expired, f.node);
      if last > 0 { assert FrameRel(s, t, last - 1); }
    }
  }

  /** In the running goroutine: only propagateCancel may be waiting under something, for the cancelling of its own context. */
  lemma BelowTop(s: State, t: Tid, child: Node, expired: bool, i: nat)
    requires Running(s, t, child, expired) && Rel(s) && i < |s.threads[t]| - 1
    ensures var s' := RunStep(s, t, child, expired);
            At(s', t, i) && s'.threads[t][i] == s.threads[t][i] && FrameRel(s', t, i)
  {
    var s' := RunStep(s, t, child, expired);
    var stack := s.threads[t];
    var f, top := stack[i], Top(stack);
    RunKeepsInv(s, t, child, expired);
    assert FrameInv(s, t, i) && FrameInv(s, t, i + 1) && FrameRel(s, t, i) && FrameRel(s, t, |stack| - 1);
    assert FrameInv(s, t, |stack| - 1);
    Effects(s, t, child, expired, f.node);
    assert Pop(stack)[i] == f;
    if IsAttachFrame(top, top.node) { NothingBelowAttach(s, t); }
  }

  lemma NothingBelowAttach(s: State, t: Tid)
    requires Inv(s) && t < |s.threads| && s.threads[t] != [] && IsAttachFrame(Top(s.threads[t]), Top(s.threads[t]).node)
    ensures |s.threads[t]| <= 2 && (|s.threads[t]| == 2 ==> s.threads[t][0] == Arm(Top(s.threads[t]).node))
  {
    NothingHeldBelowAttach(s, t, 0);
    if |s.threads[t]| == 2 { assert FrameInv(s, t, 1) && MayCall(s, s.threads[t][0], s.threads[t][1]); }
  }

  /** The frames that take the place of the top one. */
  lemma FrameRelNew(s: State, t: Tid, child: Node, expired: bool, i: nat)
    requires Running(s, t, child, expired) && Rel(s)
    requires |s.threads[t]| - 1 <= i < |RunStep(s, t, child, expired).threads[t]|
    ensures FrameRel(RunStep(s, t, child, expired), t, i)
  {
    if Top(s.threads[t]).Looping? { LoopRelNew(s, t, child, expired, i); } else { CallRelNew(s, t, child, expired, i); }
  }

  lemma LoopRelNew(s: State, t: Tid, child: Node, expired: bool, i: nat)
    requires Running(s, t, child, expired) && Rel(s) && Top(s.threads[t]).Looping?
    requires |s.threads[t]| - 1 <= i < |RunStep(s, t, child, expired).threads[t]|
    ensures FrameRel(RunStep(s, t, child, expired), t, i)
  {
    var f := Top(s.threads[t]);
    AtTop(s, t);
    assert CtxRel(s, f.node);
    Effects(s, t, child, expired, f.node);
    if f.pending != {} {
      assert CtxInv(s, child);
      Effects(s, t, child, expired, child);
    }
  }

  lemma CallRelNew(s: State, t: Tid, child: Node, expired: bool, i: nat)
    requires Running(s, t, child, expired) && Rel(s) && !Top(s.threads[t]).Looping?
    requires |s.threads[t]| - 1 <= i < |RunStep(s, t, child, expired).threads[t]|
    ensures FrameRel(RunStep(s, t, child, expired), t, i)
  {
    AtTop(s, t);
    assert FrameRel(s, t, |s.threads[t]| - 1);
    Effects(s, t, child, expired, Top(s.threads[t]).node);
  }

  // ---------- and to the contexts ----------

  /** A frame that is not replaced is still there. */
  lemma StillThere(s: State, t: Tid, child: Node, expired: bool, u: Tid, i: nat)
    requires Running(s, t, child, expired) && At(s, u, i) && !(u == t && i == |s.threads[t]| - 1)
    ensures var s' := RunStep(s, t, child, expired); At(s', u, i) && s'.threads[u][i] == s.threads[u][i]
  {
  }

  /** A call that is stopping n goes on to do so, until the timer is stopped. */
  lemma StoppingKept(s: State, t: Tid, child: Node, expired: bool, n: Node)
    requires Running(s, t, child, expired) && n < |s.ctxs| && s.ctxs[n].timed && Stopping(s, n) && Top(s.threads[t]) != WantStop(n)
    ensures Stopping(RunStep(s, t, child, expired), n)
  {
    var s' := RunStep(s, t, child, expired);
    var u: nat, i: nat :| At(s, u, i) && IsStopping(s.threads[u][i], n);
    if u == t && i == |s.threads[t]| - 1 {
      AtTop(s, t);
      assert IsStopping(s'.threads[t][i], n);
    } else {
      StillThere(s, t, child, expired, u, i);
      assert At(s', u, i) && IsStopping(s'.threads[u][i], n);
    }
  }

  /** A call that is removing n goes on to do so, until it has, or finds the parent cancelled. */
  lemma RemovingKept(s: State, t: Tid, child: Node, expired: bool, n: Node)
    requires Running(s, t, child, expired) && Removing(s, n) && Top(s.threads[t]) != Delete(n) && HasParent(s, n)
    requires !ParentCancelled(s, n)
    ensures Removing(RunStep(s, t, child, expired), n)
  {
    var s' := RunStep(s, t, child, expired);
    var u: nat, i: nat :| At(s, u, i) && IsRemoving(s.threads[u][i], n);
    if u == t && i == |s.threads[t]| - 1 {
      AtTop(s, t);
      assert IsRemoving(s'.threads[t][i], n);
    } else {
      StillThere(s, t, child, expired, u, i);
      assert At(s', u, i) && IsRemoving(s'.threads[u][i], n);
    }
  }

  lemma CancelStarts(s: State, t: Tid, child: Node, expired: bool)
    requires Running(s, t, child, expired) && Rel(s)
    requires var f := Top(s.threads[t]); f.WantLock? && s.ctxs[f.node].err.None?
    ensures var s', f := RunStep(s, t, child, expired), Top(s.threads[t]);
            Stopping(s', f.node) && (Removing(s', f.node) || ParentCancelled(s', f.node))
  {
    var s', f, top := RunStep(s, t, child, expired), Top(s.threads[t]), |s.threads[t]| - 1;
    AtTop(s, t);
    assert FrameRel(s, t, top);
    assert At(s', t, top) && IsStopping(s'.threads[t][top], f.node);
    if f.remove { assert IsRemoving(s'.threads[t][top], f.node); } else { StepWantLock(s, t, child, expired); }
  }

  lemma TimerRel(s: State, t: Tid, child: Node, expired: bool, n: Node)
    requires Running(s, t, child, expired) && Rel(s) && n < |s.ctxs|
    ensures var s' := RunStep(s, t, child, expired);
            |s'.ctxs| == |s.ctxs| && (s'.ctxs[n].timer.Armed? ==> s'.ctxs[n].attached && s'.ctxs[n].timed) &&
            (s'.ctxs[n].err.Some? && s'.ctxs[n].timer.Armed? ==> Stopping(s', n))
  {
    var s', f := RunStep(s, t, child, expired), Top(s.threads[t]);
    Effects(s, t, child, expired, n);
    RunKeepsInv(s, t, child, expired);
    assert CtxRel(s, n) && FrameRel(s, t, |s.threads[t]| - 1);
    if s'.ctxs[n].err.Some? && s'.ctxs[n].timer.Armed? {
      if s.ctxs[n].err.None? { CancelStarts(s, t, child, expired); } else { StoppingKept(s, t, child, expired, n); }
    }
  }

  /** removeChild takes n out. */
  lemma Removed(s: State, t: Tid, child: Node, expired: bool, n: Node)
    requires Running(s, t, child, expired) && Top(s.threads[t]) == Delete(n) && HasParent(s, n)
    ensures var s' := RunStep(s, t, child, expired);
            |s'.ctxs| == |s.ctxs| && n !in s'.ctxs[Parent(s, n)].children
  {
    AtTop(s, t);
  }

  lemma ChildRel(s: State, t: Tid, child: Node, expired: bool, n: Node)
    requires Running(s, t, child, expired) && Rel(s) && n < |s.ctxs| && HasParent(s, n)
    requires var s' := RunStep(s, t, child, expired); |s'.ctxs| == |s.ctxs| && Stable(s, s', t)
    requires var s' := RunStep(s, t, child, expired); s'.ctxs[n].err.Some? && n in s'.ctxs[Parent(s, n)].children
    ensures var s' := RunStep(s, t, child, expired); ParentCancelled(s', n) || Removing(s', n)
  {
    var s', f, p := RunStep(s, t, child, expired), Top(s.threads[t]), Parent(s, n);
    Effects(s, t, child, expired, n);
    Effects(s, t, child, expired, p);
    assert CtxRel(s, n) && FrameRel(s, t, |s.threads[t]| - 1);
    if s.ctxs[n].err.None? {
      CancelStarts(s, t, child, expired);
    } else if !ParentCancelled(s, n) {
      if f == Delete(n) { Removed(s, t, child, expired, n); } else { RemovingKept(s, t, child, expired, n); }
    }
  }

  lemma CtxRelKept(s: State, t: Tid, child: Node, expired: bool, n: Node)
    requires Running(s, t, child, expired) && Rel(s) && n < |s.ctxs|
    ensures n < |RunStep(s, t, child, expired).ctxs| && CtxRel(RunStep(s, t, child, expired), n)
  {
    var s' := RunStep(s, t, child, expired);
    RunKeepsInv(s, t, child, expired);
    TimerRel(s, t, child, expired, n);
    Effects(s, t, child, expired, n);
    assert CtxRel(s, n);
    forall d | d in s'.ctxs[n].children && d < |s'.ctxs| ensures s'.ctxs[d].attached { Effects(s, t, child, expired, d); }
    if s'.ctxs[n].err.Some? && HasParent(s', n) && n in s'.ctxs[Parent(s', n)].children { ChildRel(s, t, child, expired, n); }
  }

  lemma RunKeepsRel(s: State, t: Tid, child: Node, expired: bool)
    requires Running(s, t, child, expired) && Rel(s)
    ensures Rel(RunStep(s, t, child, expired))
  {
    var s' := RunStep(s, t, child, expired);
    forall u: nat, i: nat | At(s', u, i) ensures FrameRel(s', u, i) {
      if u == t && i >= |s.threads[t]| - 1 { FrameRelNew(s, t, child, expired, i); } else { FrameRelKept(s, t, child, expired, u, i); }
    }
    RunKeepsInv(s, t, child, expired);
    if |s.ctxs| > 0 { Effects(s, t, child, expired, 0); }
    forall n: nat | n < |s'.ctxs| ensures CtxRel(s', n) { CtxRelKept(s, t, child, expired, n); }
  }

  lemma SpawnKeepsRel(s: State, a: Action)
    requires Inv(s) && Rel(s) && Enabled(s, a) && !a.Run?
    ensures Rel(Apply(s, a))
  {
    var s' := Apply(s, a);
    SpawnKeepsInv(s, a);
    forall u: nat, i: nat | At(s', u, i) ensures FrameRel(s', u, i) {
      if u < |s.threads| { SpawnKeepsFrameRel(s, a, u, i); } else { SpawnedFrameRel(s, a, u, i); }
    }
    forall n: nat | n < |s'.ctxs| ensures CtxRel(s', n) {
      if n < |s.ctxs| { SpawnKeepsCtxRel(s, a, n); }
    }
  }

  lemma SpawnKeepsFrameRel(s: State, a: Action, u: Tid, i: nat)
    requires Inv(s) && Rel(s) && Enabled(s, a) && !a.Run? && At(s, u, i) && Stable(s, Apply(s, a), |s.threads|)
    ensures At(Apply(s, a), u, i) && FrameRel(Apply(s, a), u, i)
  {
    assert FrameInv(s, u, i) && FrameRel(s, u, i);
  }

  lemma SpawnedFrameRel(s: State, a: Action, u: Tid, i: nat)
    requires Inv(s) && Rel(s) && Enabled(s, a) && !a.Run? && At(Apply(s, a), u, i) && u == |s.threads|
    ensures FrameRel(Apply(s, a), u, i)
  {
    if a.Fire? { assert CtxRel(s, a.node); }
  }

  lemma SpawnKeepsCtxRel(s: State, a: Action, n: Node)
    requires Inv(s) && Rel(s) && Enabled(s, a) && !a.Run? && n < |s.ctxs| && Stable(s, Apply(s, a), |s.threads|)
    ensures CtxRel(Apply(s, a), n)
  {
    var s' := Apply(s, a);
    assert CtxRel(s, n) && CtxInv(s, n);
    if Stopping(s, n) {
      var u: nat, i: nat :| At(s, u, i) && IsStopping(s.threads[u][i], n);
      assert At(s', u, i) && IsStopping(s'.threads[u][i], n);
    }
    if Removing(s, n) {
      var u: nat, i: nat :| At(s, u, i) && IsRemoving(s.threads[u][i], n);
      assert At(s', u, i) && IsRemoving(s'.threads[u][i], n);
    }
  }

  lemma {:induction false} ReachableRel(run: seq<Action>)
    requires Exec(run).Some?
    ensures Rel(Exec(run).value)
  {
    if run != [] {
      var before, a := run[..|run| - 1], run[|run| - 1];
      ReachableRel(before);
      ReachableInv(before);
      if a.Run? { RunKeepsRel(Exec(before).value, a.t, a.child, a.expired); } else { SpawnKeepsRel(Exec(before).value, a); }
    }
  }

  // ---------- the guarantee ----------

  /** Nothing keeps the context alive: no parent points to it, no timer is going to fire for it, and it points to no child. */
  predicate Released(s: State, n: Node)
  {
    n < |s.ctxs| && s.ctxs[n].children == {} && !s.ctxs[n].timer.Armed? &&
    (HasParent(s, n) ==> n !in s.ctxs[Parent(s, n)].children)
  }

  /** What still has to be given back is on the way. */
  lemma UnderWay(s: State, n: Node)
    requires Inv(s) && n < |s.ctxs| && (Removing(s, n) || s.ctxs[n].sweeping)
    ensures Stopping(s, n)
  {
    if Removing(s, n) {
      var t: nat, i: nat :| At(s, t, i) && IsRemoving(s.threads[t][i], n);
      assert IsStopping(s.threads[t][i], n);
    } else {
      assert CtxInv(s, n);
      var t := s.ctxs[n].lock.value;
      var i: nat :| i < |s.threads[t]| && Holds(s, s.threads[t][i], n);
      assert FrameInv(s, t, i) && At(s, t, i) && IsStopping(s.threads[t][i], n);
    }
  }

  /**
   * Cancelling a context releases it: in every interleaving, when no call that
   * cancels it is under way and the mutex of its parent is free.
   */
  lemma CancelReleases(run: seq<Action>, n: Node)
    requires Exec(run).Some? && Cancelled(Exec(run).value, n) && !Stopping(Exec(run).value, n)
    requires var s := Exec(run).value; HasParent(s, n) ==> Free(s, Parent(s, n))
    ensures Released(Exec(run).value, n)
  {
    var s := Exec(run).value;
    ReachableInv(run);
    ReachableRel(run);
    assert CtxInv(s, n) && CtxRel(s, n);
    if Removing(s, n) || s.ctxs[n].sweeping { UnderWay(s, n); }
    if HasParent(s, n) { assert CtxInv(s, Parent(s, n)); }
  }

  /** So when every call has returned, every cancelled context is released. */
  lemma QuietIsReleased(run: seq<Action>, n: Node)
    requires Exec(run).Some? && Cancelled(Exec(run).value, n)
    requires forall t :: 0 <= t < |Exec(run).value.threads| ==> Exec(run).value.threads[t] == []
    ensures Released(Exec(run).value, n)
  {
    var s := Exec(run).value;
    ReachableInv(run);
    if HasParent(s, n) { assert CtxInv(s, Parent(s, n)); }
    CancelReleases(run, n);
  }
}
