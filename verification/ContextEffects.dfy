/**
 * That the calls of src/context/context.go have their effect: what is asked to be
 * cancelled is, a deadline is watched, and every context is linked to its parent.
 */
module ContextEffects {
  import opened Wrappers
  import opened Context

  /** Some goroutine is in propagateCancel for n. */
  ghost predicate Attaching(s: State, n: Node)
  {
    exists t: nat, i: nat :: t < |s.threads| && i < |s.threads[t]| && IsAttachFrame(s.threads[t][i], n)
  }

  /** Some goroutine is about to cancel n. */
  ghost predicate Cancelling(s: State, n: Node)
  {
    exists t: nat, i: nat :: t < |s.threads| && i < |s.threads[t]| && s.threads[t][i].WantLock? && s.threads[t][i].node == n
  }

  /** Some goroutine has still to look at the deadline of n. */
  ghost predicate Arming(s: State, n: Node)
  {
    exists t: nat, i: nat :: t < |s.threads| && i < |s.threads[t]| && s.threads[t][i] == Arm(n)
  }

  /** The run has a call of the cancel function of n, or its timer has fired. */
  predicate Asked(run: seq<Action>, n: Node) { CallCancel(n, true) in run || CallCancel(n, false) in run || Fire(n) in run }

  ghost predicate Effect(run: seq<Action>, s: State, n: Node)
    requires n < |s.ctxs|
  {
    var c := s.ctxs[n];
    (c.attached || Attaching(s, n)) &&
    (Asked(run, n) ==> c.err.Some? || Cancelling(s, n)) &&
    (c.timed ==> c.err.Some? || c.timer.Armed? || Arming(s, n) || Cancelling(s, n))
  }

  ghost predicate Effects(run: seq<Action>, s: State) { forall n: nat :: n < |s.ctxs| ==> Effect(run, s, n) }

  // ---------- one step of a goroutine ----------

  /** A frame that is not the top one of the running goroutine stays. */
  lemma FrameStays(s: State, t: Tid, child: Node, expired: bool, u: Tid, i: nat)
    requires Running(s, t, child, expired) && u < |s.threads| && i < |s.threads[u]| && !(u == t && i == |s.threads[t]| - 1)
    ensures var s' := RunStep(s, t, child, expired); u < |s'.threads| && i < |s'.threads[u]| && s'.threads[u][i] == s.threads[u][i]
  {
  }

  lemma NewFrame(s: State, t: Tid, child: Node, expired: bool, k: nat)
    requires Running(s, t, child, expired) && k < |Next(s, t, Top(s.threads[t]), child, expired).1|
    ensures var s' := RunStep(s, t, child, expired); var i := |s.threads[t]| - 1 + k;
            i < |s'.threads[t]| && s'.threads[t][i] == Next(s, t, Top(s.threads[t]), child, expired).1[k]
  {
  }

  lemma AttachingKept(s: State, t: Tid, child: Node, expired: bool, n: Node)
    requires Running(s, t, child, expired) && n < |s.ctxs| && (s.ctxs[n].attached || Attaching(s, n))
    ensures var s' := RunStep(s, t, child, expired); |s'.ctxs| == |s.ctxs| && (s'.ctxs[n].attached || Attaching(s', n))
  {
    var s', f := RunStep(s, t, child, expired), Top(s.threads[t]);
    AtTop(s, t);
    RunKeepsInv(s, t, child, expired);
    if !s.ctxs[n].attached {
      var u: nat, i: nat :| u < |s.threads| && i < |s.threads[u]| && IsAttachFrame(s.threads[u][i], n);
      if u == t && i == |s.threads[t]| - 1 {
        var news := Next(s, t, f, child, expired).1;
        if news != [] {
          NewFrame(s, t, child, expired, 0);
          assert IsAttachFrame(s'.threads[t][i], n);
        }
      } else {
        FrameStays(s, t, child, expired, u, i);
        assert IsAttachFrame(s'.threads[u][i], n);
      }
    }
  }

  /** A cancel that is waiting for the mutex stays, or has had its effect. */
  lemma CancellingKept(s: State, t: Tid, child: Node, expired: bool, n: Node)
    requires Running(s, t, child, expired) && n < |s.ctxs| && (s.ctxs[n].err.Some? || Cancelling(s, n))
    ensures var s' := RunStep(s, t, child, expired); |s'.ctxs| == |s.ctxs| && (s'.ctxs[n].err.Some? || Cancelling(s', n))
  {
    var s' := RunStep(s, t, child, expired);
    AtTop(s, t);
    RunKeepsInv(s, t, child, expired);
    if s.ctxs[n].err.None? {
      var u: nat, i: nat :| u < |s.threads| && i < |s.threads[u]| && s.threads[u][i].WantLock? && s.threads[u][i].node == n;
      if !(u == t && i == |s.threads[t]| - 1) {
        FrameStays(s, t, child, expired, u, i);
        assert s'.threads[u][i].WantLock? && s'.threads[u][i].node == n;
      }
    }
  }

  lemma DeadlineKept(s: State, t: Tid, child: Node, expired: bool, n: Node)
    requires Running(s, t, child, expired) && n < |s.ctxs| && (s.ctxs[n].err.None? ==> s.ctxs[n].timer.Armed? || Arming(s, n))
    ensures var s' := RunStep(s, t, child, expired);
            |s'.ctxs| == |s.ctxs| && (s'.ctxs[n].err.Some? || s'.ctxs[n].timer.Armed? || Arming(s', n) || Cancelling(s', n))
  {
    var s', f := RunStep(s, t, child, expired), Top(s.threads[t]);
    AtTop(s, t);
    RunKeepsInv(s, t, child, expired);
    if s.ctxs[n].err.None? && !s.ctxs[n].timer.Armed? {
      var u: nat, i: nat :| u < |s.threads| && i < |s.threads[u]| && s.threads[u][i] == Arm(n);
      if u == t && i == |s.threads[t]| - 1 {
        if expired {
          NewFrame(s, t, child, expired, 0);
          assert s'.threads[t][i].WantLock? && s'.threads[t][i].node == n;
        }
      } else {
        FrameStays(s, t, child, expired, u, i);
        assert s'.threads[u][i] == Arm(n);
      }
    }
  }

  lemma RunKeepsEffect(run: seq<Action>, s: State, a: Action, n: Node)
    requires a.Run? && Running(s, a.t, a.child, a.expired) && n < |s.ctxs| && Effect(run, s, n)
    ensures n < |Apply(s, a).ctxs| && Effect(run + [a], Apply(s, a), n)
  {
    AttachingKept(s, a.t, a.child, a.expired, n);
    RunKeepsInv(s, a.t, a.child, a.expired);
    if s.ctxs[n].err.Some? || Cancelling(s, n) { CancellingKept(s, a.t, a.child, a.expired, n); }
    else if s.ctxs[n].timed { DeadlineKept(s, a.t, a.child, a.expired, n); }
  }

  // ---------- and of the outside ----------

  /** Goroutines that are there stay as they are when one is started. */
  lemma SpawnKeeps(s: State, a: Action, n: Node)
    requires Enabled(s, a) && !a.Run?
    ensures Attaching(s, n) ==> Attaching(Apply(s, a), n)
    ensures Cancelling(s, n) ==> Cancelling(Apply(s, a), n)
    ensures Arming(s, n) ==> Arming(Apply(s, a), n)
  {
    var s' := Apply(s, a);
    assert forall t: nat :: t < |s.threads| ==> t < |s'.threads| && s'.threads[t] == s.threads[t];
    if Attaching(s, n) {
      var t: nat, i: nat :| t < |s.threads| && i < |s.threads[t]| && IsAttachFrame(s.threads[t][i], n);
      assert IsAttachFrame(s'.threads[t][i], n);
    }
    if Cancelling(s, n) {
      var t: nat, i: nat :| t < |s.threads| && i < |s.threads[t]| && s.threads[t][i].WantLock? && s.threads[t][i].node == n;
      assert s'.threads[t][i].WantLock? && s'.threads[t][i].node == n;
    }
    if Arming(s, n) {
      var t: nat, i: nat :| t < |s.threads| && i < |s.threads[t]| && s.threads[t][i] == Arm(n);
      assert s'.threads[t][i] == Arm(n);
    }
  }

  lemma SpawnKeepsEffect(run: seq<Action>, s: State, a: Action, n: Node)
    requires Inv(s) && Enabled(s, a) && !a.Run? && n < |s.ctxs| && Effect(run, s, n)
    ensures n < |Apply(s, a).ctxs| && Effect(run + [a], Apply(s, a), n)
  {
    var s', t := Apply(s, a), |s.threads|;
    SpawnKeeps(s, a, n);
    if (a.CallCancel? || a.Fire?) && a.node == n {
      assert s'.threads[t][0].WantLock? && s'.threads[t][0].node == n;
      assert Cancelling(s', n);
    }
  }

  /** A new context is being linked, and its deadline looked at. */
  lemma CreatedEffect(run: seq<Action>, s: State, a: Action)
    requires Inv(s) && Enabled(s, a) && a.Create? && !Asked(run, |s.ctxs|)
    ensures Effect(run + [a], Apply(s, a), |s.ctxs|)
  {
    var s', t, n := Apply(s, a), |s.threads|, |s.ctxs|;
    if a.parent.Some? {
      var i: nat := if a.timed then 1 else 0;
      assert s'.threads[t][i] == AskDone(n);
      assert Attaching(s', n);
    }
    if a.timed {
      assert s'.threads[t][0] == Arm(n);
      assert Arming(s', n);
    }
  }

  /** Nobody is asked to cancel what is not there yet. */
  lemma {:induction false} AskedExists(run: seq<Action>, n: Node)
    requires Exec(run).Some? && Asked(run, n)
    ensures n < |Exec(run).value.ctxs|
  {
    var before, a := run[..|run| - 1], run[|run| - 1];
    assert run == before + [a];
    var s := Exec(before).value;
    if Asked(before, n) {
      AskedExists(before, n);
      ReachableInv(before);
      if a.Run? { RunKeepsInv(s, a.t, a.child, a.expired); } else { SpawnKeepsInv(s, a); }
    }
  }

  lemma {:induction false} ReachableEffects(run: seq<Action>)
    requires Exec(run).Some?
    ensures Effects(run, Exec(run).value)
  {
    if run != [] {
      var before, a := run[..|run| - 1], run[|run| - 1];
      var s := Exec(before).value;
      assert run == before + [a];
      ReachableInv(before);
      ReachableEffects(before);
      forall n: nat | n < |Exec(run).value.ctxs| ensures Effect(run, Exec(run).value, n) {
        if a.Run? {
          AtTop(s, a.t);
          RunKeepsEffect(before, s, a, n);
        } else if n < |s.ctxs| {
          SpawnKeepsEffect(before, s, a, n);
        } else {
          if Asked(before, n) { AskedExists(before, n); }
          CreatedEffect(before, s, a);
        }
      }
    }
  }

  // ---------- the guarantees ----------

  predicate Quiet(s: State) { forall t :: 0 <= t < |s.threads| ==> s.threads[t] == [] }

  /** When every call has returned, every context whose cancel function was called, or whose timer fired, is cancelled. */
  lemma CancelTakesEffect(run: seq<Action>, n: Node)
    requires Exec(run).Some? && Quiet(Exec(run).value) && Asked(run, n)
    ensures Cancelled(Exec(run).value, n)
  {
    ReachableEffects(run);
    AskedExists(run, n);
    assert Effect(run, Exec(run).value, n);
  }

  /** And one with a deadline that is not cancelled has a timer that is going to fire. */
  lemma DeadlineIsWatched(run: seq<Action>, n: Node)
    requires Exec(run).Some? && Quiet(Exec(run).value) && n < |Exec(run).value.ctxs| && Exec(run).value.ctxs[n].timed
    ensures var c := Exec(run).value.ctxs[n]; c.err.Some? || c.timer.Armed?
  {
    ReachableEffects(run);
    assert Effect(run, Exec(run).value, n);
  }

  /** And every context is linked to its parent, so that a cancelled one has no descendant that is not. */
  lemma AllDescendantsCancelled(run: seq<Action>, n: Node, d: Node)
    requires Exec(run).Some? && Quiet(Exec(run).value) && Cancelled(Exec(run).value, n) && Ancestor(Exec(run).value, n, d)
    ensures Cancelled(Exec(run).value, d) && IsClosed(Exec(run).value.ctxs[d].done)
  {
    var s := Exec(run).value;
    ReachableInv(run);
    ReachableEffects(run);
    LinkedBelow(s, run, n, d);
    assert CtxInv(s, n);
    CancelReaches(run, n, d);
  }

  lemma {:induction false} LinkedBelow(s: State, run: seq<Action>, n: Node, d: Node)
    requires Effects(run, s) && Quiet(s) && Ancestor(s, n, d)
    ensures AttachedBelow(s, n, d)
    decreases d
  {
    assert Effect(run, s, d);
    if Parent(s, d) != n { LinkedBelow(s, run, n, Parent(s, d)); } else { assert AttachedBelow(s, n, n); }
  }
}
