/**
 * Locks and progress in src/context/context.go: mutexes nest from ancestor to
 * descendant, so nobody waits forever, and every call ends.
 */
module ContextProgress {
  import opened Wrappers
  import opened Context

  // ---------- lock order ----------

  /** The mutex a frame must take before it can move on. */
  function Waits(s: State, f: Frame): Option<Node>
    requires f.node < |s.ctxs|
  {
    match f
    case WantLock(n, _, _) => Some(n)
    case WantStop(n) => Some(n)
    case WantRemove(n) => if HasParent(s, n) then Some(Parent(s, n)) else None
    case CheckRemove(n) => s.ctxs[n].parent
    case Delete(n) => s.ctxs[n].parent
    case AskDone(n) => s.ctxs[n].parent
    case AskErr(n) => s.ctxs[n].parent
    case FindParent(n) => s.ctxs[n].parent
    case CheckParent(n) => s.ctxs[n].parent
    case WantParent(n) => s.ctxs[n].parent
    case Arm(n) => Some(n)
    case _ => None
  }

  /** Locks nest from ancestor to descendant: what a goroutine holds is above what it waits for. */
  lemma LockOrder(run: seq<Action>, t: Tid, i: nat, x: Node, w: Node)
    requires Exec(run).Some?
    requires var s := Exec(run).value;
             t < |s.threads| && i < |s.threads[t]| && Holds(s, s.threads[t][i], x) &&
             Top(s.threads[t]).node < |s.ctxs| && Waits(s, Top(s.threads[t])) == Some(w)
    ensures Ancestor(Exec(run).value, x, w)
  {
    var s := Exec(run).value;
    ReachableInv(run);
    HeldAbove(s, t, i, x, w);
  }

  lemma HeldAbove(s: State, t: Tid, i: nat, x: Node, w: Node)
    requires Inv(s) && t < |s.threads| && i < |s.threads[t]| && Holds(s, s.threads[t][i], x)
    requires Top(s.threads[t]).node < |s.ctxs| && Waits(s, Top(s.threads[t])) == Some(w)
    ensures Ancestor(s, x, w)
  {
    var stack := s.threads[t];
    var f := Top(stack);
    assert i != |stack| - 1;
    if IsAttachFrame(f, f.node) || IsRemoveFrame(f) || f.Arm? {
      NothingHeldBelowAttach(s, t, x);
      assert false;
    }
    HeldBelow(s, t, i, |stack| - 1, x);
  }

  /** A goroutine waiting for no mutex, or for one at or after b in creation order, leads to one that can run. */
  lemma {:induction false} Progress(s: State, t: Tid, b: nat, expired: bool) returns (u: Tid, child: Node)
    requires Inv(s) && t < |s.threads| && s.threads[t] != []
    requires Top(s.threads[t]).node < |s.ctxs|
    requires forall w :: Waits(s, Top(s.threads[t])) == Some(w) ==> b <= w
    ensures CanRun(s, u, child, expired)
    decreases |s.ctxs| - b
  {
    var f := Top(s.threads[t]);
    assert FrameInv(s, t, |s.threads[t]| - 1) && CtxInv(s, f.node);
    var w := Waits(s, f);
    if w.None? || s.ctxs[w.value].lock.None? {
      u, child := t, 0;
      if f.Looping? && f.pending != {} { child :| child in f.pending; }
    } else {
      var x := w.value;
      assert CtxInv(s, x);
      var v := s.ctxs[x].lock.value;
      var i: nat :| i < |s.threads[v]| && Holds(s, s.threads[v][i], x);
      var g := Top(s.threads[v]);
      assert FrameInv(s, v, |s.threads[v]| - 1);
      if Waits(s, g).Some? {
        HeldAbove(s, v, i, x, Waits(s, g).value);
        AncestorIsOlder(s, x, Waits(s, g).value);
      }
      u, child := Progress(s, v, x + 1, expired);
    }
  }

  /** In every interleaving, while some call has not finished, some goroutine can take a step. */
  lemma NoDeadlock(run: seq<Action>, t: Tid, expired: bool)
    requires Exec(run).Some? && t < |Exec(run).value.threads| && Exec(run).value.threads[t] != []
    ensures exists u, child :: CanRun(Exec(run).value, u, child, expired)
  {
    ReachableInv(run);
    var s := Exec(run).value;
    assert FrameInv(s, t, |s.threads[t]| - 1);
    var u, child := Progress(s, t, 0, expired);
  }

  // ---------- every call ends ----------

  /** How many steps a frame may lead to, the cancelling of contexts that are not cancelled yet aside. */
  function FrameWork(f: Frame): nat
  {
    match f
    case WantLock(_, _, _) => 5
    case Looping(_, _, _, pending) => 5 + 6 * |pending|
    case WantRemove(_) => 4
    case CheckRemove(_) => 3
    case Delete(_) => 2
    case WantStop(_) => 1
    case AskDone(_) => 11
    case Select(_) => 10
    case AskErr(_) => 7
    case FindParent(_) => 9
    case CheckParent(_) => 8
    case WantParent(_) => 7
    case HoldParent(_) => 1
    case Linked(_) => 1
    case Watcher(_) => 1
    case Arm(_) => 6
  }

  function StackWork(stack: seq<Frame>): nat
  {
    if stack == [] then 0 else StackWork(Pop(stack)) + FrameWork(Top(stack))
  }

  function ThreadsWork(threads: seq<seq<Frame>>): nat
  {
    if threads == [] then 0 else ThreadsWork(threads[..|threads| - 1]) + StackWork(threads[|threads| - 1])
  }

  /** How many contexts can still be cancelled. */
  function Live(ctxs: seq<Ctx>): nat
  {
    if ctxs == [] then 0 else Live(ctxs[..|ctxs| - 1]) + if ctxs[|ctxs| - 1].err.None? then 1 else 0
  }

  /** Cancelling one context may take a step for each of its children. */
  function CancelWork(size: nat): nat { 6 * size + 1 }

  function Work(s: State): nat { ThreadsWork(s.threads) + Times(Live(s.ctxs), CancelWork(|s.ctxs|)) }

  lemma {:induction false} StackWorkAppend(a: seq<Frame>, b: seq<Frame>)
    ensures StackWork(a + b) == StackWork(a) + StackWork(b)
  {
    if b == [] {
      assert a + b == a;
    } else {
      StackWorkAppend(a, Pop(b));
      assert Pop(a + b) == a + Pop(b) && Top(a + b) == Top(b);
    }
  }

  lemma {:induction false} ThreadsWorkUpdate(threads: seq<seq<Frame>>, t: Tid, stack: seq<Frame>)
    requires t < |threads|
    ensures ThreadsWork(threads[t := stack]) == ThreadsWork(threads) - StackWork(threads[t]) + StackWork(stack)
  {
    var front := threads[..|threads| - 1];
    if t == |threads| - 1 {
      assert threads[t := stack][..|threads| - 1] == front;
    } else {
      ThreadsWorkUpdate(front, t, stack);
      assert threads[t := stack][..|threads| - 1] == front[t := stack];
    }
  }

  /** Errors are only ever set, for the contexts of the set at most. */
  lemma {:induction false} LiveLess(cs: seq<Ctx>, cs': seq<Ctx>, n: Option<Node>)
    requires |cs'| == |cs| && forall i :: 0 <= i < |cs| && n != Some(i) ==> (cs'[i].err.None? <==> cs[i].err.None?)
    requires n.Some? ==> n.value < |cs| && cs[n.value].err.None? && cs'[n.value].err.Some?
    ensures Live(cs) == Live(cs') + if n.Some? then 1 else 0
  {
    if cs != [] {
      var k := |cs| - 1;
      LiveLess(cs[..k], cs'[..k], if n == Some(k) then None else n);
    }
  }

  /** The children of a context are no more than there are contexts. */
  lemma ChildrenFew(s: State, n: Node)
    requires Inv(s) && n < |s.ctxs|
    ensures |s.ctxs[n].children| <= |s.ctxs|
  {
    assert CtxInv(s, n);
    Below(s.ctxs[n].children, |s.ctxs|);
  }

  lemma {:induction false} Below(a: set<nat>, size: nat)
    requires forall d :: d in a ==> d < size
    ensures |a| <= size
  {
    if size == 0 {
      assert a == {};
    } else {
      Below(a - {size - 1}, size - 1);
    }
  }

  /** The frames that replace the top one have less to do, unless the step cancels a context. */
  lemma FramesUseWork(s: State, t: Tid, child: Node, expired: bool)
    requires Running(s, t, child, expired)
    ensures var f := Top(s.threads[t]);
            StackWork(Next(s, t, f, child, expired).1) <
            FrameWork(f) + if f.WantLock? && s.ctxs[f.node].err.None? then CancelWork(|s.ctxs|) else 0
  {
    AtTop(s, t);
    var f := Top(s.threads[t]);
    ChildrenFew(s, f.node);
    OneFrame(Next(s, t, f, child, expired).1);
  }

  lemma OneFrame(news: seq<Frame>)
    ensures |news| == 0 ==> StackWork(news) == 0
    ensures |news| == 1 ==> StackWork(news) == FrameWork(news[0])
    ensures |news| == 2 ==> StackWork(news) == FrameWork(news[0]) + FrameWork(news[1])
  {
    if |news| == 1 { assert Pop(news) == []; }
    if |news| == 2 { assert Pop(news) == [news[0]] && Pop([news[0]]) == []; }
  }

  /** The contexts of a step: at most the one that is cancelled gets an error. */
  lemma LiveAfter(s: State, t: Tid, child: Node, expired: bool)
    requires Running(s, t, child, expired)
    ensures var f := Top(s.threads[t]);
            |RunStep(s, t, child, expired).ctxs| == |s.ctxs| &&
            Live(s.ctxs) == Live(RunStep(s, t, child, expired).ctxs) + if f.WantLock? && s.ctxs[f.node].err.None? then 1 else 0
  {
    AtTop(s, t);
    var f := Top(s.threads[t]);
    var s' := RunStep(s, t, child, expired);
    var a := Run(t, child, expired);
    forall i | 0 <= i < |s.ctxs| && !(f.WantLock? && f.node == i) ensures s'.ctxs[i].err == s.ctxs[i].err { ErrSetByClose(s, a, i); }
    ErrSetByClose(s, a, f.node);
    LiveLess(s.ctxs, s'.ctxs, if f.WantLock? && s.ctxs[f.node].err.None? then Some(f.node) else None);
  }

  /** Every step of a goroutine uses work up. */
  lemma StepUsesWork(s: State, t: Tid, child: Node, expired: bool)
    requires Running(s, t, child, expired)
    ensures Work(RunStep(s, t, child, expired)) < Work(s)
  {
    var stack := s.threads[t];
    var news := Next(s, t, Top(stack), child, expired).1;
    FramesUseWork(s, t, child, expired);
    LiveAfter(s, t, child, expired);
    StackWorkAppend(Pop(stack), news);
    ThreadsWorkUpdate(s.threads, t, Pop(stack) + news);
  }

  lemma {:induction false} RunUsesWork(run: seq<Action>, more: seq<Action>)
    requires Exec(run + more).Some? && forall i :: 0 <= i < |more| ==> more[i].Run?
    ensures Exec(run).Some? && Work(Exec(run + more).value) + |more| <= Work(Exec(run).value)
  {
    if more == [] {
      assert run + more == run;
    } else {
      var before, a := more[..|more| - 1], more[|more| - 1];
      assert (run + more)[..|run + more| - 1] == run + before;
      RunUsesWork(run, before);
      ReachableInv(run + before);
      StepUsesWork(Exec(run + before).value, a.t, a.child, a.expired);
    }
  }

  function Frames(threads: seq<seq<Frame>>): nat
  {
    if threads == [] then 0 else Frames(threads[..|threads| - 1]) + |threads[|threads| - 1]|
  }

  function MostSteps(s: State): nat
  {
    var n := |s.ctxs|;
    (6 * n + 11) * Frames(s.threads) + (6 * n + 1) * n
  }

  /**
   * However the goroutines are scheduled, they are soon through: without new
   * calls no run goes on for more steps than this.
   */
  lemma EveryScheduleEnds(run: seq<Action>, more: seq<Action>)
    requires Exec(run + more).Some? && forall i :: 0 <= i < |more| ==> more[i].Run?
    ensures Exec(run).Some?
    ensures |more| <= MostSteps(Exec(run).value)
  {
    RunUsesWork(run, more);
    ReachableInv(run);
    WorkBound(Exec(run).value);
  }

  lemma WorkBound(s: State)
    requires Inv(s)
    ensures Work(s) <= MostSteps(s)
  {
    var n := |s.ctxs|;
    forall t: nat, i: nat | t < |s.threads| && i < |s.threads[t]| ensures FrameWork(s.threads[t][i]) <= 6 * n + 11 {
      FrameBound(s, t, i);
    }
    ThreadsBound(s.threads, 6 * n + 11);
    LiveBound(s.ctxs);
    TimesBound(Live(s.ctxs), n, CancelWork(n));
  }

  lemma FrameBound(s: State, t: Tid, i: nat)
    requires Inv(s) && t < |s.threads| && i < |s.threads[t]|
    ensures FrameWork(s.threads[t][i]) <= 6 * |s.ctxs| + 11
  {
    assert FrameInv(s, t, i);
    var f := s.threads[t][i];
    if f.Looping? {
      assert CtxInv(s, f.node);
      Below(f.pending, |s.ctxs|);
    }
  }

  lemma Distribute(m: nat, a: nat, b: nat)
    ensures m * (a + b) == m * a + m * b
  {
  }

  lemma {:induction false} StackBound(stack: seq<Frame>, most: nat)
    requires forall i :: 0 <= i < |stack| ==> FrameWork(stack[i]) <= most
    ensures StackWork(stack) <= most * |stack|
  {
    if stack != [] {
      StackBound(Pop(stack), most);
      Distribute(most, |Pop(stack)|, 1);
    }
  }

  lemma {:induction false} ThreadsBound(threads: seq<seq<Frame>>, most: nat)
    requires forall t: nat, i: nat :: t < |threads| && i < |threads[t]| ==> FrameWork(threads[t][i]) <= most
    ensures ThreadsWork(threads) <= most * Frames(threads)
  {
    if threads != [] {
      var front, last := threads[..|threads| - 1], threads[|threads| - 1];
      ThreadsBound(front, most);
      StackBound(last, most);
      Distribute(most, Frames(front), |last|);
    }
  }

  lemma {:induction false} LiveBound(ctxs: seq<Ctx>)
    ensures Live(ctxs) <= |ctxs|
  {
    if ctxs != [] { LiveBound(ctxs[..|ctxs| - 1]); }
  }

  lemma {:induction false} TimesBound(n: nat, m: nat, d: nat)
    requires n <= m
    ensures Times(n, d) <= d * m
  {
    if n > 0 {
      TimesBound(n - 1, m - 1, d);
      Distribute(d, m - 1, 1);
    }
  }

  /** And when no goroutine can take a step any more, every call has returned. */
  lemma StuckMeansDone(run: seq<Action>, t: Tid)
    requires Exec(run).Some? && t < |Exec(run).value.threads|
    requires forall u, child, expired :: !CanRun(Exec(run).value, u, child, expired)
    ensures Exec(run).value.threads[t] == []
  {
    if Exec(run).value.threads[t] != [] { NoDeadlock(run, t, false); }
  }
}
