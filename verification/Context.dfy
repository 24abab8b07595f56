/**
 * The cancellation tree of src/context/context.go as a state machine: contexts
 * under their own mutexes, any number of goroutines creating contexts, calling
 * cancel functions and firing timers, and every interleaving of their critical
 * sections.
 *
 * A parent is the nearest enclosing cancelCtx, which is what parentCancelCtx
 * finds; a parentless context hangs off a context that is never cancelled.
 */
module Context {
  import opened Wrappers

  datatype Err = Canceled | DeadlineExceeded

  /** cancelCtx.done: not made yet, this context's own channel, or the shared closedchan. */
  datatype Done = NoChan | Own(closed: bool) | SharedClosed

  datatype Timer = NoTimer | Armed | Fired

  type Node = nat
  type Tid = nat

  /**
   * A cancelCtx, or a timerCtx when timed. The last three fields are bookkeeping:
   * whether propagateCancel has finished for it, whether the loop over its
   * children is running, and the goroutine that makes it.
   */
  datatype Ctx = Ctx(
    parent: Option<Node>, timed: bool,
    done: Done, children: set<Node>, err: Option<Err>, lock: Option<Tid>, timer: Timer,
    attached: bool, sweeping: bool, maker: Tid)

  /** Where a call stands; one frame for each call on a goroutine's stack. */
  datatype Frame =
    | WantLock(node: Node, e: Err, remove: bool)                         // cancel, before c.mu.Lock
    | Looping(node: Node, e: Err, remove: bool, pending: set<Node>)      // inside the loop over children
    | WantRemove(node: Node)                                             // removeChild: parentCancelCtx, parent.Done()
    | CheckRemove(node: Node)                                            // and p.done == done, under p.mu
    | Delete(node: Node)                                                 // delete(p.children, child), under p.mu
    | WantStop(node: Node)                                               // timerCtx.cancel, before stopping the timer
    | AskDone(node: Node)                                                // propagateCancel: done := parent.Done()
    | Select(node: Node)                                                 // select on done
    | AskErr(node: Node)                                                 // child.cancel(false, parent.Err())
    | FindParent(node: Node)                                             // parentCancelCtx: parent.Done()
    | CheckParent(node: Node)                                            // and p.done == done, under p.mu
    | WantParent(node: Node)                                             // p.mu.Lock
    | HoldParent(node: Node)                                             // cancelling the child under p.mu
    | Linked(node: Node)                                                 // cancelling the child without p.mu
    | Watcher(node: Node)                                                // the goroutine for foreign parents
    | Arm(node: Node)                                                    // the rest of WithDeadline

  datatype State = State(ctxs: seq<Ctx>, threads: seq<seq<Frame>>)

  datatype Action =
    | Create(parent: Option<Node>, timed: bool)
    | CallCancel(node: Node, remove: bool)
    | CallDone(node: Node)
    | Fire(node: Node)
    | Run(t: Tid, child: Node, expired: bool)

  // ---------- the steps ----------

  predicate IsClosed(d: Done) { d.SharedClosed? || (d.Own? && d.closed) }

  /** Done() makes the channel on first use. */
  function Touch(d: Done): Done { if d.NoChan? then Own(false) else d }

  /** cancel closes the channel, or installs closedchan when there is none. */
  function Close(d: Done): Done { if d.NoChan? then SharedClosed else Own(true) }

  predicate HasParent(s: State, n: Node)
  {
    n < |s.ctxs| && s.ctxs[n].parent.Some? && s.ctxs[n].parent.value < |s.ctxs|
  }

  function Parent(s: State, n: Node): Node
    requires HasParent(s, n)
  {
    s.ctxs[n].parent.value
  }

  predicate Free(s: State, n: Node) { n < |s.ctxs| && s.ctxs[n].lock.None? }

  function Put(s: State, n: Node, c: Ctx): State
    requires n < |s.ctxs|
  {
    s.(ctxs := s.ctxs[n := c])
  }

  function Spawn(s: State, stack: seq<Frame>): State { s.(threads := s.threads + [stack]) }

  function Pop(stack: seq<Frame>): seq<Frame>
    requires stack != []
  {
    stack[..|stack| - 1]
  }

  function Top(stack: seq<Frame>): Frame
    requires stack != []
  {
    stack[|stack| - 1]
  }

  /** What a cancel call does once c.mu is released. */
  function AfterUnlock(timed: bool, n: Node, remove: bool): seq<Frame>
  {
    if remove then [WantRemove(n)] else AfterRemove(timed, n)
  }

  /** And once removeChild has returned. */
  function AfterRemove(timed: bool, n: Node): seq<Frame> { if timed then [WantStop(n)] else [] }

  predicate IsRemoveFrame(f: Frame) { f.WantRemove? || f.CheckRemove? || f.Delete? }

  predicate CanRun(s: State, t: Tid, child: Node, expired: bool)
  {
    t < |s.threads| && s.threads[t] != [] && TopCanRun(s, Top(s.threads[t]), child, expired)
  }

  predicate TopCanRun(s: State, f: Frame, child: Node, expired: bool)
  {
    f.node < |s.ctxs| &&
    match f
    case WantLock(n, _, _) => Free(s, n)
    case Looping(_, _, _, pending) => pending == {} || child in pending
    case WantRemove(n) => HasParent(s, n) ==> Free(s, Parent(s, n))
    case CheckRemove(n) => HasParent(s, n) && Free(s, Parent(s, n))
    case Delete(n) => HasParent(s, n) && Free(s, Parent(s, n))
    case WantStop(n) => Free(s, n)
    case AskDone(n) => HasParent(s, n) && Free(s, Parent(s, n))
    case Select(n) => HasParent(s, n)
    case AskErr(n) => HasParent(s, n) && Free(s, Parent(s, n)) && s.ctxs[Parent(s, n)].err.Some?
    case FindParent(n) => HasParent(s, n) && Free(s, Parent(s, n))
    case CheckParent(n) => HasParent(s, n) && Free(s, Parent(s, n))
    case WantParent(n) => HasParent(s, n) && Free(s, Parent(s, n))
    case HoldParent(n) => HasParent(s, n)
    case Linked(_) => true
    case Watcher(_) => true
    case Arm(n) => expired || Free(s, n)
  }

  /**
   * How the innermost call f of goroutine t moves on: the contexts after it, and
   * the frames that take the place of f.
   */
  function Next(s: State, t: Tid, f: Frame, child: Node, expired: bool): (seq<Ctx>, seq<Frame>)
    requires TopCanRun(s, f, child, expired)
  {
    var n := f.node;
    var cs := s.ctxs;
    var c := cs[n];
    match f
    case WantLock(_, e, remove) =>
      if c.err.Some? then
        // already canceled: cancelCtx.cancel returns, timerCtx.cancel goes on
        (cs, if c.timed then AfterUnlock(true, n, remove) else [])
      else
        (cs[n := c.(err := Some(e), done := Close(c.done), lock := Some(t), sweeping := true)],
         [Looping(n, e, remove, c.children)])
    case Looping(_, e, remove, pending) =>
      if pending != {} then
        // child.cancel(false, err) while holding c.mu
        (cs, [Looping(n, e, remove, pending - {child}), WantLock(child, e, false)])
      else
        (cs[n := c.(children := {}, lock := None, sweeping := false)], AfterUnlock(c.timed, n, remove))
    case WantRemove(_) =>
      if HasParent(s, n) then
        var p := Parent(s, n);
        (cs[p := cs[p].(done := Touch(cs[p].done))], if cs[p].done.SharedClosed? then AfterRemove(c.timed, n) else [CheckRemove(n)])
      else (cs, AfterRemove(c.timed, n))
    case CheckRemove(_) => (cs, if cs[Parent(s, n)].done.Own? then [Delete(n)] else AfterRemove(c.timed, n))
    case Delete(_) =>
      var p := Parent(s, n);
      (cs[p := cs[p].(children := cs[p].children - {n})], AfterRemove(c.timed, n))
    case WantStop(_) => (cs[n := c.(timer := NoTimer)], [])
    case AskDone(_) =>
      var p := Parent(s, n);
      (cs[p := cs[p].(done := Touch(cs[p].done))], [Select(n)])
    case Select(_) =>
      (cs, if IsClosed(cs[Parent(s, n)].done) then [AskErr(n)] else [FindParent(n)])
    case AskErr(_) =>
      (cs, [Linked(n), WantLock(n, cs[Parent(s, n)].err.value, false)])
    case FindParent(_) =>
      (cs, if cs[Parent(s, n)].done.SharedClosed? then [Watcher(n)] else [CheckParent(n)])
    case CheckParent(_) =>
      (cs, if cs[Parent(s, n)].done.Own? then [WantParent(n)] else [Watcher(n)])
    case WantParent(_) =>
      var p := Parent(s, n);
      var d := cs[p];
      if d.err.Some? then
        (cs[p := d.(lock := Some(t))], [HoldParent(n), WantLock(n, d.err.value, false)])
      else
        // lock, insert, unlock
        (MarkAttached(cs[p := d.(children := d.children + {n})], n), [])
    case HoldParent(_) =>
      var p := Parent(s, n);
      (MarkAttached(cs[p := cs[p].(lock := None)], n), [])
    case Linked(_) => (MarkAttached(cs, n), [])
    case Watcher(_) => (cs, [])
    case Arm(_) =>
      if expired then
        (cs, [WantLock(n, DeadlineExceeded, true)])
      else
        (cs[n := if c.err.None? then c.(timer := Armed) else c], [])
  }

  function MarkAttached(cs: seq<Ctx>, n: Node): seq<Ctx>
    requires n < |cs|
  {
    cs[n := cs[n].(attached := true)]
  }

  /** One step of the goroutine t. */
  function RunStep(s: State, t: Tid, child: Node, expired: bool): State
    requires CanRun(s, t, child, expired)
  {
    var stack := s.threads[t];
    var (ctxs, news) := Next(s, t, Top(stack), child, expired);
    State(ctxs, s.threads[t := Pop(stack) + news])
  }

  predicate Enabled(s: State, a: Action)
  {
    match a
    case Create(parent, _) => parent.Some? ==> parent.value < |s.ctxs| && s.ctxs[parent.value].attached
    case CallCancel(n, remove) =>
      // WithDeadline hands out cancel(false, Canceled) only for a context that it has cancelled itself
      n < |s.ctxs| && s.ctxs[n].attached && (!remove ==> s.ctxs[n].timed && s.ctxs[n].err.Some?)
    case CallDone(n) => Free(s, n)
    case Fire(n) => n < |s.ctxs| && s.ctxs[n].timer == Armed
    case Run(t, child, expired) => CanRun(s, t, child, expired)
  }

  function Apply(s: State, a: Action): State
    requires Enabled(s, a)
  {
    match a
    case Create(parent, timed) =>
      // WithCancel or WithDeadline; a parent without a done channel needs no linking
      var n := |s.ctxs|;
      var c := Ctx(parent, timed, NoChan, {}, None, None, NoTimer, parent.None?, false, |s.threads|);
      var tail := if parent.Some? then [AskDone(n)] else [];
      Spawn(s.(ctxs := s.ctxs + [c]), (if timed then [Arm(n)] else []) + tail)
    case CallCancel(n, remove) => Spawn(s, [WantLock(n, Canceled, remove)])
    case CallDone(n) => Put(s, n, s.ctxs[n].(done := Touch(s.ctxs[n].done)))
    case Fire(n) => Spawn(Put(s, n, s.ctxs[n].(timer := Fired)), [WantLock(n, DeadlineExceeded, true)])
    case Run(t, child, expired) => RunStep(s, t, child, expired)
  }

  /** The state after a run, if every action of the run was possible when it came. */
  function Exec(run: seq<Action>): Option<State>
  {
    if run == [] then Some(State([], []))
    else
      var before := Exec(run[..|run| - 1]);
      var a := run[|run| - 1];
      if before.Some? && Enabled(before.value, a) then Some(Apply(before.value, a)) else None
  }

  // ---------- the invariant ----------

  /** Cancelled, and no longer handing the cancellation down. */
  predicate Settled(s: State, n: Node)
  {
    n < |s.ctxs| && s.ctxs[n].err.Some? && !s.ctxs[n].sweeping
  }

  predicate IsCancelFrame(f: Frame, n: Node)
  {
    f.node == n && ((f.WantLock? && !f.remove) || (f.Looping? && !f.remove) || f.WantStop?)
  }

  predicate IsAttachFrame(f: Frame, n: Node)
  {
    f.node == n &&
    (f.AskDone? || f.Select? || f.AskErr? || f.FindParent? || f.CheckParent? || f.WantParent? || f.HoldParent? || f.Linked?)
  }

  /** Which frame may sit directly on top of which. */
  predicate MayCall(s: State, below: Frame, above: Frame)
  {
    match below
    case Looping(n, _, _, pending) => above.node < |s.ctxs| && s.ctxs[above.node].parent == Some(n) && IsCancelFrame(above, above.node)
    case HoldParent(n) => IsCancelFrame(above, n)
    case Linked(n) => IsCancelFrame(above, n)
    case Arm(n) => IsAttachFrame(above, n)
    case _ => false
  }

  /** The context whose mutex a frame holds. */
  predicate Holds(s: State, f: Frame, n: Node)
  {
    (f.Looping? && f.node == n) || (f.HoldParent? && HasParent(s, f.node) && Parent(s, f.node) == n)
  }

  ghost predicate FrameInv(s: State, t: Tid, i: nat)
    requires t < |s.threads| && i < |s.threads[t]|
  {
    var stack := s.threads[t];
    var f := stack[i];
    var last := i == |stack| - 1;
    f.node < |s.ctxs| &&
    (i > 0 ==> MayCall(s, stack[i - 1], f)) &&
    match f
    case WantLock(_, _, remove) => last && (remove ==> i == 0)
    case Looping(n, _, remove, pending) =>
      (remove ==> i == 0) && s.ctxs[n].lock == Some(t) && s.ctxs[n].sweeping && s.ctxs[n].err.Some? &&
      pending <= s.ctxs[n].children &&
      forall d :: d in s.ctxs[n].children ==>
        d in pending || Settled(s, d) || (!last && stack[i + 1].node == d)
    case WantRemove(n) => last && i == 0 && Settled(s, n)
    case CheckRemove(n) => last && i == 0 && Settled(s, n) && HasParent(s, n) && s.ctxs[Parent(s, n)].done.Own?
    case Delete(n) => last && i == 0 && Settled(s, n) && HasParent(s, n)
    case WantStop(n) => last && Settled(s, n)
    case AskDone(n) => last && HasParent(s, n)
    case Select(n) => last && HasParent(s, n) && !s.ctxs[Parent(s, n)].done.NoChan?
    case AskErr(n) => last && HasParent(s, n) && s.ctxs[Parent(s, n)].err.Some?
    case FindParent(n) => last && HasParent(s, n) && s.ctxs[Parent(s, n)].done.Own?
    case CheckParent(n) => last && HasParent(s, n) && s.ctxs[Parent(s, n)].done.Own?
    case WantParent(n) => last && HasParent(s, n) && s.ctxs[Parent(s, n)].done.Own?
    case HoldParent(n) =>
      HasParent(s, n) && s.ctxs[Parent(s, n)].lock == Some(t) &&
      s.ctxs[Parent(s, n)].err.Some? && !s.ctxs[Parent(s, n)].sweeping && (last ==> Settled(s, n))
    case Linked(n) => last ==> Settled(s, n)
    case Watcher(_) => false
    case Arm(_) => i == 0
  }

  ghost predicate HolderExists(s: State, n: Node, t: Tid)
  {
    t < |s.threads| && exists i: nat :: i < |s.threads[t]| && Holds(s, s.threads[t][i], n)
  }

  ghost predicate CtxInv(s: State, n: Node)
    requires n < |s.ctxs|
  {
    var c := s.ctxs[n];
    (c.parent.Some? ==> c.parent.value < n) &&
    (IsClosed(c.done) <==> c.err.Some?) &&
    (c.lock.Some? ==> HolderExists(s, n, c.lock.value)) &&
    (c.sweeping ==> c.lock.Some?) &&
    (c.err.Some? && !c.sweeping ==> c.children == {}) &&
    (c.attached && c.parent.Some? ==> n in s.ctxs[c.parent.value].children || Settled(s, n)) &&
    (forall d :: d in c.children ==> d < |s.ctxs| && s.ctxs[d].parent == Some(n))
  }

  ghost predicate AllCtxs(s: State)
  {
    forall n: nat :: n < |s.ctxs| ==> CtxInv(s, n)
  }

  ghost predicate AllFrames(s: State)
  {
    forall t: nat, i: nat :: t < |s.threads| && i < |s.threads[t]| ==> FrameInv(s, t, i)
  }

  ghost predicate Inv(s: State) { AllCtxs(s) && AllFrames(s) }

  // ---------- what one step leaves alone ----------

  /** How a context may change in a step of goroutine t, seen by the others. */
  ghost predicate CtxStable(c: Ctx, c': Ctx, t: Tid)
  {
    c'.parent == c.parent && c'.timed == c.timed && c'.maker == c.maker &&
    (c.err.Some? ==> c'.err == c.err) &&
    (IsClosed(c.done) ==> IsClosed(c'.done)) &&
    (!c.done.NoChan? ==> !c'.done.NoChan?) && (c.done.Own? ==> c'.done.Own?) &&
    (c.attached ==> c'.attached) &&
    (c.err.Some? && !c.sweeping ==> !c'.sweeping) &&
    (c.lock.Some? && c.lock != Some(t) ==>
      c'.lock == c.lock && c'.children == c.children && c'.sweeping == c.sweeping)
  }

  ghost predicate Stable(s: State, s': State, t: Tid)
  {
    |s.ctxs| <= |s'.ctxs| && forall n: nat :: n < |s.ctxs| ==> CtxStable(s.ctxs[n], s'.ctxs[n], t)
  }

  lemma SettledStable(s: State, s': State, t: Tid, n: Node)
    requires Stable(s, s', t) && Settled(s, n)
    ensures Settled(s', n)
  {
  }

  /** A frame of another goroutine keeps its invariant. */
  lemma FrameStable(s: State, s': State, t: Tid, u: Tid, i: nat)
    requires u < |s.threads| && u < |s'.threads| && s'.threads[u] == s.threads[u] && i < |s.threads[u]|
    requires u != t && Stable(s, s', t) && FrameInv(s, u, i)
    ensures FrameInv(s', u, i)
  {
    var f := s.threads[u][i];
    var n := f.node;
    if f.Looping? {
      forall d | d in s.ctxs[n].children && Settled(s, d) ensures Settled(s', d) { SettledStable(s, s', t, d); }
    }
    if Settled(s, n) { SettledStable(s, s', t, n); }
  }

  lemma HolderStable(s: State, s': State, t: Tid, n: Node, u: Tid)
    requires Stable(s, s', t) && HolderExists(s, n, u) && u < |s'.threads| && s'.threads[u] == s.threads[u]
    requires forall i: nat :: i < |s.threads[u]| ==> s.threads[u][i].node < |s.ctxs|
    ensures HolderExists(s', n, u)
  {
    var i: nat :| i < |s.threads[u]| && Holds(s, s.threads[u][i], n);
    assert Holds(s', s'.threads[u][i], n);
  }

  /** x is a proper ancestor of n. */
  predicate Ancestor(s: State, x: Node, n: Node)
    decreases n
  {
    HasParent(s, n) && Parent(s, n) < n && (Parent(s, n) == x || Ancestor(s, x, Parent(s, n)))
  }

  lemma {:induction false} AncestorIsOlder(s: State, x: Node, n: Node)
    requires Ancestor(s, x, n)
    ensures x < n
    decreases n
  {
    if Parent(s, n) != x { AncestorIsOlder(s, x, Parent(s, n)); }
  }

  /** A mutex held further down a stack belongs to an ancestor of every context above it. */
  lemma {:induction false} HeldBelow(s: State, t: Tid, i: nat, j: nat, x: Node)
    requires Inv(s) && t < |s.threads| && i < j < |s.threads[t]| && Holds(s, s.threads[t][i], x)
    ensures Ancestor(s, x, s.threads[t][j].node)
    decreases j
  {
    var stack := s.threads[t];
    assert FrameInv(s, t, i) && FrameInv(s, t, j) && FrameInv(s, t, j - 1);
    assert MayCall(s, stack[j - 1], stack[j]);
    if i < j - 1 { HeldBelow(s, t, i, j - 1, x); }
    assert CtxInv(s, stack[i].node) && CtxInv(s, stack[j].node);
  }

  /** Below a call of propagateCancel no mutex is held. */
  lemma NothingHeldBelowAttach(s: State, t: Tid, x: Node)
    requires Inv(s) && t < |s.threads| && s.threads[t] != []
    requires var f := Top(s.threads[t]); IsAttachFrame(f, f.node) || IsRemoveFrame(f) || f.Arm?
    ensures |s.threads[t]| <= 2
    ensures |s.threads[t]| == 2 ==> s.threads[t][0].Arm?
  {
    var stack := s.threads[t];
    var top := |stack| - 1;
    assert FrameInv(s, t, top);
    if top > 0 {
      assert MayCall(s, stack[top - 1], stack[top]);
      assert stack[top - 1].Arm?;
      assert FrameInv(s, t, top - 1);
    }
  }

  // ---------- one step keeps the invariant ----------

  /** What a goroutine may assume of the contexts locked further down its stack. */
  ghost predicate LowerKept(s: State, s': State, rest: seq<Frame>)
  {
    forall i: nat, x: nat :: i < |rest| && x < |s.ctxs| && Holds(s, rest[i], x) ==>
      x < |s'.ctxs| && s'.ctxs[x] == s.ctxs[x]
  }

  /** The caller of a frame that changes or returns is told what it needs. */
  ghost predicate CallerTold(s': State, rest: seq<Frame>, f: Frame, news: seq<Frame>)
  {
    rest != [] ==>
      if news == [] then Top(rest).Arm? || Settled(s', f.node)
      else news[0].node == f.node && MayCall(s', Top(rest), news[0])
  }

  /** A frame below the top of the running goroutine keeps its invariant. */
  lemma LowerFrameKept(s: State, s': State, t: Tid, news: seq<Frame>, i: nat)
    requires Inv(s) && t < |s.threads| && s.threads[t] != []
    requires s'.threads == s.threads[t := Pop(s.threads[t]) + news] && Stable(s, s', t)
    requires LowerKept(s, s', Pop(s.threads[t])) && CallerTold(s', Pop(s.threads[t]), Top(s.threads[t]), news)
    requires i < |s.threads[t]| - 1
    ensures FrameInv(s', t, i)
  {
    var stack := s.threads[t];
    var rest := Pop(stack);
    var f := stack[i];
    assert rest[i] == f;
    var above := stack[i + 1];
    assert FrameInv(s, t, i) && FrameInv(s, t, i + 1);
    assert MayCall(s, f, above);
    var n := f.node;
    if i > 0 {
      assert MayCall(s, stack[i - 1], f);
      assert MayCall(s', stack[i - 1], f);
    }
    match f
    case Looping(_, _, _, pending) =>
      assert Holds(s, f, n);
      assert s'.ctxs[n] == s.ctxs[n];
      forall d | d in s.ctxs[n].children && d !in pending
        ensures Settled(s', d) || (i < |s'.threads[t]| - 1 && s'.threads[t][i + 1].node == d)
      {
        if Settled(s, d) { SettledStable(s, s', t, d); }
      }
    case HoldParent(_) =>
      assert Holds(s, f, Parent(s, n));
    case Linked(_) =>
    case Arm(_) =>
  }

  lemma FramesAfter(s: State, s': State, t: Tid, news: seq<Frame>)
    requires Inv(s) && t < |s.threads| && s.threads[t] != []
    requires s'.threads == s.threads[t := Pop(s.threads[t]) + news] && Stable(s, s', t)
    requires LowerKept(s, s', Pop(s.threads[t])) && CallerTold(s', Pop(s.threads[t]), Top(s.threads[t]), news)
    requires forall i: nat :: |s.threads[t]| - 1 <= i < |s'.threads[t]| ==> FrameInv(s', t, i)
    ensures AllFrames(s')
  {
    forall u: nat, i: nat | u < |s'.threads| && i < |s'.threads[u]| ensures FrameInv(s', u, i) {
      if u != t {
        assert FrameInv(s, u, i);
        FrameStable(s, s', t, u, i);
      } else if i < |s.threads[t]| - 1 {
        LowerFrameKept(s, s', t, news, i);
      }
    }
  }

  /** Every lock but those of the top frame of t keeps its holder. */
  lemma HolderKept(s: State, s': State, t: Tid, news: seq<Frame>, n: Node)
    requires Inv(s) && t < |s.threads| && s.threads[t] != [] && n < |s.ctxs| && s.ctxs[n].lock.Some?
    requires s'.threads == s.threads[t := Pop(s.threads[t]) + news] && Stable(s, s', t)
    requires s.ctxs[n].lock == Some(t) ==> !Holds(s, Top(s.threads[t]), n)
    ensures HolderExists(s', n, s.ctxs[n].lock.value)
  {
    assert CtxInv(s, n);
    var u := s.ctxs[n].lock.value;
    var i: nat :| i < |s.threads[u]| && Holds(s, s.threads[u][i], n);
    assert FrameInv(s, u, i);
    assert s'.threads[u][i] == s.threads[u][i];
    assert Holds(s', s'.threads[u][i], n);
  }

  /** A context whose protocol fields a step leaves alone keeps its invariant. */
  lemma CtxKept(s: State, s': State, t: Tid, news: seq<Frame>, n: Node)
    requires Inv(s) && t < |s.threads| && s.threads[t] != [] && n < |s.ctxs| <= |s'.ctxs|
    requires s'.threads == s.threads[t := Pop(s.threads[t]) + news] && Stable(s, s', t)
    requires s.ctxs[n].lock == Some(t) ==> !Holds(s, Top(s.threads[t]), n)
    requires var c, c' := s.ctxs[n], s'.ctxs[n];
             c' == c.(done := c'.done, timer := c'.timer) && (c'.done == c.done || c'.done == Touch(c.done))
    requires HasParent(s, n) && s.ctxs[n].attached && n in s.ctxs[Parent(s, n)].children ==>
               n in s'.ctxs[Parent(s, n)].children || Settled(s, n)
    ensures CtxInv(s', n)
  {
    assert CtxInv(s, n);
    var c := s.ctxs[n];
    if c.lock.Some? { HolderKept(s, s', t, news, n); }
    if Settled(s, n) { SettledStable(s, s', t, n); }
  }

  lemma LowerKeptAbove(s: State, s': State, t: Tid)
    requires Inv(s) && t < |s.threads| && s.threads[t] != [] && |s.ctxs| <= |s'.ctxs|
    requires forall x: nat :: x < |s.ctxs| && x < Top(s.threads[t]).node ==> s'.ctxs[x] == s.ctxs[x]
    ensures LowerKept(s, s', Pop(s.threads[t]))
  {
    var stack := s.threads[t];
    forall i: nat, x: nat | i < |stack| - 1 && x < |s.ctxs| && Holds(s, Pop(stack)[i], x) ensures s'.ctxs[x] == s.ctxs[x] {
      assert Pop(stack)[i] == stack[i];
      HeldBelow(s, t, i, |stack| - 1, x);
      AncestorIsOlder(s, x, Top(stack).node);
    }
  }

  lemma LowerKeptAttaching(s: State, s': State, t: Tid)
    requires Inv(s) && t < |s.threads| && s.threads[t] != []
    requires var f := Top(s.threads[t]); IsAttachFrame(f, f.node) || IsRemoveFrame(f) || f.Arm?
    ensures LowerKept(s, s', Pop(s.threads[t]))
    ensures Pop(s.threads[t]) != [] ==> Top(Pop(s.threads[t])).Arm?
  {
    NothingHeldBelowAttach(s, t, 0);
    forall i: nat, x: nat | i < |Pop(s.threads[t])| && x < |s.ctxs| ensures !Holds(s, Pop(s.threads[t])[i], x) {
      assert Pop(s.threads[t])[i] == s.threads[t][0];
    }
  }

  /** A goroutine is running, and its top frame can move. */
  ghost predicate Running(s: State, t: Tid, child: Node, expired: bool)
  {
    Inv(s) && CanRun(s, t, child, expired)
  }

  /** The step from s to s' replaces the top frame of t by news and is fair to everything below. */
  ghost predicate Framed(s: State, s': State, t: Tid, news: seq<Frame>)
    requires t < |s.threads| && s.threads[t] != []
  {
    |s'.ctxs| == |s.ctxs| && s'.threads == s.threads[t := Pop(s.threads[t]) + news] && Stable(s, s', t) &&
    LowerKept(s, s', Pop(s.threads[t])) && CallerTold(s', Pop(s.threads[t]), Top(s.threads[t]), news) &&
    forall i: nat :: |s.threads[t]| - 1 <= i < |s'.threads[t]| ==> FrameInv(s', t, i)
  }

  /** The step leaves what the protocol needs of context n alone. */
  ghost predicate Untouched(s: State, s': State, t: Tid, n: Node)
    requires t < |s.threads| && s.threads[t] != [] && n < |s.ctxs| <= |s'.ctxs|
  {
    var c, c' := s.ctxs[n], s'.ctxs[n];
    (c.lock == Some(t) ==> !Holds(s, Top(s.threads[t]), n)) &&
    c' == c.(done := c'.done, timer := c'.timer) && (c'.done == c.done || c'.done == Touch(c.done)) &&
    (HasParent(s, n) && c.attached && n in s.ctxs[Parent(s, n)].children ==>
      n in s'.ctxs[Parent(s, n)].children || Settled(s, n))
  }

  /** A step only has to answer for its own frames and for the contexts it touches. */
  lemma StepOk(s: State, s': State, t: Tid, news: seq<Frame>)
    requires Inv(s) && t < |s.threads| && s.threads[t] != [] && Framed(s, s', t, news)
    requires forall n: nat :: n < |s.ctxs| ==> Untouched(s, s', t, n) || CtxInv(s', n)
    ensures Inv(s')
  {
    FramesAfter(s, s', t, news);
    forall n: nat | n < |s'.ctxs| ensures CtxInv(s', n) {
      if Untouched(s, s', t, n) { CtxKept(s, s', t, news, n); }
    }
  }

  /** What the running frame knows of its context and of its caller. */
  lemma AtTop(s: State, t: Tid)
    requires Inv(s) && t < |s.threads| && s.threads[t] != []
    ensures var f := Top(s.threads[t]);
            FrameInv(s, t, |s.threads[t]| - 1) && CtxInv(s, f.node) && (HasParent(s, f.node) ==> CtxInv(s, Parent(s, f.node)))
    ensures Pop(s.threads[t]) != [] ==> MayCall(s, Top(Pop(s.threads[t])), Top(s.threads[t]))
  {
    var stack := s.threads[t];
    assert FrameInv(s, t, |stack| - 1);
    if HasParent(s, Top(stack).node) { assert CtxInv(s, Parent(s, Top(stack).node)); }
    if |stack| > 1 { assert Top(Pop(stack)) == stack[|stack| - 2]; }
  }

  lemma StepWantLock(s: State, t: Tid, child: Node, expired: bool)
    requires Running(s, t, child, expired) && Top(s.threads[t]).WantLock?
    ensures Inv(RunStep(s, t, child, expired))
    ensures Stable(s, RunStep(s, t, child, expired), t)
  {
    var s', f := RunStep(s, t, child, expired), Top(s.threads[t]);
    AtTop(s, t);
    LowerKeptAbove(s, s', t);
    if s.ctxs[f.node].err.None? { assert Holds(s', s'.threads[t][|s.threads[t]| - 1], f.node); }
    StepOk(s, s', t, Next(s, t, f, child, expired).1);
  }

  lemma StepNextChild(s: State, t: Tid, child: Node, expired: bool)
    requires Running(s, t, child, expired) && Top(s.threads[t]).Looping? && Top(s.threads[t]).pending != {}
    ensures Inv(RunStep(s, t, child, expired))
    ensures Stable(s, RunStep(s, t, child, expired), t)
  {
    var s', f := RunStep(s, t, child, expired), Top(s.threads[t]);
    AtTop(s, t);
    assert CtxInv(s, child);
    LowerKeptAbove(s, s', t);
    assert Holds(s', s'.threads[t][|s.threads[t]| - 1], f.node);
    StepOk(s, s', t, Next(s, t, f, child, expired).1);
  }

  lemma StepUnlock(s: State, t: Tid, child: Node, expired: bool)
    requires Running(s, t, child, expired) && Top(s.threads[t]).Looping? && Top(s.threads[t]).pending == {}
    ensures Inv(RunStep(s, t, child, expired))
    ensures Stable(s, RunStep(s, t, child, expired), t)
  {
    var s', f := RunStep(s, t, child, expired), Top(s.threads[t]);
    AtTop(s, t);
    LowerKeptAbove(s, s', t);
    StepOk(s, s', t, Next(s, t, f, child, expired).1);
  }

  /** removeChild, and the stopping of the timer: they come when n is cancelled and has handed that down. */
  lemma StepAfterwards(s: State, t: Tid, child: Node, expired: bool)
    requires Running(s, t, child, expired) && (IsRemoveFrame(Top(s.threads[t])) || Top(s.threads[t]).WantStop?)
    ensures Settled(s, Top(s.threads[t]).node)
    ensures Inv(RunStep(s, t, child, expired))
    ensures Stable(s, RunStep(s, t, child, expired), t)
  {
    AtTop(s, t);
    var f := Top(s.threads[t]);
    if f.WantStop? { StepStop(s, t, child, expired); }
    else if f.Delete? { StepDelete(s, t, child, expired); }
    else if f.CheckRemove? { StepCheckRemove(s, t, child, expired); }
    else { StepWantRemove(s, t, child, expired); }
  }

  lemma StepStop(s: State, t: Tid, child: Node, expired: bool)
    requires Running(s, t, child, expired) && Top(s.threads[t]).WantStop?
    ensures Inv(RunStep(s, t, child, expired))
    ensures Stable(s, RunStep(s, t, child, expired), t)
  {
    var s' := RunStep(s, t, child, expired);
    AtTop(s, t);
    LowerKeptAbove(s, s', t);
    SettledStable(s, s', t, Top(s.threads[t]).node);
    StepOk(s, s', t, []);
  }

  lemma StepWantRemove(s: State, t: Tid, child: Node, expired: bool)
    requires Running(s, t, child, expired) && Top(s.threads[t]).WantRemove?
    ensures Inv(RunStep(s, t, child, expired))
    ensures Stable(s, RunStep(s, t, child, expired), t)
  {
    var s', f := RunStep(s, t, child, expired), Top(s.threads[t]);
    AtTop(s, t);
    LowerKeptAttaching(s, s', t);
    SettledStable(s, s', t, f.node);
    StepOk(s, s', t, Next(s, t, f, child, expired).1);
  }

  lemma StepCheckRemove(s: State, t: Tid, child: Node, expired: bool)
    requires Running(s, t, child, expired) && Top(s.threads[t]).CheckRemove?
    ensures Inv(RunStep(s, t, child, expired))
    ensures Stable(s, RunStep(s, t, child, expired), t)
  {
    var s', f := RunStep(s, t, child, expired), Top(s.threads[t]);
    AtTop(s, t);
    LowerKeptAttaching(s, s', t);
    SettledStable(s, s', t, f.node);
    StepOk(s, s', t, [Delete(f.node)]);
  }

  lemma StepDelete(s: State, t: Tid, child: Node, expired: bool)
    requires Running(s, t, child, expired) && Top(s.threads[t]).Delete?
    ensures Inv(RunStep(s, t, child, expired))
    ensures Stable(s, RunStep(s, t, child, expired), t)
  {
    var s', f := RunStep(s, t, child, expired), Top(s.threads[t]);
    AtTop(s, t);
    LowerKeptAttaching(s, s', t);
    SettledStable(s, s', t, f.node);
    assert CtxInv(s', Parent(s, f.node));
    StepOk(s, s', t, AfterRemove(s.ctxs[f.node].timed, f.node));
  }

  lemma StepAskDone(s: State, t: Tid, child: Node, expired: bool)
    requires Running(s, t, child, expired) && Top(s.threads[t]).AskDone?
    ensures Inv(RunStep(s, t, child, expired))
    ensures Stable(s, RunStep(s, t, child, expired), t)
  {
    var s', f := RunStep(s, t, child, expired), Top(s.threads[t]);
    AtTop(s, t);
    LowerKeptAttaching(s, s', t);
    StepOk(s, s', t, Next(s, t, f, child, expired).1);
  }

  lemma StepLooking(s: State, t: Tid, child: Node, expired: bool)
    requires Running(s, t, child, expired)
    requires var f := Top(s.threads[t]); f.Select? || f.AskErr?
    ensures Inv(RunStep(s, t, child, expired))
    ensures Stable(s, RunStep(s, t, child, expired), t)
  {
    var s', f := RunStep(s, t, child, expired), Top(s.threads[t]);
    AtTop(s, t);
    LowerKeptAttaching(s, s', t);
    StepOk(s, s', t, Next(s, t, f, child, expired).1);
  }

  lemma StepFinding(s: State, t: Tid, child: Node, expired: bool)
    requires Running(s, t, child, expired)
    requires var f := Top(s.threads[t]); f.FindParent? || f.CheckParent?
    ensures Inv(RunStep(s, t, child, expired))
    ensures Stable(s, RunStep(s, t, child, expired), t)
  {
    var s', f := RunStep(s, t, child, expired), Top(s.threads[t]);
    AtTop(s, t);
    LowerKeptAttaching(s, s', t);
    StepOk(s, s', t, Next(s, t, f, child, expired).1);
  }

  /** The parent turns out to be cancelled: it stays locked while the child is cancelled. */
  lemma StepLockCancelled(s: State, t: Tid, child: Node, expired: bool)
    requires Running(s, t, child, expired)
    requires Top(s.threads[t]).WantParent? && s.ctxs[Parent(s, Top(s.threads[t]).node)].err.Some?
    ensures Inv(RunStep(s, t, child, expired))
    ensures Stable(s, RunStep(s, t, child, expired), t)
  {
    var s', f := RunStep(s, t, child, expired), Top(s.threads[t]);
    AtTop(s, t);
    LowerKeptAttaching(s, s', t);
    assert Holds(s', s'.threads[t][|s.threads[t]| - 1], Parent(s, f.node));
    StepOk(s, s', t, Next(s, t, f, child, expired).1);
  }

  /** A context that is marked as attached keeps its invariant. */
  lemma AttachedOk(s: State, s': State, t: Tid, news: seq<Frame>, n: Node)
    requires Inv(s) && t < |s.threads| && s.threads[t] != [] && Framed(s, s', t, news)
    requires IsAttachFrame(Top(s.threads[t]), n) && n < |s.ctxs| && s'.ctxs[n] == s.ctxs[n].(attached := true)
    requires Settled(s, n) || (HasParent(s, n) && n in s'.ctxs[Parent(s, n)].children)
    ensures CtxInv(s', n)
  {
    AtTop(s, t);
    if s.ctxs[n].lock.Some? { HolderKept(s, s', t, news, n); }
    if Settled(s, n) { SettledStable(s, s', t, n); }
  }

  lemma StepInsert(s: State, t: Tid, child: Node, expired: bool)
    requires Running(s, t, child, expired)
    requires Top(s.threads[t]).WantParent? && s.ctxs[Parent(s, Top(s.threads[t]).node)].err.None?
    ensures Inv(RunStep(s, t, child, expired))
    ensures Stable(s, RunStep(s, t, child, expired), t)
  {
    var s', f := RunStep(s, t, child, expired), Top(s.threads[t]);
    AtTop(s, t);
    LowerKeptAttaching(s, s', t);
    AttachedOk(s, s', t, [], f.node);
    assert CtxInv(s', Parent(s, f.node));
    StepOk(s, s', t, []);
  }

  /** The parent is unlocked again, when the child is cancelled and done. */
  lemma StepHoldParent(s: State, t: Tid, child: Node, expired: bool)
    requires Running(s, t, child, expired) && Top(s.threads[t]).HoldParent?
    ensures Settled(s, Top(s.threads[t]).node)
    ensures Inv(RunStep(s, t, child, expired))
    ensures Stable(s, RunStep(s, t, child, expired), t)
  {
    var s', f := RunStep(s, t, child, expired), Top(s.threads[t]);
    AtTop(s, t);
    LowerKeptAttaching(s, s', t);
    AttachedOk(s, s', t, [], f.node);
    SettledStable(s, s', t, f.node);
    StepOk(s, s', t, []);
  }

  lemma StepLinked(s: State, t: Tid, child: Node, expired: bool)
    requires Running(s, t, child, expired) && Top(s.threads[t]).Linked?
    ensures Inv(RunStep(s, t, child, expired))
    ensures Stable(s, RunStep(s, t, child, expired), t)
  {
    var s', f := RunStep(s, t, child, expired), Top(s.threads[t]);
    AtTop(s, t);
    LowerKeptAttaching(s, s', t);
    AttachedOk(s, s', t, [], f.node);
    StepOk(s, s', t, []);
  }

  lemma StepArm(s: State, t: Tid, child: Node, expired: bool)
    requires Running(s, t, child, expired) && Top(s.threads[t]).Arm?
    ensures Inv(RunStep(s, t, child, expired))
    ensures Stable(s, RunStep(s, t, child, expired), t)
  {
    var s', f := RunStep(s, t, child, expired), Top(s.threads[t]);
    AtTop(s, t);
    LowerKeptAttaching(s, s', t);
    StepOk(s, s', t, Next(s, t, f, child, expired).1);
  }

  lemma RunKeepsInv(s: State, t: Tid, child: Node, expired: bool)
    requires Running(s, t, child, expired)
    ensures Inv(RunStep(s, t, child, expired))
    ensures Stable(s, RunStep(s, t, child, expired), t)
  {
    var f := Top(s.threads[t]);
    assert FrameInv(s, t, |s.threads[t]| - 1);
    match f
    case WantLock(_, _, _) => StepWantLock(s, t, child, expired);
    case Looping(_, _, _, pending) =>
      if pending != {} { StepNextChild(s, t, child, expired); } else { StepUnlock(s, t, child, expired); }
    case WantRemove(_) => StepAfterwards(s, t, child, expired);
    case CheckRemove(_) => StepAfterwards(s, t, child, expired);
    case Delete(_) => StepAfterwards(s, t, child, expired);
    case WantStop(_) => StepAfterwards(s, t, child, expired);
    case AskDone(_) => StepAskDone(s, t, child, expired);
    case Select(_) => StepLooking(s, t, child, expired);
    case AskErr(_) => StepLooking(s, t, child, expired);
    case FindParent(_) => StepFinding(s, t, child, expired);
    case CheckParent(_) => StepFinding(s, t, child, expired);
    case WantParent(n) =>
      if s.ctxs[Parent(s, n)].err.Some? { StepLockCancelled(s, t, child, expired); } else { StepInsert(s, t, child, expired); }
    case HoldParent(_) => StepHoldParent(s, t, child, expired);
    case Linked(_) => StepLinked(s, t, child, expired);
    case Arm(_) => StepArm(s, t, child, expired);
  }

  /** An action that only starts goroutines leaves the running ones alone. */
  lemma SpawnKeepsFrames(s: State, a: Action)
    requires Inv(s) && Enabled(s, a) && !a.Run?
    ensures AllFrames(Apply(s, a)) && Stable(s, Apply(s, a), |s.threads|)
  {
    var s' := Apply(s, a);
    var t := |s.threads|;
    forall u: nat, i: nat | u < |s'.threads| && i < |s'.threads[u]| ensures FrameInv(s', u, i) {
      if u < t {
        assert FrameInv(s, u, i);
        FrameStable(s, s', t, u, i);
      }
    }
  }

  lemma SpawnKeepsInv(s: State, a: Action)
    requires Inv(s) && Enabled(s, a) && !a.Run?
    ensures Inv(Apply(s, a))
    ensures Stable(s, Apply(s, a), |s.threads|)
  {
    var s' := Apply(s, a);
    SpawnKeepsFrames(s, a);
    forall n: nat | n < |s'.ctxs| ensures CtxInv(s', n) {
      if n < |s.ctxs| { SpawnKeepsCtx(s, a, n); }
    }
  }

  lemma SpawnKeepsCtx(s: State, a: Action, n: Node)
    requires Inv(s) && Enabled(s, a) && !a.Run? && n < |s.ctxs| && Stable(s, Apply(s, a), |s.threads|)
    ensures CtxInv(Apply(s, a), n)
  {
    var s', t := Apply(s, a), |s.threads|;
    assert CtxInv(s, n);
    if s.ctxs[n].lock.Some? {
      var u := s.ctxs[n].lock.value;
      forall i: nat | i < |s.threads[u]| ensures s.threads[u][i].node < |s.ctxs| { assert FrameInv(s, u, i); }
      HolderStable(s, s', t, n, u);
    }
    if Settled(s, n) { SettledStable(s, s', t, n); }
  }

  lemma StepKeepsInv(s: State, a: Action)
    requires Inv(s) && Enabled(s, a)
    ensures Inv(Apply(s, a))
  {
    if a.Run? { RunKeepsInv(s, a.t, a.child, a.expired); } else { SpawnKeepsInv(s, a); }
  }

  /** Every state that any interleaving can reach satisfies the invariant. */
  lemma {:induction false} ReachableInv(run: seq<Action>)
    requires Exec(run).Some?
    ensures Inv(Exec(run).value)
  {
    if run != [] {
      ReachableInv(run[..|run| - 1]);
      StepKeepsInv(Exec(run[..|run| - 1]).value, run[|run| - 1]);
    }
  }

  // ---------- cancellation reaches every attached descendant ----------

  /** d is n or hangs below it, every link on the way made by a finished propagateCancel. */
  predicate AttachedBelow(s: State, n: Node, d: Node)
    decreases d
  {
    d == n || (HasParent(s, d) && Parent(s, d) < d && s.ctxs[d].attached && AttachedBelow(s, n, Parent(s, d)))
  }

  lemma {:induction false} SettledBelow(s: State, n: Node, d: Node)
    requires Inv(s) && Settled(s, n) && AttachedBelow(s, n, d)
    ensures Settled(s, d)
    decreases d
  {
    if d != n {
      var p := Parent(s, d);
      SettledBelow(s, n, p);
      assert CtxInv(s, p) && CtxInv(s, d);
    }
  }

  /**
   * In every interleaving, once the mutex of a cancelled context is free, each
   * context attached below it has an error and a closed done channel.
   */
  lemma CancelReaches(run: seq<Action>, n: Node, d: Node)
    requires Exec(run).Some?
    requires var s := Exec(run).value;
             Free(s, n) && s.ctxs[n].err.Some? && AttachedBelow(s, n, d)
    ensures var s := Exec(run).value;
            d < |s.ctxs| && s.ctxs[d].err.Some? && IsClosed(s.ctxs[d].done)
  {
    var s := Exec(run).value;
    ReachableInv(run);
    assert CtxInv(s, n);
    SettledBelow(s, n, d);
    assert CtxInv(s, d);
  }

  // ---------- one error, one close ----------

  /** The step executes the close of cancelCtx.cancel for n. */
  predicate Closes(s: State, a: Action, n: Node)
  {
    a.Run? && CanRun(s, a.t, a.child, a.expired) &&
    var f := Top(s.threads[a.t]);
    f.WantLock? && f.node == n && s.ctxs[n].err.None?
  }

  function Closings(run: seq<Action>, n: Node): nat
  {
    if run == [] then 0
    else
      var before := Exec(run[..|run| - 1]);
      Closings(run[..|run| - 1], n) +
      if before.Some? && Closes(before.value, run[|run| - 1], n) then 1 else 0
  }

  predicate Cancelled(s: State, n: Node) { n < |s.ctxs| && s.ctxs[n].err.Some? }

  /** Only a close sets an error, and nothing changes or clears it. */
  lemma ErrSetByClose(s: State, a: Action, n: Node)
    requires Inv(s) && Enabled(s, a) && n < |s.ctxs|
    ensures Closes(s, a, n) ==> !IsClosed(s.ctxs[n].done) && Apply(s, a).ctxs[n].err.Some?
    ensures !Closes(s, a, n) ==> Apply(s, a).ctxs[n].err == s.ctxs[n].err
  {
    assert CtxInv(s, n);
    if a.Run? {
      var f := Top(s.threads[a.t]);
      var cs := Next(s, a.t, f, a.child, a.expired).0;
      assert Apply(s, a).ctxs == cs;
    }
  }

  /**
   * In every interleaving a done channel is closed at most once, and it is
   * closed exactly when the context has an error.
   */
  lemma {:induction false} ClosedOnce(run: seq<Action>, n: Node)
    requires Exec(run).Some?
    ensures Closings(run, n) == if Cancelled(Exec(run).value, n) then 1 else 0
    ensures n < |Exec(run).value.ctxs| ==> (IsClosed(Exec(run).value.ctxs[n].done) <==> Closings(run, n) == 1)
  {
    ReachableInv(run);
    if n < |Exec(run).value.ctxs| { assert CtxInv(Exec(run).value, n); }
    if run != [] {
      var s, a := Exec(run[..|run| - 1]).value, run[|run| - 1];
      ReachableInv(run[..|run| - 1]);
      ClosedOnce(run[..|run| - 1], n);
      if n < |s.ctxs| { ErrSetByClose(s, a, n); }
    }
  }

  /** The error a context first gets is the one it keeps. */
  lemma {:induction false} ErrIsFinal(run: seq<Action>, later: seq<Action>, n: Node)
    requires Exec(run).Some? && Cancelled(Exec(run).value, n) && Exec(run + later).Some?
    ensures Cancelled(Exec(run + later).value, n)
    ensures Exec(run + later).value.ctxs[n].err == Exec(run).value.ctxs[n].err
    decreases |later|
  {
    if later == [] {
      assert run + later == run;
    } else {
      var before := later[..|later| - 1];
      assert (run + later)[..|run + later| - 1] == run + before;
      ErrIsFinal(run, before, n);
      ReachableInv(run + before);
      ErrSetByClose(Exec(run + before).value, later[|later| - 1], n);
    }
  }

  // ---------- linking ----------

  /** The goroutine meant for foreign parents is never started, and a parent found closed has an error to pass on. */
  lemma ParentFound(run: seq<Action>, t: Tid, i: nat)
    requires Exec(run).Some?
    requires t < |Exec(run).value.threads| && i < |Exec(run).value.threads[t]|
    ensures var s := Exec(run).value; var f := s.threads[t][i];
            !f.Watcher? && (f.AskErr? ==> HasParent(s, f.node) && s.ctxs[Parent(s, f.node)].err.Some?)
  {
    ReachableInv(run);
    assert FrameInv(Exec(run).value, t, i);
  }
}
