/**
 * io.Pipe (src/io/pipe.go) as a state machine: any number of Reads, Writes and
 * closes of either half, started at any time and interleaved at every lock,
 * channel operation and onceError access.
 */
module Pipe {
  import opened Wrappers
  import Text

  type Byte = Text.Byte

  datatype Error = EOF | ErrClosedPipe | Other(code: nat)

  /** Where a Write stands. */
  datatype WriterPc =
    | Enter                                // first select
    | Lock                                 // p.wrMu.Lock()
    | Offer                                // select: p.wrCh <- b or <-p.done
    | Await                                // nw := <-p.rdCh
    | LoadWerr                             // writeCloseError
    | LoadRerr(werr: Option<Error>)
    | Wrote(err: Option<Error>)            // returned (n, err)

  /** A Write of data that has counted n bytes; its b is data[n..]. */
  datatype Writer = Writer(data: seq<Byte>, n: nat, pc: WriterPc)

  /** Where a Read stands. */
  datatype ReaderPc =
    | Check                                // first select
    | Receive                              // select: bw := <-p.wrCh or <-p.done
    | Reply                                // p.rdCh <- nr
    | ReadRerr                             // readCloseError
    | ReadWerr(rerr: Option<Error>)
    | Read(err: Option<Error>)             // returned (|got|, err)

  /** A Read into a buffer of the given size, and what was copied into it. */
  datatype Reader = Reader(size: nat, got: seq<Byte>, pc: ReaderPc)

  /** A CloseRead or CloseWrite: store the error, then close done once. */
  datatype Closer = Closer(write: bool, err: Error, stored: bool, finished: bool)

  /** The last two fields are history: writers in lock order, readers in handshake order. */
  datatype State = State(
    done: bool, rerr: Option<Error>, werr: Option<Error>, mu: Option<nat>,
    writers: seq<Writer>, readers: seq<Reader>, closers: seq<Closer>,
    locked: seq<nat>, taken: seq<nat>)

  datatype Action =
    | StartWrite(data: seq<Byte>)
    | StartRead(size: nat)
    | StartClose(write: bool, err: Option<Error>)
    | StepWriter(w: nat)
    | StepReader(r: nat)
    | StepCloser(c: nat)
    | Handshake(w: nat, r: nat)            // p.wrCh rendezvous and the copy
    | Ack(w: nat, r: nat)                  // p.rdCh rendezvous

  // ---------- the steps ----------

  /** onceError.Store keeps the first error. */
  function Store(old_: Option<Error>, err: Error): Option<Error> { if old_.Some? then old_ else Some(err) }

  /** readCloseError and writeCloseError: the other half's error unless this half was closed first. */
  function CloseError(own: Option<Error>, other: Option<Error>): Error
  {
    if own.None? && other.Some? then other.value else ErrClosedPipe
  }

  function Min(a: nat, b: nat): nat { if a < b then a else b }

  predicate Enabled(s: State, a: Action)
  {
    match a
    case StartWrite(_) => true
    case StartRead(_) => true
    case StartClose(_, _) => true
    case StepWriter(w) =>
      w < |s.writers| &&
      (match s.writers[w].pc
       case Lock => s.mu.None?
       case Offer => s.done
       case Await => false
       case Wrote(_) => false
       case _ => true)
    case StepReader(r) =>
      r < |s.readers| &&
      (match s.readers[r].pc
       case Receive => s.done
       case Reply => false
       case Read(_) => false
       case _ => true)
    case StepCloser(c) => c < |s.closers| && !s.closers[c].finished
    case Handshake(w, r) => w < |s.writers| && r < |s.readers| && s.writers[w].pc.Offer? && s.readers[r].pc.Receive?
    case Ack(w, r) => w < |s.writers| && r < |s.readers| && s.writers[w].pc.Await? && s.readers[r].pc.Reply?
  }

  function SetWriter(s: State, w: nat, x: Writer): State
    requires w < |s.writers|
  {
    s.(writers := s.writers[w := x])
  }

  function SetReader(s: State, r: nat, x: Reader): State
    requires r < |s.readers|
  {
    s.(readers := s.readers[r := x])
  }

  /** Write returns; the deferred Unlock runs if the lock was taken. */
  function Return(s: State, w: nat, x: Writer): State
    requires w < |s.writers|
  {
    SetWriter(s, w, x).(mu := if s.mu == Some(w) then None else s.mu)
  }

  function WriterStep(s: State, w: nat): State
    requires Enabled(s, StepWriter(w))
  {
    var x := s.writers[w];
    match x.pc
    case Enter => SetWriter(s, w, x.(pc := if s.done then LoadWerr else Lock))
    case Lock => SetWriter(s, w, x.(pc := Offer)).(mu := Some(w), locked := s.locked + [w])
    case Offer => SetWriter(s, w, x.(pc := LoadWerr))
    case LoadWerr => SetWriter(s, w, x.(pc := LoadRerr(s.werr)))
    case LoadRerr(werr) => Return(s, w, x.(pc := Wrote(Some(CloseError(werr, s.rerr)))))
  }

  function ReaderStep(s: State, r: nat): State
    requires Enabled(s, StepReader(r))
  {
    var x := s.readers[r];
    match x.pc
    case Check => SetReader(s, r, x.(pc := if s.done then ReadRerr else Receive))
    case Receive => SetReader(s, r, x.(pc := ReadRerr))
    case ReadRerr => SetReader(s, r, x.(pc := ReadWerr(s.rerr)))
    case ReadWerr(rerr) => SetReader(s, r, x.(pc := Read(Some(CloseError(rerr, s.werr)))))
  }

  function CloserStep(s: State, c: nat): State
    requires Enabled(s, StepCloser(c))
  {
    var x := s.closers[c];
    if x.stored then
      s.(done := true, closers := s.closers[c := x.(finished := true)])
    else
      s.(closers := s.closers[c := x.(stored := true)],
         rerr := if x.write then s.rerr else Store(s.rerr, x.err),
         werr := if x.write then Store(s.werr, x.err) else s.werr)
  }

  function Apply(s: State, a: Action): State
    requires Enabled(s, a)
  {
    match a
    case StartWrite(data) => s.(writers := s.writers + [Writer(data, 0, Enter)])
    case StartRead(size) => s.(readers := s.readers + [Reader(size, [], Check)])
    case StartClose(write, err) =>
      var e := if err.Some? then err.value else if write then EOF else ErrClosedPipe;
      s.(closers := s.closers + [Closer(write, e, false, false)])
    case StepWriter(w) => WriterStep(s, w)
    case StepReader(r) => ReaderStep(s, r)
    case StepCloser(c) => CloserStep(s, c)
    case Handshake(w, r) =>
      var bw := s.writers[w].data[Min(s.writers[w].n, |s.writers[w].data|)..];
      var nr := Min(s.readers[r].size, |bw|);
      SetReader(SetWriter(s, w, s.writers[w].(pc := Await)), r, s.readers[r].(got := bw[..nr], pc := Reply))
        .(taken := s.taken + [r])
    case Ack(w, r) =>
      var x := s.writers[w];
      var n := x.n + |s.readers[r].got|;
      var s1 := SetReader(s, r, s.readers[r].(pc := Read(None)));
      // the loop goes round while b is not empty
      if n < |x.data| then SetWriter(s1, w, x.(n := n, pc := Offer)) else Return(s1, w, x.(n := n, pc := Wrote(None)))
  }

  const START := State(false, None, None, None, [], [], [], [], [])

  function Exec(run: seq<Action>): Option<State>
  {
    if run == [] then Some(START)
    else
      var before := Exec(run[..|run| - 1]);
      var a := run[|run| - 1];
      if before.Some? && Enabled(before.value, a) then Some(Apply(before.value, a)) else None
  }

  // ---------- what goes in and what comes out ----------

  /** The bytes a Write has counted. */
  function Counted(x: Writer): seq<Byte> { if x.n <= |x.data| then x.data[..x.n] else [] }

  /** What these Writes have counted, one after the other. */
  function Sent(ws: seq<Writer>, order: seq<nat>): seq<Byte>
  {
    if order == [] then []
    else
      var w := order[|order| - 1];
      Sent(ws, order[..|order| - 1]) + if w < |ws| then Counted(ws[w]) else []
  }

  /** What these Reads copied out, one after the other. */
  function Received(rs: seq<Reader>, order: seq<nat>): seq<Byte>
  {
    if order == [] then []
    else
      var r := order[|order| - 1];
      Received(rs, order[..|order| - 1]) + if r < |rs| then rs[r].got else []
  }

  lemma {:induction false} SentFrame(ws: seq<Writer>, ws': seq<Writer>, order: seq<nat>)
    requires forall w :: w in order ==> w < |ws| && w < |ws'| && ws'[w].data == ws[w].data && ws'[w].n == ws[w].n
    ensures Sent(ws', order) == Sent(ws, order)
  {
    if order != [] { SentFrame(ws, ws', order[..|order| - 1]); }
  }

  lemma {:induction false} ReceivedFrame(rs: seq<Reader>, rs': seq<Reader>, order: seq<nat>)
    requires forall r :: r in order ==> r < |rs| && r < |rs'| && rs'[r].got == rs[r].got
    ensures Received(rs', order) == Received(rs, order)
  {
    if order != [] { ReceivedFrame(rs, rs', order[..|order| - 1]); }
  }

  lemma CountedGrows(x: Writer, x': Writer, chunk: seq<Byte>)
    requires x.n <= |x.data| && chunk <= x.data[x.n..]
    requires x'.data == x.data && x'.n == x.n + |chunk|
    ensures Counted(x') == Counted(x) + chunk
  {
  }

  /** The last writer of the order counts a chunk more. */
  lemma SentGrows(ws: seq<Writer>, ws': seq<Writer>, order: seq<nat>, w: nat, chunk: seq<Byte>)
    requires order != [] && order[|order| - 1] == w && w !in order[..|order| - 1]
    requires forall i :: 0 <= i < |order| ==> order[i] < |ws|
    requires |ws| == |ws'| && forall v: nat :: v < |ws| && v != w ==> ws'[v] == ws[v]
    requires Counted(ws'[w]) == Counted(ws[w]) + chunk
    ensures Sent(ws', order) == Sent(ws, order) + chunk
  {
    var earlier := order[..|order| - 1];
    forall v | v in earlier ensures v < |ws| && v != w {
      var i :| 0 <= i < |earlier| && earlier[i] == v;
      assert order[i] == v;
    }
    SentFrame(ws, ws', earlier);
  }

  /** One more reader, whose own chunk is all that changes. */
  lemma ReceivedGrows(rs: seq<Reader>, rs': seq<Reader>, order: seq<nat>, r: nat)
    requires r < |rs| == |rs'| && r !in order && forall q :: q in order ==> q < |rs|
    requires forall q: nat :: q < |rs| && q != r ==> rs'[q] == rs[q]
    ensures Received(rs', order + [r]) == Received(rs, order) + rs'[r].got
  {
    ReceivedFrame(rs, rs', order);
    assert (order + [r])[..|order + [r]| - 1] == order;
  }

  lemma SentStarts(ws: seq<Writer>, order: seq<nat>, w: nat)
    requires w < |ws| && ws[w].n == 0
    ensures Sent(ws, order + [w]) == Sent(ws, order)
  {
    assert (order + [w])[..|order + [w]| - 1] == order;
  }

  /** r has copied bytes that the Write has not counted yet. */
  predicate InFlight(s: State, r: nat)
  {
    r < |s.readers| && s.readers[r].pc.Reply?
  }

  // ---------- the invariant ----------

  ghost predicate WriterInv(s: State, w: nat)
    requires w < |s.writers|
  {
    var x := s.writers[w];
    x.n <= |x.data| &&
    (x.pc.Offer? || x.pc.Await? ==> s.mu == Some(w)) &&
    (x.pc.Enter? || x.pc.Lock? ==> w !in s.locked) &&
    (w !in s.locked ==> x.n == 0) &&
    (s.mu == Some(w) ==> !x.pc.Wrote?) &&
    match x.pc
    case Wrote(None) => x.n == |x.data|
    case Wrote(Some(e)) => (x.data != [] ==> x.n < |x.data|) && CloseErrorOk(s, s.werr, s.rerr, e)
    case LoadWerr => s.done && (x.data != [] ==> x.n < |x.data|)
    case LoadRerr(werr) => s.done && (x.data != [] ==> x.n < |x.data|) && Seen(werr, s.werr, s.rerr)
    case _ => x.data != [] ==> x.n < |x.data|
  }

  /** A value read from one onceError: what is in it, unless it was empty then. */
  predicate Seen(seen: Option<Error>, own: Option<Error>, other: Option<Error>)
  {
    (seen.Some? ==> own == seen) && (seen.None? ==> other.Some?)
  }

  /** An error handed to a caller: this half was closed, or it is what the other half was closed with. */
  predicate CloseErrorOk(s: State, own: Option<Error>, other: Option<Error>, e: Error)
  {
    s.done && ((e == ErrClosedPipe && own.Some?) || other == Some(e))
  }

  ghost predicate ReaderInv(s: State, r: nat)
    requires r < |s.readers|
  {
    var x := s.readers[r];
    |x.got| <= x.size &&
    (r in s.taken <==> x.pc.Reply? || x.pc == Read(None)) &&
    (r !in s.taken ==> x.got == []) &&
    match x.pc
    case Read(Some(e)) => CloseErrorOk(s, s.rerr, s.werr, e)
    case ReadRerr => s.done
    case ReadWerr(rerr) => s.done && Seen(rerr, s.rerr, s.werr)
    case _ => true
  }

  ghost predicate LockInv(s: State)
  {
    (forall i :: 0 <= i < |s.locked| ==> s.locked[i] < |s.writers|) &&
    (forall i, j :: 0 <= i < j < |s.locked| ==> s.locked[i] != s.locked[j]) &&
    (s.mu.Some? ==> s.mu.value < |s.writers| && s.locked != [] && s.locked[|s.locked| - 1] == s.mu.value) &&
    (forall i :: 0 <= i < |s.taken| ==> s.taken[i] < |s.readers|)
  }

  ghost predicate CloseInv(s: State)
  {
    (s.done ==> s.rerr.Some? || s.werr.Some?) &&
    forall c :: 0 <= c < |s.closers| ==>
      (s.closers[c].finished ==> s.closers[c].stored && s.done) &&
      (s.closers[c].stored ==> if s.closers[c].write then s.werr.Some? else s.rerr.Some?)
  }

  /** The handshake: a reader owes a reply exactly while the lock holder awaits one. */
  ghost predicate HandshakeInv(s: State)
  {
    (forall r: nat, r': nat :: InFlight(s, r) && InFlight(s, r') ==> r == r') &&
    (forall r: nat :: InFlight(s, r) ==>
      s.mu.Some? && s.mu.value < |s.writers| && s.writers[s.mu.value].pc.Await? &&
      var x := s.writers[s.mu.value];
      x.n <= |x.data| && s.readers[r].got <= x.data[x.n..]) &&
    (forall w :: 0 <= w < |s.writers| && s.writers[w].pc.Await? ==> exists r: nat :: InFlight(s, r))
  }

  /** Received is Sent, followed by the chunk in flight if there is one. */
  ghost predicate Balanced(s: State)
  {
    (forall r: nat :: InFlight(s, r) ==> Received(s.readers, s.taken) == Sent(s.writers, s.locked) + s.readers[r].got) &&
    ((forall r: nat :: !InFlight(s, r)) ==> Received(s.readers, s.taken) == Sent(s.writers, s.locked))
  }

  ghost predicate Calls(s: State)
  {
    (forall w :: 0 <= w < |s.writers| ==> WriterInv(s, w)) &&
    (forall r :: 0 <= r < |s.readers| ==> ReaderInv(s, r))
  }

  ghost predicate Inv(s: State)
  {
    Calls(s) && LockInv(s) && CloseInv(s) && HandshakeInv(s) && Balanced(s)
  }

  /** Nothing that matters to the byte count changes. */
  lemma BalanceFrame(s: State, s': State)
    requires Balanced(s) && LockInv(s)
    requires s'.taken == s.taken && s'.locked == s.locked
    requires |s.writers| <= |s'.writers| && |s.readers| <= |s'.readers|
    requires forall w :: 0 <= w < |s.writers| ==> s'.writers[w].data == s.writers[w].data && s'.writers[w].n == s.writers[w].n
    requires forall r :: 0 <= r < |s.readers| ==> s'.readers[r].got == s.readers[r].got
    requires forall r: nat :: InFlight(s', r) <==> InFlight(s, r)
    ensures Balanced(s')
  {
    SentFrame(s.writers, s'.writers, s.locked);
    ReceivedFrame(s.readers, s'.readers, s.taken);
  }

  /** Errors and the done channel only ever go one way. */
  predicate Later(s: State, s': State)
  {
    (s.done ==> s'.done) && (s.rerr.Some? ==> s'.rerr == s.rerr) && (s.werr.Some? ==> s'.werr == s.werr)
  }

  /** A call that is not part of a step is left as it was. */
  lemma OthersKept(s: State, s': State, w: Option<nat>, r: Option<nat>)
    requires Calls(s) && Later(s, s')
    requires |s.writers| <= |s'.writers| && |s.readers| <= |s'.readers|
    requires forall v: nat :: v < |s.writers| && w != Some(v) ==>
      s'.writers[v] == s.writers[v] && (v in s'.locked <==> v in s.locked) && (s'.mu == Some(v) <==> s.mu == Some(v))
    requires forall q: nat :: q < |s.readers| && r != Some(q) ==>
      s'.readers[q] == s.readers[q] && (q in s'.taken <==> q in s.taken)
    ensures forall v: nat :: v < |s.writers| && w != Some(v) ==> WriterInv(s', v)
    ensures forall q: nat :: q < |s.readers| && r != Some(q) ==> ReaderInv(s', q)
  {
    forall v: nat | v < |s.writers| && w != Some(v) ensures WriterInv(s', v) { assert WriterInv(s, v); }
    forall q: nat | q < |s.readers| && r != Some(q) ensures ReaderInv(s', q) { assert ReaderInv(s, q); }
  }

  lemma HandshakeFrame(s: State, s': State)
    requires HandshakeInv(s) && s'.mu == s.mu
    requires |s.writers| <= |s'.writers| && |s.readers| <= |s'.readers|
    requires forall r: nat :: InFlight(s', r) <==> InFlight(s, r)
    requires forall r: nat :: r < |s.readers| ==> s'.readers[r].got == s.readers[r].got
    requires forall w: nat :: w < |s.writers| && s.writers[w].pc.Await? ==> s'.writers[w] == s.writers[w]
    requires forall w: nat :: w < |s'.writers| && s'.writers[w].pc.Await? ==> w < |s.writers| && s.writers[w].pc.Await?
    ensures HandshakeInv(s')
  {
    forall w: nat | w < |s'.writers| && s'.writers[w].pc.Await? ensures exists r: nat :: InFlight(s', r) {
      var r: nat :| InFlight(s, r);
      assert InFlight(s', r);
    }
  }

  lemma StartKeepsInv(s: State, a: Action)
    requires Inv(s) && Enabled(s, a) && (a.StartWrite? || a.StartRead? || a.StartClose?)
    ensures Inv(Apply(s, a))
  {
    var s' := Apply(s, a);
    assert |s.writers| !in s.locked && |s.readers| !in s.taken;
    OthersKept(s, s', None, None);
    forall r: nat ensures InFlight(s', r) <==> InFlight(s, r) { }
    HandshakeFrame(s, s');
    BalanceFrame(s, s');
  }

  lemma CloserKeepsInv(s: State, c: nat)
    requires Inv(s) && Enabled(s, StepCloser(c))
    ensures Inv(CloserStep(s, c))
  {
    var s' := CloserStep(s, c);
    OthersKept(s, s', None, None);
    forall r: nat ensures InFlight(s', r) <==> InFlight(s, r) { }
    HandshakeFrame(s, s');
    BalanceFrame(s, s');
  }

  lemma ReaderCalls(s: State, r: nat)
    requires Calls(s) && LockInv(s) && CloseInv(s) && Enabled(s, StepReader(r))
    ensures Calls(ReaderStep(s, r))
  {
    var s' := ReaderStep(s, r);
    OthersKept(s, s', None, Some(r));
    assert ReaderInv(s', r) by { assert ReaderInv(s, r); }
  }

  lemma ReaderKeepsInv(s: State, r: nat)
    requires Inv(s) && Enabled(s, StepReader(r))
    ensures Inv(ReaderStep(s, r))
  {
    var s' := ReaderStep(s, r);
    ReaderCalls(s, r);
    forall q: nat ensures InFlight(s', q) <==> InFlight(s, q) { }
    HandshakeFrame(s, s');
    BalanceFrame(s, s');
  }

  lemma LockBalance(s: State, w: nat)
    requires Inv(s) && Enabled(s, StepWriter(w)) && s.writers[w].pc.Lock?
    ensures Balanced(WriterStep(s, w)) && HandshakeInv(WriterStep(s, w))
  {
    var s' := WriterStep(s, w);
    assert WriterInv(s, w);
    forall q: nat ensures !InFlight(s, q) && !InFlight(s', q) { }
    SentFrame(s.writers, s'.writers, s.locked);
    SentStarts(s'.writers, s.locked, w);
    forall v: nat | v < |s'.writers| ensures !s'.writers[v].pc.Await? { }
  }

  lemma LockKeepsInv(s: State, w: nat)
    requires Inv(s) && Enabled(s, StepWriter(w)) && s.writers[w].pc.Lock?
    ensures Inv(WriterStep(s, w))
  {
    var s' := WriterStep(s, w);
    assert WriterInv(s, w);
    LockBalance(s, w);
    OthersKept(s, s', Some(w), None);
    assert WriterInv(s', w);
  }

  lemma WriterBalance(s: State, w: nat)
    requires Inv(s) && Enabled(s, StepWriter(w)) && !s.writers[w].pc.Lock?
    ensures Balanced(WriterStep(s, w)) && HandshakeInv(WriterStep(s, w))
  {
    var s' := WriterStep(s, w);
    forall q: nat ensures InFlight(s', q) <==> InFlight(s, q) { }
    BalanceFrame(s, s');
    if s'.mu == s.mu {
      HandshakeFrame(s, s');
    } else {
      forall v: nat | v < |s'.writers| ensures !s'.writers[v].pc.Await? { assert WriterInv(s, v); }
      forall q: nat ensures !InFlight(s', q) { }
    }
  }

  lemma WriterCalls(s: State, w: nat)
    requires Calls(s) && LockInv(s) && CloseInv(s) && Enabled(s, StepWriter(w)) && !s.writers[w].pc.Lock?
    ensures Calls(WriterStep(s, w)) && LockInv(WriterStep(s, w))
  {
    var s' := WriterStep(s, w);
    OthersKept(s, s', Some(w), None);
    assert WriterInv(s', w) by { assert WriterInv(s, w); }
  }

  lemma WriterKeepsInv(s: State, w: nat)
    requires Inv(s) && Enabled(s, StepWriter(w)) && !s.writers[w].pc.Lock?
    ensures Inv(WriterStep(s, w))
  {
    WriterBalance(s, w);
    WriterCalls(s, w);
  }

  lemma HandshakeBalance(s: State, w: nat, r: nat)
    requires Inv(s) && Enabled(s, Handshake(w, r))
    ensures var s' := Apply(s, Handshake(w, r)); Balanced(s') && HandshakeInv(s')
  {
    var s' := Apply(s, Handshake(w, r));
    assert WriterInv(s, w) && ReaderInv(s, r);
    forall q: nat ensures !InFlight(s, q) { }
    forall q: nat ensures InFlight(s', q) <==> q == r { }
    SentFrame(s.writers, s'.writers, s.locked);
    ReceivedGrows(s.readers, s'.readers, s.taken, r);
    forall v: nat | v < |s'.writers| && s'.writers[v].pc.Await? ensures v == w { assert WriterInv(s, v); }
    assert InFlight(s', r);
  }

  lemma HandshakeCalls(s: State, w: nat, r: nat)
    requires Calls(s) && LockInv(s) && Enabled(s, Handshake(w, r))
    ensures var s' := Apply(s, Handshake(w, r)); Calls(s') && LockInv(s')
  {
    var s' := Apply(s, Handshake(w, r));
    OthersKept(s, s', Some(w), Some(r));
    assert WriterInv(s', w) by { assert WriterInv(s, w); }
    assert ReaderInv(s', r) by { assert ReaderInv(s, r); }
  }

  lemma HandshakeKeepsInv(s: State, w: nat, r: nat)
    requires Inv(s) && Enabled(s, Handshake(w, r))
    ensures Inv(Apply(s, Handshake(w, r)))
  {
    HandshakeBalance(s, w, r);
    HandshakeCalls(s, w, r);
  }

  /** The chunk in flight becomes part of what the writer has counted. */
  lemma AckBalance(s: State, w: nat, r: nat)
    requires Inv(s) && Enabled(s, Ack(w, r))
    ensures var s' := Apply(s, Ack(w, r)); Balanced(s') && HandshakeInv(s')
  {
    var s' := Apply(s, Ack(w, r));
    assert WriterInv(s, w) && InFlight(s, r);
    var earlier := s.locked[..|s.locked| - 1];
    assert w !in earlier;
    CountedGrows(s.writers[w], s'.writers[w], s.readers[r].got);
    SentGrows(s.writers, s'.writers, s.locked, w, s.readers[r].got);
    ReceivedFrame(s.readers, s'.readers, s.taken);
    forall q: nat ensures !InFlight(s', q) { assert InFlight(s, q) ==> q == r; }
    forall v: nat | v < |s'.writers| ensures !s'.writers[v].pc.Await? { assert WriterInv(s, v); }
  }

  lemma AckCalls(s: State, w: nat, r: nat)
    requires Calls(s) && LockInv(s) && Enabled(s, Ack(w, r))
    requires s.writers[w].n + |s.readers[r].got| <= |s.writers[w].data|
    ensures var s' := Apply(s, Ack(w, r)); Calls(s') && LockInv(s')
  {
    var s' := Apply(s, Ack(w, r));
    OthersKept(s, s', Some(w), Some(r));
    assert WriterInv(s', w) by { assert WriterInv(s, w); }
    assert ReaderInv(s', r) by { assert ReaderInv(s, r); }
  }

  lemma AckKeepsInv(s: State, w: nat, r: nat)
    requires Inv(s) && Enabled(s, Ack(w, r))
    ensures Inv(Apply(s, Ack(w, r)))
    ensures var s' := Apply(s, Ack(w, r));
            !InFlight(s', r) && Counted(s'.writers[w]) == Counted(s.writers[w]) + s.readers[r].got &&
            Sent(s'.writers, s'.locked) == Sent(s.writers, s.locked) + s.readers[r].got
  {
    var s' := Apply(s, Ack(w, r));
    assert InFlight(s, r);
    assert WriterInv(s, w);
    AckBalance(s, w, r);
    AckCalls(s, w, r);
    CountedGrows(s.writers[w], s'.writers[w], s.readers[r].got);
    ReceivedFrame(s.readers, s'.readers, s.taken);
    assert forall q: nat :: InFlight(s', q) ==> InFlight(s, q) && q != r;
  }

  lemma StepKeepsInv(s: State, a: Action)
    requires Inv(s) && Enabled(s, a)
    ensures Inv(Apply(s, a))
  {
    match a
    case StepWriter(w) => if s.writers[w].pc.Lock? { LockKeepsInv(s, w); } else { WriterKeepsInv(s, w); }
    case StepReader(r) => ReaderKeepsInv(s, r);
    case StepCloser(c) => CloserKeepsInv(s, c);
    case Handshake(w, r) => HandshakeKeepsInv(s, w, r);
    case Ack(w, r) => AckKeepsInv(s, w, r);
    case _ => StartKeepsInv(s, a);
  }

  lemma {:induction false} ReachableInv(run: seq<Action>)
    requires Exec(run).Some?
    ensures Inv(Exec(run).value)
  {
    if run == [] {
      assert forall r: nat :: !InFlight(START, r);
    } else {
      ReachableInv(run[..|run| - 1]);
      StepKeepsInv(Exec(run[..|run| - 1]).value, run[|run| - 1]);
    }
  }

  // ---------- the guarantees ----------

  /**
   * In every interleaving the bytes copied out, in handshake order, are the
   * counted bytes of the Writes, in lock order, and then the one chunk that is
   * copied but not yet counted, which is the next piece of the lock holder's data.
   */
  lemma NothingLostNothingTwice(run: seq<Action>)
    requires Exec(run).Some?
    ensures var s := Exec(run).value;
            if exists r: nat :: InFlight(s, r) then
              exists r: nat :: InFlight(s, r) && s.mu.Some? && s.mu.value < |s.writers| &&
                var x := s.writers[s.mu.value];
                x.n + |s.readers[r].got| <= |x.data| &&
                s.readers[r].got == x.data[x.n..x.n + |s.readers[r].got|] &&
                Received(s.readers, s.taken) == Sent(s.writers, s.locked) + s.readers[r].got
            else Received(s.readers, s.taken) == Sent(s.writers, s.locked)
  {
    ReachableInv(run);
    var s := Exec(run).value;
    if r: nat :| InFlight(s, r) {
      var x := s.writers[s.mu.value];
      assert s.readers[r].got == x.data[x.n..x.n + |s.readers[r].got|];
    }
  }

  /** A Write that returns no error has written everything; with data left over it always returns one. */
  lemma NilMeansAll(run: seq<Action>, w: nat)
    requires Exec(run).Some? && w < |Exec(run).value.writers| && Exec(run).value.writers[w].pc.Wrote?
    ensures var x := Exec(run).value.writers[w];
            x.n <= |x.data| && (x.pc.err.None? ==> x.n == |x.data|) &&
            (x.data != [] ==> (x.pc.err.None? <==> x.n == |x.data|))
  {
    ReachableInv(run);
    assert WriterInv(Exec(run).value, w);
  }

  /** A Read that returns no error is one of those that took bytes; one that fails took none. */
  lemma ReadIsAllOrNothing(run: seq<Action>, r: nat)
    requires Exec(run).Some? && r < |Exec(run).value.readers| && Exec(run).value.readers[r].pc.Read?
    ensures var s := Exec(run).value; var x := s.readers[r];
            |x.got| <= x.size && (x.pc.err.None? <==> r in s.taken) && (x.pc.err.Some? ==> x.got == [])
  {
    ReachableInv(run);
    assert ReaderInv(Exec(run).value, r);
  }

  /** The error of a failed Read: the writer's close error unless the read half was closed too. */
  lemma ReadError(run: seq<Action>, r: nat)
    requires Exec(run).Some? && r < |Exec(run).value.readers|
    requires var x := Exec(run).value.readers[r]; x.pc.Read? && x.pc.err.Some?
    ensures var s := Exec(run).value; var e := s.readers[r].pc.err.value;
            s.done && (s.rerr.None? ==> s.werr == Some(e)) && (s.werr != Some(e) ==> e == ErrClosedPipe)
  {
    ReachableInv(run);
    assert ReaderInv(Exec(run).value, r);
  }

  /** The error of a failed Write: the reader's close error unless the write half was closed too. */
  lemma WriteError(run: seq<Action>, w: nat)
    requires Exec(run).Some? && w < |Exec(run).value.writers|
    requires var x := Exec(run).value.writers[w]; x.pc.Wrote? && x.pc.err.Some?
    ensures var s := Exec(run).value; var e := s.writers[w].pc.err.value;
            s.done && (s.werr.None? ==> s.rerr == Some(e)) && (s.rerr != Some(e) ==> e == ErrClosedPipe)
  {
    ReachableInv(run);
    assert WriterInv(Exec(run).value, w);
  }

  predicate Busy(s: State)
  {
    (exists w :: 0 <= w < |s.writers| && !s.writers[w].pc.Wrote?) ||
    (exists r :: 0 <= r < |s.readers| && !s.readers[r].pc.Read?)
  }

  /** A copied chunk can always be acknowledged: nobody but the lock holder is waiting for it. */
  lemma ReplyIsAwaited(run: seq<Action>, r: nat)
    requires Exec(run).Some? && InFlight(Exec(run).value, r)
    ensures exists w: nat :: Enabled(Exec(run).value, Ack(w, r)) && Exec(run).value.mu == Some(w)
    ensures forall w: nat, q: nat :: Enabled(Exec(run).value, Ack(w, q)) ==> q == r && Exec(run).value.mu == Some(w)
  {
    ReachableInv(run);
    var s := Exec(run).value;
    assert Enabled(s, Ack(s.mu.value, r));
    forall w: nat, q: nat | Enabled(s, Ack(w, q)) ensures q == r && s.mu == Some(w) {
      assert InFlight(s, q) && WriterInv(s, w);
    }
  }

  /** An action of a call that is under way. */
  predicate Continues(a: Action) { !a.StartWrite? && !a.StartRead? && !a.StartClose? }

  /** How many steps a call can still take; a Write that goes round its loop has a Read that is done. */
  function WriterWork(x: Writer): nat
  {
    match x.pc
    case Enter => 6
    case Lock => 5
    case Offer => 4
    case Await => 3
    case LoadWerr => 2
    case LoadRerr(_) => 1
    case Wrote(_) => 0
  }

  function ReaderWork(x: Reader): nat
  {
    match x.pc
    case Check => 4
    case Receive => 3
    case Reply => 2
    case ReadRerr => 2
    case ReadWerr(_) => 1
    case Read(_) => 0
  }

  function CloserWork(x: Closer): nat { if x.finished then 0 else if x.stored then 1 else 2 }

  function Work(s: State): nat
  {
    Total(s.writers, WriterWork) + Total(s.readers, ReaderWork) + Total(s.closers, CloserWork)
  }

  /** What changing at most one Write, one Read and one close does to the work. */
  lemma WorkOfChange(s: State, s': State, w: Option<nat>, r: Option<nat>, c: Option<nat>)
    requires if w.Some? then w.value < |s.writers| == |s'.writers| && s'.writers == s.writers[w.value := s'.writers[w.value]] else s'.writers == s.writers
    requires if r.Some? then r.value < |s.readers| == |s'.readers| && s'.readers == s.readers[r.value := s'.readers[r.value]] else s'.readers == s.readers
    requires if c.Some? then c.value < |s.closers| == |s'.closers| && s'.closers == s.closers[c.value := s'.closers[c.value]] else s'.closers == s.closers
    ensures Work(s') - Work(s) ==
            (if w.Some? then WriterWork(s'.writers[w.value]) - WriterWork(s.writers[w.value]) else 0) +
            (if r.Some? then ReaderWork(s'.readers[r.value]) - ReaderWork(s.readers[r.value]) else 0) +
            (if c.Some? then CloserWork(s'.closers[c.value]) - CloserWork(s.closers[c.value]) else 0)
  {
    if w.Some? { TotalUpdate(s.writers, WriterWork, w.value, s'.writers[w.value]); }
    if r.Some? { TotalUpdate(s.readers, ReaderWork, r.value, s'.readers[r.value]); }
    if c.Some? { TotalUpdate(s.closers, CloserWork, c.value, s'.closers[c.value]); }
  }

  /** Every step of a call that is under way uses some of it up. */
  lemma StepUsesWork(s: State, a: Action)
    requires Enabled(s, a) && Continues(a)
    ensures Work(Apply(s, a)) < Work(s)
  {
    match a
    case StepWriter(w) => WorkOfChange(s, WriterStep(s, w), Some(w), None, None);
    case StepReader(r) => WorkOfChange(s, ReaderStep(s, r), None, Some(r), None);
    case StepCloser(c) => WorkOfChange(s, CloserStep(s, c), None, None, Some(c));
    case Handshake(w, r) => HandshakeUsesWork(s, w, r);
    case Ack(w, r) => AckUsesWork(s, w, r);
  }

  lemma HandshakeUsesWork(s: State, w: nat, r: nat)
    requires Enabled(s, Handshake(w, r))
    ensures Work(Apply(s, Handshake(w, r))) < Work(s)
  {
    WorkOfChange(s, Apply(s, Handshake(w, r)), Some(w), Some(r), None);
  }

  lemma AckUsesWork(s: State, w: nat, r: nat)
    requires Enabled(s, Ack(w, r))
    ensures Work(Apply(s, Ack(w, r))) < Work(s)
  {
    WorkOfChange(s, Apply(s, Ack(w, r)), Some(w), Some(r), None);
  }

  lemma {:induction false} RunUsesWork(run: seq<Action>, more: seq<Action>)
    requires Exec(run + more).Some? && forall i :: 0 <= i < |more| ==> Continues(more[i])
    ensures Exec(run).Some? && Work(Exec(run + more).value) + |more| <= Work(Exec(run).value)
  {
    if more == [] {
      assert run + more == run;
    } else {
      var before := more[..|more| - 1];
      assert (run + more)[..|run + more| - 1] == run + before;
      RunUsesWork(run, before);
      StepUsesWork(Exec(run + before).value, more[|more| - 1]);
    }
  }

  /**
   * However the calls that are under way are scheduled, they are soon through:
   * without new calls no run goes on for more steps than this.
   */
  lemma EveryScheduleEnds(run: seq<Action>, more: seq<Action>)
    requires Exec(run + more).Some? && forall i :: 0 <= i < |more| ==> Continues(more[i])
    ensures Exec(run).Some?
    ensures var s := Exec(run).value; |more| <= 6 * |s.writers| + 4 * |s.readers| + 2 * |s.closers|
  {
    RunUsesWork(run, more);
    WorkBound(Exec(run).value);
  }

  lemma WorkBound(s: State)
    ensures Work(s) <= 6 * |s.writers| + 4 * |s.readers| + 2 * |s.closers|
  {
    TotalBound(s.writers, WriterWork, 6);
    TotalBound(s.readers, ReaderWork, 4);
    TotalBound(s.closers, CloserWork, 2);
  }

  /** No call that is under way can take a step. */
  ghost predicate Stuck(s: State) { forall a :: Continues(a) ==> !Enabled(s, a) }

  /**
   * After a close no call is left hanging: when no step is possible any more,
   * which is soon, every Read and every Write has returned.
   */
  lemma CloseWakesAll(run: seq<Action>)
    requires Exec(run).Some? && Exec(run).value.done && Stuck(Exec(run).value)
    ensures !Busy(Exec(run).value)
  {
    ReachableInv(run);
    var s := Exec(run).value;
    if w :| 0 <= w < |s.writers| && !s.writers[w].pc.Wrote? {
      WriterMoves(s, w);
    } else if r :| 0 <= r < |s.readers| && !s.readers[r].pc.Read? {
      ReaderMoves(s, r);
    }
  }

  lemma ReaderMoves(s: State, r: nat)
    requires Inv(s) && r < |s.readers| && !s.readers[r].pc.Read? && (s.done || !s.readers[r].pc.Receive?)
    ensures exists a :: Continues(a) && Enabled(s, a)
  {
    if s.readers[r].pc.Reply? {
      assert InFlight(s, r);
      assert Enabled(s, Ack(s.mu.value, r));
    } else {
      assert Enabled(s, StepReader(r));
    }
  }

  /** Without a close what is left hanging is on one side only: Reads that wait for a Write, or Writes for a Read. */
  lemma OneSideWaits(run: seq<Action>, w: nat, r: nat)
    requires Exec(run).Some? && !Exec(run).value.done && Stuck(Exec(run).value)
    requires w < |Exec(run).value.writers| && r < |Exec(run).value.readers|
    ensures var s := Exec(run).value; s.writers[w].pc.Wrote? || s.readers[r].pc.Read?
  {
    ReachableInv(run);
    var s := Exec(run).value;
    if !s.writers[w].pc.Wrote? && !s.readers[r].pc.Read? {
      if !s.readers[r].pc.Receive? { ReaderMoves(s, r); }
      WriterOffers(s, w);
      assert Enabled(s, Handshake(s.mu.value, r));
    }
  }

  /** A Write that has not returned means that the lock holder offers its bytes, if nobody can move. */
  lemma WriterOffers(s: State, w: nat)
    requires Inv(s) && Stuck(s) && w < |s.writers| && !s.writers[w].pc.Wrote?
    ensures s.mu.Some? && s.mu.value < |s.writers| && s.writers[s.mu.value].pc.Offer?
    decreases s.writers[w].pc.Lock?
  {
    assert WriterInv(s, w) && !Enabled(s, StepWriter(w));
    match s.writers[w].pc
    case Await =>
      var r: nat :| InFlight(s, r);
      assert Enabled(s, Ack(w, r));
    case Lock =>
      assert WriterInv(s, s.mu.value);
      WriterOffers(s, s.mu.value);
    case _ =>
  }

  lemma WriterMoves(s: State, w: nat)
    requires Inv(s) && s.done && w < |s.writers| && !s.writers[w].pc.Wrote?
    ensures exists a :: Continues(a) && Enabled(s, a)
    decreases s.writers[w].pc.Lock?
  {
    assert WriterInv(s, w);
    match s.writers[w].pc
    case Await =>
      var r: nat :| InFlight(s, r);
      assert Enabled(s, Ack(w, r));
    case Lock =>
      if s.mu.Some? {
        assert WriterInv(s, s.mu.value);
        WriterMoves(s, s.mu.value);
      } else {
        assert Enabled(s, StepWriter(w));
      }
    case _ => assert Enabled(s, StepWriter(w));
  }
}
