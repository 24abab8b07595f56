/**
 * expvar.Map (src/expvar/expvar.go): a sorted list of keys under a lock beside a
 * concurrent map that is read and written without it. A step is one operation
 * of the concurrent map or one critical section; Delete, which changes the list
 * and then the map while it holds the lock, takes two.
 */
module Expvar {
  import opened Wrappers
  import opened Text
  import opened Sorting

  type Key = Bytes

  /** Where a call stands. */
  datatype Call =
    | SetLoad(key: Key, value: int)
    | SetLoadOrStore(key: Key, value: int)
    | SetStore(key: Key, value: int)
    | AddLoad(key: Key)                    // Add and AddFloat
    | AddLoadOrStore(key: Key)
    | AddKey(key: Key)                     // addKey, waiting for the lock
    | DeleteLock(key: Key)
    | DeleteValue(key: Key)                // out of the list, still in the map
    | DoLock
    | DoAt(next: nat)
    | Finished

  /** values is the concurrent map; late is history: keys stored when they had no value, by a plain Store. */
  datatype State = State(
    values: map<Key, int>, keys: seq<Key>, writer: Option<nat>, readers: set<nat>, calls: seq<Call>, late: set<Key>)

  datatype Action =
    | CallSet(key: Key, value: int)
    | CallAdd(key: Key)
    | CallDelete(key: Key)
    | CallDo
    | Step(c: nat)

  const START := State(map[], [], None, {}, [], {})

  /** sort.SearchStrings: where key is or belongs in a sorted list. */
  function Search(keys: seq<Key>, key: Key): (i: nat)
    ensures i <= |keys| && (forall j :: 0 <= j < i ==> !Leq(key, keys[j])) && (i < |keys| ==> Leq(key, keys[i]))
  {
    if keys == [] || Leq(key, keys[0]) then 0 else Search(keys[1..], key) + 1
  }

  predicate CanStep(s: State, c: nat)
  {
    c < |s.calls| &&
    match s.calls[c]
    case AddKey(_) => s.writer.None? && s.readers == {}
    case DeleteLock(_) => s.writer.None? && s.readers == {}
    case DoLock => s.writer.None?
    case DoAt(i) => i < |s.keys| ==> s.keys[i] in s.values
    case Finished => false
    case _ => true
  }

  predicate Enabled(s: State, a: Action) { a.Step? ==> CanStep(s, a.c) }

  function Goto(s: State, c: nat, call: Call): State
    requires c < |s.calls|
  {
    s.(calls := s.calls[c := call])
  }

  /** addKey's insertion. */
  function Inserted(keys: seq<Key>, key: Key): seq<Key>
  {
    var i := Search(keys, key);
    if i == |keys| then keys + [key] else if keys[i] != key then keys[..i] + [key] + keys[i..] else keys
  }

  function StepCall(s: State, c: nat): State
    requires CanStep(s, c)
  {
    match s.calls[c]
    case SetLoad(key, value) => Goto(s, c, if key in s.values then SetStore(key, value) else SetLoadOrStore(key, value))
    case SetLoadOrStore(key, value) =>
      if key in s.values then Goto(s, c, SetStore(key, value))
      else Goto(s, c, AddKey(key)).(values := s.values[key := value])
    case SetStore(key, value) =>
      Goto(s, c, Finished).(values := s.values[key := value], late := if key in s.values then s.late else s.late + {key})
    case AddLoad(key) => Goto(s, c, if key in s.values then Finished else AddLoadOrStore(key))
    case AddLoadOrStore(key) =>
      if key in s.values then Goto(s, c, Finished)
      else Goto(s, c, AddKey(key)).(values := s.values[key := 0])
    case AddKey(key) => Goto(s, c, Finished).(keys := Inserted(s.keys, key))
    case DeleteLock(key) =>
      var i := Search(s.keys, key);
      if i < |s.keys| && key == s.keys[i] then
        Goto(s, c, DeleteValue(key)).(keys := s.keys[..i] + s.keys[i + 1..], writer := Some(c))
      else Goto(s, c, Finished)
    case DeleteValue(key) => Goto(s, c, Finished).(values := s.values - {key}, writer := None)
    case DoLock => Goto(s, c, DoAt(0)).(readers := s.readers + {c})
    case DoAt(i) =>
      if i < |s.keys| then Goto(s, c, DoAt(i + 1)) else Goto(s, c, Finished).(readers := s.readers - {c})
  }

  function Apply(s: State, a: Action): State
    requires Enabled(s, a)
  {
    match a
    case CallSet(key, value) => s.(calls := s.calls + [SetLoad(key, value)])
    case CallAdd(key) => s.(calls := s.calls + [AddLoad(key)])
    case CallDelete(key) => s.(calls := s.calls + [DeleteLock(key)])
    case CallDo => s.(calls := s.calls + [DoLock])
    case Step(c) => StepCall(s, c)
  }

  function Exec(run: seq<Action>): Option<State>
  {
    if run == [] then Some(START)
    else
      var before := Exec(run[..|run| - 1]);
      var a := run[|run| - 1];
      if before.Some? && Enabled(before.value, a) then Some(Apply(before.value, a)) else None
  }

  // ---------- the invariant ----------

  /** The call is about to add the key to the list, or to take its value away. */
  predicate Owns(s: State, c: nat, key: Key)
  {
    c < |s.calls| && (s.calls[c] == AddKey(key) || s.calls[c] == DeleteValue(key))
  }

  predicate Owned(s: State, key: Key) { exists c: nat :: c < |s.calls| && Owns(s, c, key) }

  /** Membership in the list and pending calls together make at most one; a key has a value exactly if they make one, or if it was stored late. */
  ghost predicate KeyInv(s: State, key: Key)
  {
    (forall c: nat, d: nat :: Owns(s, c, key) && Owns(s, d, key) ==> c == d) &&
    (key in s.keys ==> !Owned(s, key)) &&
    (key in s.late ==> key !in s.keys && !Owned(s, key)) &&
    (key in s.values <==> key in s.keys || Owned(s, key) || key in s.late)
  }

  ghost predicate LockInv(s: State)
  {
    (forall c: nat :: c < |s.calls| ==> (s.writer == Some(c) <==> s.calls[c].DeleteValue?) && (c in s.readers <==> s.calls[c].DoAt?)) &&
    (s.writer.Some? ==> s.writer.value < |s.calls| && s.readers == {}) &&
    (forall c :: c in s.readers ==> c < |s.calls| && s.calls[c].DoAt? && s.calls[c].next <= |s.keys|)
  }

  ghost predicate Inv(s: State)
  {
    (forall key :: KeyInv(s, key)) && LockInv(s) && Sorted(s.keys) && NoRepeats(s.keys)
  }

  lemma SearchFinds(keys: seq<Key>, key: Key)
    requires Sorted(keys)
    ensures key in keys <==> Search(keys, key) < |keys| && keys[Search(keys, key)] == key
  {
    var i := Search(keys, key);
    if key in keys {
      var j :| 0 <= j < |keys| && keys[j] == key;
      LeqTotal(key, key);
      assert i <= j;
      LeqTotal(keys[i], key);
      assert i < j ==> Leq(keys[i], keys[j]);
    }
  }

  lemma InsertedOk(keys: seq<Key>, key: Key)
    requires Sorted(keys) && NoRepeats(keys) && key !in keys
    ensures var r := Inserted(keys, key); Sorted(r) && NoRepeats(r) && forall x :: x in r <==> x in keys || x == key
  {
    var i := Search(keys, key);
    forall j | 0 <= j < i ensures Leq(keys[j], key) { LeqTotal(keys[j], key); }
    if i < |keys| { LeqTotal(keys[i], key); }
    InsertSorted(keys, i, key);
    assert i == |keys| ==> keys[..i] + [key] + keys[i..] == keys + [key];
  }

  lemma RemovedOk(keys: seq<Key>, i: nat)
    requires Sorted(keys) && NoRepeats(keys) && i < |keys|
    ensures var r := keys[..i] + keys[i + 1..]; Sorted(r) && NoRepeats(r) && forall x :: x in r <==> x in keys && x != keys[i]
  {
    var r := keys[..i] + keys[i + 1..];
    assert forall j :: 0 <= j < |r| ==> r[j] == keys[if j < i then j else j + 1];
    forall x | x in keys && x != keys[i] ensures x in r {
      var j :| 0 <= j < |keys| && keys[j] == x;
      assert r[if j < i then j else j - 1] == x;
    }
  }

  /** A step of call c that leaves the list, the map and the ownership of a key alone. */
  lemma KeyKept(s: State, s': State, c: nat, key: Key)
    requires KeyInv(s, key) && |s.calls| <= |s'.calls|
    requires forall d: nat :: d < |s'.calls| ==> (Owns(s', d, key) <==> Owns(s, d, key))
    requires key in s'.keys <==> key in s.keys
    requires key in s'.late <==> key in s.late
    requires key in s'.values <==> key in s.values
    ensures KeyInv(s', key)
  {
    if Owned(s, key) {
      var d: nat :| d < |s.calls| && Owns(s, d, key);
      assert Owns(s', d, key);
    }
  }

  lemma CallKeepsInv(s: State, a: Action)
    requires Inv(s) && !a.Step?
    ensures Inv(Apply(s, a))
  {
    forall key ensures KeyInv(Apply(s, a), key) { KeyKept(s, Apply(s, a), |s.calls|, key); }
  }

  /** A store that finds no value makes the caller the owner of the key. */
  lemma NewKey(s: State, s': State, c: nat, key: Key)
    requires KeyInv(s, key) && c < |s.calls| && key !in s.values && !Owns(s, c, key)
    requires s'.calls == s.calls[c := AddKey(key)] && s'.keys == s.keys && s'.late == s.late && key in s'.values
    ensures KeyInv(s', key)
  {
    forall d: nat ensures Owns(s', d, key) <==> d == c { assert Owns(s, d, key) ==> Owned(s, key); }
    assert Owns(s', c, key);
  }

  /** The owner lets go of the key. */
  lemma LetGo(s: State, s': State, c: nat, key: Key)
    requires KeyInv(s, key) && Owns(s, c, key) && s'.calls == s.calls[c := Finished] && s'.late == s.late
    requires key in s'.keys <==> key in s'.values
    ensures KeyInv(s', key)
  {
    assert Owned(s, key);
    forall d: nat ensures !Owns(s', d, key) { assert Owns(s, d, key) ==> d == c; }
  }

  lemma MapStepKeepsInv(s: State, c: nat)
    requires Inv(s) && CanStep(s, c)
    requires var k := s.calls[c]; k.SetLoad? || k.SetLoadOrStore? || k.SetStore? || k.AddLoad? || k.AddLoadOrStore?
    ensures Inv(StepCall(s, c))
  {
    var s' := StepCall(s, c);
    var own := s.calls[c].key;
    forall key ensures KeyInv(s', key) {
      assert KeyInv(s, key);
      if key == own && key !in s.values && s'.calls[c].AddKey? {
        NewKey(s, s', c, key);
      } else if key == own && key !in s.values && s.calls[c].SetStore? {
        forall d: nat ensures !Owns(s', d, key) { assert Owns(s, d, key) ==> Owned(s, key); }
      } else {
        KeyKept(s, s', c, key);
      }
    }
  }

  lemma AddKeyKeepsInv(s: State, c: nat)
    requires Inv(s) && CanStep(s, c) && s.calls[c].AddKey?
    ensures Inv(StepCall(s, c))
  {
    var s' := StepCall(s, c);
    var own := s.calls[c].key;
    assert KeyInv(s, own) && Owns(s, c, own) && Owned(s, own);
    InsertedOk(s.keys, own);
    forall key ensures KeyInv(s', key) {
      assert KeyInv(s, key);
      if key == own { LetGo(s, s', c, key); } else { KeyKept(s, s', c, key); }
    }
  }

  lemma DeleteKeepsInv(s: State, c: nat)
    requires Inv(s) && CanStep(s, c) && s.calls[c].DeleteLock?
    ensures Inv(StepCall(s, c))
  {
    var s' := StepCall(s, c);
    var own := s.calls[c].key;
    var i := Search(s.keys, own);
    SearchFinds(s.keys, own);
    if own in s.keys { RemovedOk(s.keys, i); }
    forall key ensures KeyInv(s', key) {
      assert KeyInv(s, key);
      if key == own && own in s.keys {
        forall d: nat ensures Owns(s', d, key) <==> d == c { assert Owns(s, d, key) ==> Owned(s, key); }
        assert Owns(s', c, key);
      } else {
        KeyKept(s, s', c, key);
      }
    }
  }

  lemma DeleteValueKeepsInv(s: State, c: nat)
    requires Inv(s) && CanStep(s, c) && s.calls[c].DeleteValue?
    ensures Inv(StepCall(s, c))
  {
    var s' := StepCall(s, c);
    var own := s.calls[c].key;
    assert KeyInv(s, own) && Owns(s, c, own) && Owned(s, own);
    forall key ensures KeyInv(s', key) {
      assert KeyInv(s, key);
      if key == own { LetGo(s, s', c, key); } else { KeyKept(s, s', c, key); }
    }
  }

  lemma DoKeepsInv(s: State, c: nat)
    requires Inv(s) && CanStep(s, c) && (s.calls[c].DoLock? || s.calls[c].DoAt?)
    ensures Inv(StepCall(s, c))
  {
    forall key ensures KeyInv(StepCall(s, c), key) { KeyKept(s, StepCall(s, c), c, key); }
  }

  lemma StepKeepsInv(s: State, a: Action)
    requires Inv(s) && Enabled(s, a)
    ensures Inv(Apply(s, a))
  {
    if !a.Step? {
      CallKeepsInv(s, a);
    } else {
      match s.calls[a.c]
      case AddKey(_) => AddKeyKeepsInv(s, a.c);
      case DeleteLock(_) => DeleteKeepsInv(s, a.c);
      case DeleteValue(_) => DeleteValueKeepsInv(s, a.c);
      case DoLock => DoKeepsInv(s, a.c);
      case DoAt(_) => DoKeepsInv(s, a.c);
      case _ => MapStepKeepsInv(s, a.c);
    }
  }

  lemma {:induction false} ReachableInv(run: seq<Action>)
    requires Exec(run).Some?
    ensures Inv(Exec(run).value)
  {
    if run == [] {
      assert forall key :: KeyInv(START, key);
    } else {
      ReachableInv(run[..|run| - 1]);
      StepKeepsInv(Exec(run[..|run| - 1]).value, run[|run| - 1]);
    }
  }

  // ---------- the guarantees ----------

  /** In every interleaving the list is strictly sorted, and each of its keys has a value. */
  lemma ListedHaveValues(run: seq<Action>)
    requires Exec(run).Some?
    ensures var s := Exec(run).value; Sorted(s.keys) && NoRepeats(s.keys) && forall key :: key in s.keys ==> key in s.values
  {
    ReachableInv(run);
    var s := Exec(run).value;
    forall key | key in s.keys ensures key in s.values { assert KeyInv(s, key); }
  }

  /** Do never meets a missing value: it can always go on. */
  lemma DoNeverFails(run: seq<Action>, c: nat)
    requires Exec(run).Some? && c < |Exec(run).value.calls| && Exec(run).value.calls[c].DoAt?
    ensures CanStep(Exec(run).value, c) && Exec(run).value.calls[c].next <= |Exec(run).value.keys|
  {
    ListedHaveValues(run);
    ReachableInv(run);
  }

  /** While a call is under way, some call can move. */
  lemma NoDeadlock(run: seq<Action>, c: nat)
    requires Exec(run).Some? && c < |Exec(run).value.calls| && !Exec(run).value.calls[c].Finished?
    ensures exists d :: CanStep(Exec(run).value, d)
  {
    ReachableInv(run);
    var s := Exec(run).value;
    if s.writer.Some? {
      assert CanStep(s, s.writer.value);
    } else if d :| d in s.readers {
      DoNeverFails(run, d);
    } else {
      if s.calls[c].DoAt? { DoNeverFails(run, c); }
      assert CanStep(s, c);
    }
  }

  // ---------- every call ends ----------

  /** How many steps a call can still take, while the list has no more than most keys. */
  function CallWork(call: Call, most: nat): nat
  {
    match call
    case SetLoad(_, _) => 3
    case SetLoadOrStore(_, _) => 2
    case SetStore(_, _) => 1
    case AddLoad(_) => 3
    case AddLoadOrStore(_) => 2
    case AddKey(_) => 1
    case DeleteLock(_) => 2
    case DeleteValue(_) => 1
    case DoLock => most + 2
    case DoAt(next) => if next <= most then most + 1 - next else 0
    case Finished => 0
  }

  /** One for a call that may still add a key to the list. */
  function MayAdd(call: Call): nat
  {
    if call.SetLoad? || call.SetLoadOrStore? || call.AddLoad? || call.AddLoadOrStore? || call.AddKey? then 1 else 0
  }

  function Weight(most: nat): Call -> nat { call => CallWork(call, most) }

  function Work(s: State, most: nat): nat { Total(s.calls, Weight(most)) }

  /** The keys there are, and those that may still come. */
  function Room(s: State): nat { |s.keys| + Total(s.calls, MayAdd) }

  lemma StepUsesWork(s: State, c: nat, most: nat)
    requires Inv(s) && CanStep(s, c) && Room(s) <= most
    ensures Work(StepCall(s, c), most) < Work(s, most) && Room(StepCall(s, c)) <= most
  {
    var s' := StepCall(s, c);
    var call, call' := s.calls[c], s'.calls[c];
    assert s'.calls == s.calls[c := call'];
    TotalUpdate(s.calls, Weight(most), c, call');
    TotalUpdate(s.calls, MayAdd, c, call');
    CallUsesWork(s, c, most);
  }

  lemma CallUsesWork(s: State, c: nat, most: nat)
    requires Inv(s) && CanStep(s, c) && |s.keys| <= most
    ensures var s' := StepCall(s, c);
            CallWork(s'.calls[c], most) < CallWork(s.calls[c], most) &&
            |s'.keys| + MayAdd(s'.calls[c]) <= |s.keys| + MayAdd(s.calls[c])
  {
  }

  lemma {:induction false} RunUsesWork(run: seq<Action>, more: seq<Action>, most: nat)
    requires Exec(run + more).Some? && forall i :: 0 <= i < |more| ==> more[i].Step?
    requires Exec(run).Some? ==> Room(Exec(run).value) <= most
    ensures Exec(run).Some? && Room(Exec(run + more).value) <= most
    ensures Work(Exec(run + more).value, most) + |more| <= Work(Exec(run).value, most)
  {
    if more == [] {
      assert run + more == run;
    } else {
      var before := more[..|more| - 1];
      assert (run + more)[..|run + more| - 1] == run + before;
      RunUsesWork(run, before, most);
      LastUsesWork(run + before, run + more, most);
    }
  }

  lemma LastUsesWork(before: seq<Action>, run: seq<Action>, most: nat)
    requires run != [] && before == run[..|run| - 1] && run[|run| - 1].Step?
    requires Exec(run).Some? && Room(Exec(before).value) <= most
    ensures Room(Exec(run).value) <= most && Work(Exec(run).value, most) < Work(Exec(before).value, most)
  {
    ReachableInv(before);
    StepUsesWork(Exec(before).value, run[|run| - 1].c, most);
  }

  function MostSteps(s: State): nat { (|s.keys| + |s.calls| + 3) * |s.calls| }

  /**
   * However the calls that are under way are scheduled, they are soon through:
   * without new calls no run goes on for more steps than this.
   */
  lemma EveryScheduleEnds(run: seq<Action>, more: seq<Action>)
    requires Exec(run + more).Some? && forall i :: 0 <= i < |more| ==> more[i].Step?
    ensures Exec(run).Some?
    ensures |more| <= MostSteps(Exec(run).value)
  {
    Prefix(run, more);
    var most := WorkBound(Exec(run).value);
    RunUsesWork(run, more, most);
  }

  lemma WorkBound(s: State) returns (most: nat)
    ensures Room(s) <= most && Work(s, most) <= MostSteps(s)
  {
    most := |s.keys| + |s.calls|;
    TotalBound(s.calls, MayAdd, 1);
    TotalBound(s.calls, Weight(most), most + 3);
  }

  lemma {:induction false} Prefix(run: seq<Action>, more: seq<Action>)
    requires Exec(run + more).Some?
    ensures Exec(run).Some?
  {
    if more == [] {
      assert run + more == run;
    } else {
      assert (run + more)[..|run + more| - 1] == run + more[..|more| - 1];
      Prefix(run, more[..|more| - 1]);
    }
  }

  predicate Quiet(s: State) { forall c :: 0 <= c < |s.calls| ==> s.calls[c].Finished? }

  /** And when no call can take a step any more, every call has returned. */
  lemma StuckMeansDone(run: seq<Action>)
    requires Exec(run).Some? && forall c :: !CanStep(Exec(run).value, c)
    ensures Quiet(Exec(run).value)
  {
    var s := Exec(run).value;
    forall c | 0 <= c < |s.calls| ensures s.calls[c].Finished? {
      if !s.calls[c].Finished? { NoDeadlock(run, c); }
    }
  }

  /**
   * When no call is under way, the list has every key that has a value, so that
   * Do visits them all, if and only if no Set ever stored into a key that a
   * Delete had emptied since the Set saw it.
   */
  lemma ListIsComplete(run: seq<Action>)
    requires Exec(run).Some? && Quiet(Exec(run).value)
    ensures var s := Exec(run).value; (forall key :: key in s.values <==> key in s.keys) <==> s.late == {}
  {
    ReachableInv(run);
    var s := Exec(run).value;
    forall key ensures key in s.values <==> key in s.keys || key in s.late {
      assert KeyInv(s, key);
    }
    if key :| key in s.late { assert KeyInv(s, key); }
  }

  /** The step takes a value away while a Set of the same key is between its Load and its Store. */
  predicate TakesAway(s: State, a: Action)
  {
    a.Step? && a.c < |s.calls| && s.calls[a.c].DeleteValue? &&
    exists d :: 0 <= d < |s.calls| && s.calls[d].SetStore? && s.calls[d].key == s.calls[a.c].key
  }

  /** No Delete of the run takes a value away between the Load and the Store of a Set. */
  predicate Apart(run: seq<Action>)
  {
    run == [] ||
    (Apart(run[..|run| - 1]) &&
     (Exec(run[..|run| - 1]).Some? ==> !TakesAway(Exec(run[..|run| - 1]).value, run[|run| - 1])))
  }

  /** What a Set has seen is still there when it stores. */
  predicate SeenStay(s: State)
  {
    s.late == {} && forall c :: 0 <= c < |s.calls| && s.calls[c].SetStore? ==> s.calls[c].key in s.values
  }

  lemma SeenStayStep(s: State, a: Action)
    requires SeenStay(s) && Enabled(s, a) && !TakesAway(s, a)
    ensures SeenStay(Apply(s, a))
  {
    var s' := Apply(s, a);
    forall c | 0 <= c < |s'.calls| && s'.calls[c].SetStore? ensures s'.calls[c].key in s'.values {
      if c < |s.calls| && !(a.Step? && a.c == c) { assert s'.calls[c] == s.calls[c]; }
    }
  }

  lemma {:induction false} ApartSeenStay(run: seq<Action>)
    requires Exec(run).Some? && Apart(run)
    ensures SeenStay(Exec(run).value)
  {
    if run != [] {
      var before := run[..|run| - 1];
      ApartSeenStay(before);
      SeenStayStep(Exec(before).value, run[|run| - 1]);
    }
  }

  /**
   * When no call is under way, the list has every key that has a value, provided
   * no Delete came between the Load and the Store of a Set of the same key.
   */
  lemma ApartIsComplete(run: seq<Action>)
    requires Exec(run).Some? && Quiet(Exec(run).value) && Apart(run)
    ensures var s := Exec(run).value; forall key :: key in s.values <==> key in s.keys
  {
    ApartSeenStay(run);
    ListIsComplete(run);
  }

  /** run can be continued with a, which leads to s'. */
  lemma Next(run: seq<Action>, a: Action, s: State, s': State) returns (longer: seq<Action>)
    requires Exec(run) == Some(s) && Enabled(s, a)
    requires var t := Apply(s, a);
             t.values == s'.values && t.keys == s'.keys && t.writer == s'.writer && t.readers == s'.readers &&
             t.calls == s'.calls && t.late == s'.late
    ensures Exec(longer) == Some(s')
  {
    longer := run + [a];
    assert longer[..|run|] == run;
  }

  lemma SearchSingle(key: Key)
    ensures Search([key], key) == 0 && Search([], key) == 0
  {
    LeqTotal(key, key);
  }

  /** A state in which nobody holds or waits for anything but the given calls. */
  function With(values: map<Key, int>, keys: seq<Key>, calls: seq<Call>): State { State(values, keys, None, {}, calls, {}) }

  /** A first Set of a key, from its call to the end. */
  lemma FirstSet(key: Key) returns (run: seq<Action>)
    ensures Exec(run) == Some(With(map[key := 1], [key], [Finished]))
  {
    SearchSingle(key);
    var s1 := With(map[], [], [SetLoad(key, 1)]);
    var s2 := With(map[], [], [SetLoadOrStore(key, 1)]);
    var s3 := With(map[key := 1], [], [AddKey(key)]);
    run := Next([], CallSet(key, 1), START, s1);
    run := Next(run, Step(0), s1, s2);
    run := Next(run, Step(0), s2, s3);
    run := Next(run, Step(0), s3, With(map[key := 1], [key], [Finished]));
  }

  /** A second Set that has seen the key, and a Delete about to start. */
  lemma SetThenDelete(key: Key) returns (run: seq<Action>)
    ensures Exec(run) == Some(With(map[key := 1], [key], [Finished, SetStore(key, 2), DeleteLock(key)]))
  {
    run := FirstSet(key);
    var s0 := With(map[key := 1], [key], [Finished]);
    var s1 := With(map[key := 1], [key], [Finished, SetLoad(key, 2)]);
    var s2 := With(map[key := 1], [key], [Finished, SetStore(key, 2)]);
    run := Next(run, CallSet(key, 2), s0, s1);
    run := Next(run, Step(1), s1, s2);
    run := Next(run, CallDelete(key), s2, With(map[key := 1], [key], [Finished, SetStore(key, 2), DeleteLock(key)]));
  }

  lemma DeleteStarts(key: Key, s: State)
    requires s == With(map[key := 1], [key], [Finished, SetStore(key, 2), DeleteLock(key)])
    ensures CanStep(s, 2)
    ensures StepCall(s, 2) == State(map[key := 1], [], Some(2), {}, [Finished, SetStore(key, 2), DeleteValue(key)], {})
  {
    SearchSingle(key);
    assert s.calls[2] == DeleteLock(key);
    assert s.keys[..0] + s.keys[1..] == [];
    assert s.calls[2 := DeleteValue(key)] == [Finished, SetStore(key, 2), DeleteValue(key)];
  }

  /**
   * The completeness can fail: a Set sees the key, a Delete takes it away, the Set
   * stores; the key has a value, nothing is under way, and no Do will visit it.
   */
  lemma LostKey(key: Key) returns (run: seq<Action>)
    ensures Exec(run).Some? && Quiet(Exec(run).value)
    ensures key in Exec(run).value.values && key !in Exec(run).value.keys && key in Exec(run).value.late
  {
    run := SetThenDelete(key);
    var s0 := With(map[key := 1], [key], [Finished, SetStore(key, 2), DeleteLock(key)]);
    var s1 := State(map[key := 1], [], Some(2), {}, [Finished, SetStore(key, 2), DeleteValue(key)], {});
    var s2 := With(map[], [], [Finished, SetStore(key, 2), Finished]);
    DeleteStarts(key, s0);
    run := Next(run, Step(2), s0, s1);
    run := Next(run, Step(2), s1, s2);
    run := Next(run, Step(1), s2, State(map[key := 2], [], None, {}, [Finished, Finished, Finished], {key}));
  }
}
