/**
 * What single calls on an expvar.Map (src/expvar/expvar.go) leave behind when
 * nothing else is going on, and where the values of the map come from in any case.
 */
module ExpvarCalls {
  import opened Wrappers
  import opened Text
  import opened Expvar

  // ---------- one call by itself ----------

  /** The first calls are done, and only the last is under way; the values of other keys are those of before. */
  ghost predicate Alone(s0: State, s: State, key: Key)
  {
    |s.calls| == |s0.calls| + 1 && (forall c :: 0 <= c < |s0.calls| ==> s.calls[c].Finished?) &&
    forall x :: x != key ==> (x in s.values <==> x in s0.values) && (x in s.values ==> s.values[x] == s0.values[x])
  }

  ghost predicate SetGoes(s0: State, s: State, key: Key, value: int)
  {
    Alone(s0, s, key) &&
    match s.calls[|s0.calls|]
    case SetLoad(k, v) => k == key && v == value
    case SetLoadOrStore(k, v) => k == key && v == value
    case SetStore(k, v) => k == key && v == value
    case AddKey(k) => k == key && key in s.values && s.values[key] == value
    case Finished => key in s.values && s.values[key] == value
    case _ => false
  }

  ghost predicate DeleteGoes(s0: State, s: State, key: Key)
  {
    Alone(s0, s, key) &&
    match s.calls[|s0.calls|]
    case DeleteLock(k) => k == key && s.keys == s0.keys && (key in s.values <==> key in s0.values)
    case DeleteValue(k) => k == key && key in s0.keys
    case Finished => if key in s0.keys then key !in s.values else key in s.values <==> key in s0.values
    case _ => false
  }

  ghost predicate AddGoes(s0: State, s: State, key: Key)
  {
    Alone(s0, s, key) && (key in s0.values ==> key in s.values && s.values[key] == s0.values[key]) &&
    match s.calls[|s0.calls|]
    case AddLoad(k) => k == key
    case AddLoadOrStore(k) => k == key
    case AddKey(k) => k == key && key in s.values
    case Finished => key in s.values
    case _ => false
  }

  /** The state that a call leads to, of the kind that its first action a tells. */
  ghost predicate Goes(s0: State, s: State, a: Action)
  {
    match a
    case CallSet(key, value) => SetGoes(s0, s, key, value)
    case CallDelete(key) => DeleteGoes(s0, s, key)
    case CallAdd(key) => AddGoes(s0, s, key)
    case _ => true
  }

  lemma GoesOn(s0: State, s: State, a: Action, c: nat)
    requires Inv(s) && (a.CallSet? || a.CallDelete? || a.CallAdd?) && Goes(s0, s, a) && CanStep(s, c)
    ensures Goes(s0, StepCall(s, c), a)
  {
    assert c == |s0.calls|;
    if a.CallDelete? { SearchFinds(s.keys, a.key); }
  }

  lemma {:induction false} CallGoes(run: seq<Action>, a: Action, more: seq<Action>)
    requires Exec(run).Some? && Quiet(Exec(run).value) && (a.CallSet? || a.CallDelete? || a.CallAdd?)
    requires Exec(run + ([a] + more)).Some? && forall i :: 0 <= i < |more| ==> more[i].Step?
    ensures Goes(Exec(run).value, Exec(run + ([a] + more)).value, a)
  {
    var all := run + ([a] + more);
    if more == [] {
      assert all[..|all| - 1] == run && all[|all| - 1] == a;
    } else {
      var before := more[..|more| - 1];
      assert all[..|all| - 1] == run + ([a] + before) && all[|all| - 1] == more[|more| - 1];
      CallGoes(run, a, before);
      ReachableInv(run + ([a] + before));
      GoesOn(Exec(run).value, Exec(run + ([a] + before)).value, a, more[|more| - 1].c);
    }
  }

  /** After a Set that was alone the key has its value, and no other value has changed. */
  lemma SetTakesEffect(run: seq<Action>, key: Key, value: int, more: seq<Action>)
    requires Exec(run).Some? && Quiet(Exec(run).value)
    requires Exec(run + ([CallSet(key, value)] + more)).Some? && forall i :: 0 <= i < |more| ==> more[i].Step?
    requires Quiet(Exec(run + ([CallSet(key, value)] + more)).value)
    ensures var before, after := Exec(run).value.values, Exec(run + ([CallSet(key, value)] + more)).value.values;
            after == before[key := value]
  {
    CallGoes(run, CallSet(key, value), more);
  }

  /** After a Delete that was alone the key has no value if it was in the list; nothing else has changed. */
  lemma DeleteTakesEffect(run: seq<Action>, key: Key, more: seq<Action>)
    requires Exec(run).Some? && Quiet(Exec(run).value)
    requires Exec(run + ([CallDelete(key)] + more)).Some? && forall i :: 0 <= i < |more| ==> more[i].Step?
    requires Quiet(Exec(run + ([CallDelete(key)] + more)).value)
    ensures var s, s' := Exec(run).value, Exec(run + ([CallDelete(key)] + more)).value;
            s'.values.Keys == (if key in s.keys then s.values.Keys - {key} else s.values.Keys) &&
            forall x :: x in s'.values && x != key ==> s'.values[x] == s.values[x]
  {
    CallGoes(run, CallDelete(key), more);
  }

  /** After an Add that was alone the key has a value: a new one only if it had none. */
  lemma AddTakesEffect(run: seq<Action>, key: Key, more: seq<Action>)
    requires Exec(run).Some? && Quiet(Exec(run).value)
    requires Exec(run + ([CallAdd(key)] + more)).Some? && forall i :: 0 <= i < |more| ==> more[i].Step?
    requires Quiet(Exec(run + ([CallAdd(key)] + more)).value)
    ensures var before, after := Exec(run).value.values, Exec(run + ([CallAdd(key)] + more)).value.values;
            after.Keys == before.Keys + {key} && forall x :: x in before ==> after[x] == before[x]
  {
    CallGoes(run, CallAdd(key), more);
  }

  // ---------- any calls ----------

  /** A value is one that a Set was called with, or the new one of an Add. */
  predicate Given(run: seq<Action>, key: Key, value: int)
  {
    CallSet(key, value) in run || (value == 0 && CallAdd(key) in run)
  }

  predicate CallGiven(run: seq<Action>, call: Call)
  {
    match call
    case SetLoad(key, value) => CallSet(key, value) in run
    case SetLoadOrStore(key, value) => CallSet(key, value) in run
    case SetStore(key, value) => CallSet(key, value) in run
    case AddLoad(key) => CallAdd(key) in run
    case AddLoadOrStore(key) => CallAdd(key) in run
    case _ => true
  }

  predicate AllGiven(run: seq<Action>, s: State)
  {
    (forall key :: key in s.values ==> Given(run, key, s.values[key])) &&
    forall c :: 0 <= c < |s.calls| ==> CallGiven(run, s.calls[c])
  }

  lemma GivenStays(run: seq<Action>, s: State, a: Action)
    requires AllGiven(run, s)
    ensures AllGiven(run + [a], s)
  {
    forall c | 0 <= c < |s.calls| ensures CallGiven(run + [a], s.calls[c]) { assert CallGiven(run, s.calls[c]); }
    forall key | key in s.values ensures Given(run + [a], key, s.values[key]) { assert Given(run, key, s.values[key]); }
  }

  lemma GivenStep(run: seq<Action>, s: State, c: nat)
    requires AllGiven(run, s) && CanStep(s, c)
    ensures AllGiven(run, StepCall(s, c))
  {
    var s' := StepCall(s, c);
    assert CallGiven(run, s.calls[c]) && CallGiven(run, s'.calls[c]);
    forall d | 0 <= d < |s'.calls| ensures CallGiven(run, s'.calls[d]) {
      if d != c { assert s'.calls[d] == s.calls[d]; }
    }
  }

  /** In every interleaving, no value comes out of nowhere. */
  lemma {:induction false} ValuesAreGiven(run: seq<Action>)
    requires Exec(run).Some?
    ensures AllGiven(run, Exec(run).value)
  {
    if run != [] {
      var before, a := run[..|run| - 1], run[|run| - 1];
      assert run == before + [a];
      ValuesAreGiven(before);
      GivenStays(before, Exec(before).value, a);
      if a.Step? { GivenStep(run, Exec(before).value, a.c); }
    }
  }
}
