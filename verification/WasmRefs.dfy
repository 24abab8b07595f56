/**
 * The table of JavaScript values that a Go program holds references to
 * (misc/wasm/wasm_exec.js): ids with reference counts and a pool of freed ids.
 */
module WasmRefs {
  import opened Wrappers

  /** JavaScript values; Number is any number but 0 and NaN. */
  datatype Value =
    | NaN | Zero | Null | True | False | Global | This | Undefined
    | Number(number: int) | Object(which: nat) | Str(text: string) | Symbol(which: nat) | Function(which: nat)

  /** The eight bytes in linear memory: a float, 0.0 for undefined, or a NaN with a type flag over an id. */
  datatype Ref = Float(number: int) | Nothing | Id(id: nat, flag: nat)

  datatype Count = Finite(n: int) | Infinite

  /** counts[id]++ and counts[id]-- */
  function Plus(c: Count, d: int): Count { if c.Infinite? then c else Finite(c.n + d) }

  function TypeFlag(v: Value): nat
  {
    match v
    case Global => 1
    case This => 1
    case Object(_) => 1
    case Str(_) => 2
    case Symbol(_) => 3
    case Function(_) => 4
    case _ => 0
  }

  /** The flags that Go tells the types apart by: objects but null, strings, symbols, functions, and the rest. */
  predicate FlagTells(flag: nat, v: Value)
  {
    flag <= 4 && (flag == 1 <==> v.Global? || v.This? || v.Object?) && (flag == 2 <==> v.Str?) &&
    (flag == 3 <==> v.Symbol?) && (flag == 4 <==> v.Function?)
  }

  const FIRST: seq<Value> := [NaN, Zero, Null, True, False, Global, This]

  /** The four tables, and how many references to each id Go holds that it may still finalize. */
  datatype Tables = Tables(values: seq<Value>, counts: seq<Count>, ids: map<Value, nat>, idPool: seq<nat>, refs: multiset<nat>)

  /** The id is in use: its value is found under it, and it counts its references. */
  predicate Live(t: Tables, id: nat)
  {
    id < |t.values| && id < |t.counts| && t.values[id] in t.ids && t.ids[t.values[id]] == id &&
    if id < |FIRST| then t.counts[id] == Infinite else t.counts[id] == Finite(t.refs[id]) && t.refs[id] > 0
  }

  /** The id is free: no references, and no value. */
  predicate Free(t: Tables, id: nat)
  {
    |FIRST| <= id < |t.values| && t.refs[id] == 0 && t.values[id] == Null
  }

  /** Values that are kept in the table. */
  predicate Kept(v: Value) { v != NaN && v != Undefined && !v.Number? }

  /** Id 0 stands for NaN; every other id is either live or in the pool, and there just once. */
  ghost predicate ValidTables(t: Tables)
  {
    |t.values| == |t.counts| >= |FIRST| && t.values[..|FIRST|] == FIRST && t.counts[0] == Infinite &&
    (forall v :: v in t.ids ==> 0 < t.ids[v] < |t.values| && t.values[t.ids[v]] == v && Kept(v) && Live(t, t.ids[v])) &&
    NoRepeats(t.idPool) && (forall id :: id in t.idPool ==> Free(t, id)) &&
    (forall id: nat :: 0 < id < |t.values| && id !in t.idPool ==> Live(t, id)) &&
    (forall id: nat :: id >= |t.values| || id == 0 ==> t.refs[id] == 0)
  }

  /** An id cannot be both live and free. */
  lemma LiveNotFree(t: Tables, id: nat)
    requires ValidTables(t) && Free(t, id)
    ensures !Live(t, id)
  {
  }

  /** One more reference to a value that has an id. */
  function Referenced(t: Tables, id: nat): Tables
    requires id < |t.counts|
  {
    t.(counts := t.counts[id := Plus(t.counts[id], 1)], refs := t.refs + multiset{id})
  }

  lemma ReferencedOk(t: Tables, id: nat)
    requires ValidTables(t) && 0 < id && Live(t, id)
    ensures ValidTables(Referenced(t, id))
  {
    var t' := Referenced(t, id);
    forall j: nat | Live(t, j) ensures Live(t', j) { }
    assert id !in t.idPool by { if id in t.idPool { LiveNotFree(t, id); } }
  }

  /** The value takes the last id of the pool, or a new one, and has its first reference. */
  function Entered(t: Tables, v: Value): Tables
  {
    if t.idPool != [] && t.idPool[|t.idPool| - 1] < |t.values| == |t.counts| then
      var id := t.idPool[|t.idPool| - 1];
      Tables(t.values[id := v], t.counts[id := Finite(1)], t.ids[v := id], t.idPool[..|t.idPool| - 1], t.refs + multiset{id})
    else
      Tables(t.values + [v], t.counts + [Finite(1)], t.ids[v := |t.values|], t.idPool, t.refs + multiset{|t.values|})
  }

  /** References that are held keep their values. */
  ghost predicate HeldKept(t: Tables, t': Tables)
  {
    forall id: nat :: t.refs[id] > 0 ==> id < |t.values| <= |t'.values| && t'.values[id] == t.values[id]
  }

  lemma PooledOk(t: Tables, v: Value)
    requires ValidTables(t) && v !in t.ids && Kept(v) && t.idPool != []
    ensures t.idPool[|t.idPool| - 1] < |t.values| && ValidTables(Entered(t, v)) && HeldKept(t, Entered(t, v))
  {
    var t' := Entered(t, v);
    var id := t.idPool[|t.idPool| - 1];
    assert id in t.idPool && Free(t, id);
    Popped(t.idPool, t'.idPool);
    LiveNotFree(t, id);
    assert Live(t', id);
    forall j: nat | Live(t, j) ensures Live(t', j) && j != id { }
    forall j | j in t'.idPool ensures Free(t', j) && j != id { assert Free(t, j); }
    forall j: nat | 0 < j < |t'.values| && j !in t'.idPool ensures Live(t', j) {
      if j != id { assert j !in t.idPool; }
    }
    assert t'.values[..|FIRST|] == FIRST;
  }

  lemma Popped(pool: seq<nat>, rest: seq<nat>)
    requires NoRepeats(pool) && pool != [] && rest == pool[..|pool| - 1]
    ensures NoRepeats(rest) && pool[|pool| - 1] in pool && pool[|pool| - 1] !in rest
    ensures forall j :: j in pool <==> j in rest || j == pool[|pool| - 1]
  {
    assert pool == rest + [pool[|pool| - 1]];
  }

  lemma NewIdOk(t: Tables, v: Value)
    requires ValidTables(t) && v !in t.ids && Kept(v) && t.idPool == []
    ensures ValidTables(Entered(t, v)) && HeldKept(t, Entered(t, v))
  {
    var t' := Entered(t, v);
    var id := |t.values|;
    assert t.refs[id] == 0 && Live(t', id);
    forall j: nat | Live(t, j) ensures Live(t', j) && j != id { }
    assert t'.values[..|FIRST|] == FIRST;
  }

  /** A reference is gone; with the last one the id goes back to the pool. */
  function Finalized(t: Tables, id: nat): Tables
    requires id < |t.values| == |t.counts|
  {
    var t1 := t.(counts := t.counts[id := Plus(t.counts[id], -1)], refs := t.refs - multiset{id});
    if t1.counts[id] == Finite(0) then
      t1.(values := t.values[id := Null], ids := t.ids - {t.values[id]}, idPool := t.idPool + [id])
    else t1
  }

  lemma FinalizedOk(t: Tables, id: nat)
    requires ValidTables(t) && t.refs[id] > 0
    ensures id < |t.values| && ValidTables(Finalized(t, id))
    ensures |Finalized(t, id).values| == |t.values| && HeldKept(Finalized(t, id), t)
  {
    var t' := Finalized(t, id);
    assert id !in t.idPool && Live(t, id);
    forall j: nat | Live(t, j) && j != id ensures Live(t', j) { }
    if t'.counts[id] != Finite(0) {
      assert Live(t', id);
    } else {
      forall v | v in t'.ids ensures t'.ids[v] != id { }
      assert Free(t', id);
      assert forall j :: j in t'.idPool <==> j in t.idPool || j == id;
    }
    assert t'.values[..|FIRST|] == FIRST;
  }

  /** The tables that run sets up. */
  const START := Tables(
    FIRST, [Infinite, Infinite, Infinite, Infinite, Infinite, Infinite, Infinite],
    map[Zero := 1, Null := 2, True := 3, False := 4, Global := 5, This := 6], [], multiset{})

  lemma StartLive(id: nat)
    requires 0 < id < 7
    ensures Live(START, id)
  {
    assert FIRST[id] == START.values[id];
    if id == 1 { } else if id == 2 { } else if id == 3 { } else if id == 4 { } else if id == 5 { } else { }
  }

  lemma StartOk()
    ensures ValidTables(START)
  {
    forall id: nat | 0 < id < |START.values| ensures Live(START, id) { StartLive(id); }
    forall v | v in START.ids ensures 0 < START.ids[v] < 7 && START.values[START.ids[v]] == v && Kept(v) && Live(START, START.ids[v]) {
      StartLive(START.ids[v]);
    }
  }

  /** The reference counts for its id; references to numbers, undefined and NaN do not. */
  predicate Counted(ref: Ref) { ref.Id? && ref.id != 0 }

  /** storeValue's effect on the tables. */
  function Stored(t: Tables, v: Value): Tables
    requires ValidTables(t)
  {
    if !Kept(v) then t else if v in t.ids then Referenced(t, t.ids[v]) else Entered(t, v)
  }

  /** What storeValue writes to memory. */
  function RefOf(t: Tables, v: Value): Ref
    requires ValidTables(t)
  {
    if v.Number? then Float(v.number)
    else if v == NaN then Id(0, 0)
    else if v == Undefined then Nothing
    else if v in t.ids then Id(t.ids[v], TypeFlag(v))
    else Id(if t.idPool != [] then t.idPool[|t.idPool| - 1] else |t.values|, TypeFlag(v))
  }

  /** loadValue */
  function Loaded(t: Tables, ref: Ref): Value
  {
    match ref
    case Nothing => Undefined
    case Float(number) => Number(number)
    case Id(id, _) => if id < |t.values| then t.values[id] else Undefined
  }

  /** A reference tells the type of what was stored. */
  lemma RefTellsType(t: Tables, v: Value)
    requires ValidTables(t)
    ensures RefOf(t, v).Id? ==> FlagTells(RefOf(t, v).flag, v)
  {
  }

  /** The table only grows for a new value, and only when the pool has no id to use again. */
  lemma IdsAreReused(t: Tables, v: Value)
    requires ValidTables(t)
    ensures |Stored(t, v).values| == |t.values| + if Kept(v) && v !in t.ids && t.idPool == [] then 1 else 0
  {
    if t.idPool != [] { assert t.idPool[|t.idPool| - 1] in t.idPool; }
  }

  /** A stored value is loaded back; what is held already stays. */
  lemma StoredOk(t: Tables, v: Value)
    requires ValidTables(t)
    ensures var t', ref := Stored(t, v), RefOf(t, v);
            ValidTables(t') && Loaded(t', ref) == v && (ref.Id? ==> ref.id < |t'.values|) && (Counted(ref) <==> Kept(v)) &&
            (Counted(ref) ==> t'.refs == t.refs + multiset{ref.id}) && (!Counted(ref) ==> t' == t) &&
            HeldKept(t, t')
  {
    if Kept(v) {
      if v in t.ids {
        ReferencedOk(t, t.ids[v]);
      } else {
        if t.idPool != [] { PooledOk(t, v); } else { NewIdOk(t, v); }
      }
    }
  }

  class Table {
    var values: seq<Value>
    var counts: seq<Count>
    var ids: map<Value, nat>
    var idPool: seq<nat>
    ghost var refs: multiset<nat>

    ghost function State(): Tables
      reads this
    {
      Tables(values, counts, ids, idPool, refs)
    }

    constructor ()
      ensures State() == START
    {
      values := FIRST;
      counts := START.counts;
      ids := START.ids;
      idPool := [];
      refs := multiset{};
    }

    method LoadValue(ref: Ref) returns (v: Value)
      ensures v == Loaded(State(), ref)
    {
      match ref
      case Nothing => return Undefined;
      case Float(number) => return Number(number);
      case Id(id, _) => return if id < |values| then values[id] else Undefined;
    }

    /** Give a value that has none an id. */
    method Enter(v: Value) returns (id: nat)
      requires ValidTables(State()) && v !in ids && Kept(v)
      modifies this`values, this`counts, this`ids, this`idPool
      ensures RefOf(old(State()), v) == Id(id, TypeFlag(v)) && id < |counts|
      ensures State().(counts := counts[id := Finite(1)], refs := refs + multiset{id}) == Entered(old(State()), v)
      ensures counts[id] == Finite(0)
    {
      if |idPool| > 0 {
        id := idPool[|idPool| - 1];
        assert id in idPool;
        idPool := idPool[..|idPool| - 1];
        values := values[id := v];
        counts := counts[id := Finite(0)];
      } else {
        id := |values|;
        values := values + [v];
        counts := counts + [Finite(0)];
      }
      ids := ids[v := id];
    }

    method StoreValue(v: Value) returns (ref: Ref)
      requires ValidTables(State())
      modifies this
      ensures State() == Stored(old(State()), v) && ref == RefOf(old(State()), v)
    {
      if v.Number? { return Float(v.number); }
      if v == NaN { return Id(0, 0); }
      if v == Undefined { return Nothing; }
      var id: nat;
      if v in ids {
        id := ids[v];
      } else {
        id := Enter(v);
      }
      counts := counts[id := Plus(counts[id], 1)];
      refs := refs + multiset{id};
      return Id(id, TypeFlag(v));
    }

    /** syscall/js.finalizeRef, for a reference that has not been finalized */
    method FinalizeRef(id: nat)
      requires ValidTables(State()) && refs[id] > 0
      modifies this
      ensures State() == Finalized(old(State()), id)
    {
      counts := counts[id := Plus(counts[id], -1)];
      refs := refs - multiset{id};
      if counts[id] == Finite(0) {
        var v := values[id];
        values := values[id := Null];
        ids := ids - {v};
        idPool := idPool + [id];
      }
    }
  }

  // ---------- any run ----------

  datatype Op = Store(v: Value) | Finalize(ref: Ref, v: Value)

  type Held = multiset<(Ref, Value)>

  /** The tables and the references still held after a run; only what is held and counts can be finalized. */
  function Run(ops: seq<Op>): (Tables, Held)
    ensures ValidTables(Run(ops).0) && HeldOk(Run(ops).0, Run(ops).1)
  {
    if ops == [] then
      StartOk();
      (START, multiset{})
    else
      var (t, held) := Run(ops[..|ops| - 1]);
      match ops[|ops| - 1]
      case Store(v) =>
        StoreHeld(t, held, v);
        (Stored(t, v), held + multiset{(RefOf(t, v), v)})
      case Finalize(ref, v) =>
        if (ref, v) in held && Counted(ref) then
          FinalizeHeld(t, held, ref, v);
          (Finalized(t, ref.id), held - multiset{(ref, v)})
        else (t, held)
  }

  /** Each held reference loads its value, and the tables count them right. */
  ghost predicate HeldOk(t: Tables, held: Held)
  {
    (forall h :: h in held ==>
      (h.0.Id? ==> h.0.id < |t.values|) && Loaded(t, h.0) == h.1 && (Counted(h.0) ==> h.0.flag == TypeFlag(h.1))) &&
    forall id: nat :: 0 < id < |t.values| ==> CountRight(t, held, id)
  }

  /** As many references to the id can be finalized as are held. */
  ghost predicate CountRight(t: Tables, held: Held, id: nat)
    requires id < |t.values|
  {
    t.refs[id] == held[(Id(id, TypeFlag(t.values[id])), t.values[id])]
  }

  /** A held reference is counted, so its slot is not free. */
  lemma HeldIsCounted(t: Tables, held: Held, h: (Ref, Value))
    requires ValidTables(t) && HeldOk(t, held) && h in held && Counted(h.0)
    ensures CountRight(t, held, h.0.id) && t.refs[h.0.id] > 0 && h.0 == Id(h.0.id, TypeFlag(t.values[h.0.id])) && h.1 == t.values[h.0.id]
  {
  }

  lemma StoreHeld(t: Tables, held: Held, v: Value)
    requires ValidTables(t) && HeldOk(t, held)
    ensures ValidTables(Stored(t, v)) && HeldOk(Stored(t, v), held + multiset{(RefOf(t, v), v)})
  {
    StoredOk(t, v);
    HeldAndOne(t, Stored(t, v), held, RefOf(t, v), v);
  }

  /** What a store tells about the tables is enough to hold one reference more. */
  lemma HeldAndOne(t: Tables, t': Tables, held: Held, ref: Ref, v: Value)
    requires ValidTables(t) && ValidTables(t') && HeldOk(t, held) && HeldKept(t, t')
    requires Loaded(t', ref) == v && (ref.Id? ==> ref.id < |t'.values|)
    requires if Counted(ref) then ref.flag == TypeFlag(v) && t'.refs == t.refs + multiset{ref.id} else t' == t
    ensures HeldOk(t', held + multiset{(ref, v)})
  {
    forall h | h in held ensures Loaded(t', h.0) == h.1 && (h.0.Id? ==> h.0.id < |t'.values|) {
      if Counted(h.0) { HeldIsCounted(t, held, h); }
    }
    forall id: nat | 0 < id < |t'.values| ensures CountRight(t', held + multiset{(ref, v)}, id) {
      CountAndOne(t, t', held, ref, v, id);
    }
  }

  lemma CountAndOne(t: Tables, t': Tables, held: Held, ref: Ref, v: Value, id: nat)
    requires ValidTables(t) && HeldOk(t, held) && HeldKept(t, t') && 0 < id < |t'.values|
    requires id >= |t.values| ==> t.refs[id] == 0
    requires Loaded(t', ref) == v && (ref.Id? ==> ref.id < |t'.values|)
    requires if Counted(ref) then ref.flag == TypeFlag(v) && t'.refs == t.refs + multiset{ref.id} else t' == t
    ensures CountRight(t', held + multiset{(ref, v)}, id)
  {
    var h := (Id(id, TypeFlag(t'.values[id])), t'.values[id]);
    if id < |t.values| { assert CountRight(t, held, id); }
    if h in held { HeldIsCounted(t, held, h); }
  }

  lemma CountLessOne(t: Tables, held: Held, ref: Ref, v: Value, id: nat)
    requires ValidTables(t) && HeldOk(t, held) && (ref, v) in held && Counted(ref) && 0 < id < |t.values|
    requires ref.id < |t.values| == |t.counts| && HeldKept(Finalized(t, ref.id), t)
    ensures |Finalized(t, ref.id).values| == |t.values| && CountRight(Finalized(t, ref.id), held - multiset{(ref, v)}, id)
  {
    var t' := Finalized(t, ref.id);
    var h := (Id(id, TypeFlag(t'.values[id])), t'.values[id]);
    HeldIsCounted(t, held, (ref, v));
    assert CountRight(t, held, id);
    if h in held { HeldIsCounted(t, held, h); }
  }

  lemma FinalizeHeld(t: Tables, held: Held, ref: Ref, v: Value)
    requires ValidTables(t) && HeldOk(t, held) && (ref, v) in held && Counted(ref)
    ensures ref.id < |t.values| && ValidTables(Finalized(t, ref.id)) && HeldOk(Finalized(t, ref.id), held - multiset{(ref, v)})
  {
    HeldIsCounted(t, held, (ref, v));
    FinalizedOk(t, ref.id);
    var t', held' := Finalized(t, ref.id), held - multiset{(ref, v)};
    forall id: nat | 0 < id < |t'.values| ensures CountRight(t', held', id) { CountLessOne(t, held, ref, v, id); }
    forall h | h in held' ensures Loaded(t', h.0) == h.1 && (h.0.Id? ==> h.0.id < |t'.values|) {
      assert h in held;
      if Counted(h.0) { HeldIsCounted(t, held, h); }
    }
  }

  /** Over any run, a reference that is still held loads the value stored under it. */
  lemma HeldLoads(ops: seq<Op>, h: (Ref, Value))
    requires h in Run(ops).1
    ensures Loaded(Run(ops).0, h.0) == h.1
  {
  }

  /** Distinct values that are held never share a reference, nor an id. */
  lemma HeldDiffer(ops: seq<Op>, g: (Ref, Value), h: (Ref, Value))
    requires g in Run(ops).1 && h in Run(ops).1 && g.1 != h.1
    ensures g.0 != h.0 && (g.0.Id? && h.0.Id? ==> g.0.id != h.0.id)
  {
    HeldLoads(ops, g);
    HeldLoads(ops, h);
  }

  /** Over any run every id but NaN's is live or in the pool, not both, and in the pool at most once. */
  lemma EachIdOnce(ops: seq<Op>, id: nat)
    requires 0 < id < |Run(ops).0.values|
    ensures var t := Run(ops).0; (Live(t, id) <==> id !in t.idPool) && NoRepeats(t.idPool)
  {
    var t := Run(ops).0;
    if id in t.idPool { LiveNotFree(t, id); }
  }

  /** While any reference to an id is held, the id is live and counts exactly the references held. */
  lemma CountsAreExact(ops: seq<Op>, id: nat)
    requires |FIRST| <= id < |Run(ops).0.values| && Run(ops).0.refs[id] > 0
    ensures var (t, held) := Run(ops); Live(t, id) && t.counts[id] == Finite(held[(Id(id, TypeFlag(t.values[id])), t.values[id])])
  {
    var (t, held) := Run(ops);
    assert id !in t.idPool && CountRight(t, held, id);
  }
}
