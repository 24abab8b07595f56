/**
 * The continuations of RFC 2231 sections 3 and 4: a value in numbered parts, in
 * any order and each written in its own way, is put together by ParseMediaType
 * (src/mime/mediatype.go) in the order of the numbers.
 */
module MediaContinuations {
  import opened Wrappers
  import opened Text
  import opened Grammar
  import opened MediaParams
  import opened MediaType
  import opened MediaWritten

  // ---------- numbers ----------

  /** num is n in decimal, without zeros in front. */
  predicate WrittenNumber(num: Bytes, n: nat)
  {
    num != [] && (forall i :: 0 <= i < |num| ==> 48 <= num[i] <= 57) && (|num| > 1 ==> num[0] != 48) && Value(num) == n
  }

  lemma {:induction false} PositiveValue(num: Bytes)
    requires num != [] && num[0] != 48 && forall i :: 0 <= i < |num| ==> 48 <= num[i] <= 57
    ensures Value(num) > 0
  {
    if |num| > 1 {
      PositiveValue(num[..|num| - 1]);
    } else {
      assert num[..0] == [];
    }
  }

  /** A number is written in one way only. */
  lemma {:induction false} NumberIsDecimal(num: Bytes, n: nat)
    requires WrittenNumber(num, n)
    ensures num == Decimal(n)
    decreases |num|
  {
    var front, last := num[..|num| - 1], num[|num| - 1];
    assert num == front + [last];
    if front == [] {
      assert Value(front) == 0;
    } else {
      PositiveValue(front);
      NumberIsDecimal(front, Value(front));
    }
  }

  // ---------- parts ----------

  /** A part as it is written, its number, and what it says. */
  datatype Part = Part(w: Written, number: nat, value: Bytes)

  predicate IsBase(name: Bytes) { name != [] && AllTokenChars(name) && LowerAll(name) == name && STAR !in name }

  /** name*number=value, or name*number*=value percent-encoded; with an unknown charset the first part says nothing. */
  ghost predicate IsPart(p: Part, name: Bytes)
  {
    WellFormed(p.w) && exists num :: WrittenNumber(num, p.number) && PartSays(p, name, num)
  }

  ghost predicate PartSays(p: Part, name: Bytes, num: Bytes)
  {
    (LowerAll(p.w.attr) == name + ([STAR] + num) && SaysValue(p.w.text, p.value)) ||
    (LowerAll(p.w.attr) == name + ([STAR] + (num + [STAR])) &&
     (SaysCoded(p.w.text, p.number == 0, true, p.value) ||
      (p.number == 0 && p.value == [] && exists lost :: SaysCoded(p.w.text, true, false, lost))))
  }

  /** The parameters, and what comes after them. */
  function PartsThen(parts: seq<Part>, tail: Bytes): Bytes
  {
    if parts == [] then tail else WrittenThen(parts[0].w, PartsThen(parts[1..], tail))
  }

  ghost predicate AllParts(parts: seq<Part>, name: Bytes)
  {
    (forall i :: 0 <= i < |parts| ==> IsPart(parts[i], name)) &&
    forall i, j :: 0 <= i < j < |parts| ==> parts[i].number != parts[j].number
  }

  // ---------- what the parser keeps of a part ----------

  /** Under which name and how the part is kept. */
  predicate Kept(p: Part, name: Bytes, raw: Bytes)
  {
    var attr, simple := LowerAll(p.w.attr), SimplePart(name, p.number);
    (attr == simple && raw == p.value) ||
    (attr == simple + [STAR] && p.value == OrEmpty(if p.number == 0 then Decode2231(raw) else PercentDecoded(raw)))
  }

  lemma PartRead(p: Part, name: Bytes, tail: Bytes) returns (raw: Bytes)
    requires IsPart(p, name) && EndsToken(tail)
    ensures ConsumedValue(p.w.text + tail) == (raw, tail) && p.w.text != [] && 0x20 < p.w.text[0] < 0x7f && Kept(p, name, raw)
  {
    var num :| WrittenNumber(num, p.number) && PartSays(p, name, num);
    NumberIsDecimal(num, p.number);
    Assoc(name, [STAR], num);
    Assoc(name, [STAR], num + [STAR]);
    Assoc(name + [STAR], num, [STAR]);
    if LowerAll(p.w.attr) == name + ([STAR] + num) && SaysValue(p.w.text, p.value) {
      raw := p.value;
      ValueRead(p.w.text, p.value, tail);
    } else {
      raw := p.w.text;
      if SaysCoded(p.w.text, p.number == 0, true, p.value) {
        CodedRead(p.w.text, p.number == 0, true, p.value, tail);
      } else {
        var lost :| SaysCoded(p.w.text, true, false, lost);
        CodedRead(p.w.text, true, false, lost, tail);
      }
    }
  }

  lemma {:induction false} EndsWell(parts: seq<Part>, tail: Bytes, name: Bytes)
    requires AllParts(parts, name) && Blank(tail)
    ensures EndsToken(PartsThen(parts, tail))
  {
    if parts == [] {
      if tail != [] { assert 9 <= tail[0] <= 13 || tail[0] == SPACE; }
    } else {
      var w := parts[0].w;
      assert IsPart(parts[0], name);
      if w.before != [] { assert PartsThen(parts, tail)[0] == w.before[0]; }
      else { assert PartsThen(parts, tail)[0] == SEMICOLON; }
    }
  }

  /** acc keeps exactly these parts. */
  ghost predicate Collected(acc: Acc, name: Bytes, parts: seq<Part>)
  {
    Filed(acc) &&
    (forall i :: 0 <= i < |parts| ==>
      var raw := Lookup(acc, LowerAll(parts[i].w.attr)); raw.Some? && Kept(parts[i], name, raw.value)) &&
    forall x :: Lookup(acc, x).Some? ==> exists i :: 0 <= i < |parts| && LowerAll(parts[i].w.attr) == x
  }

  lemma NamesDiffer(p: Part, q: Part, name: Bytes, a: Bytes, b: Bytes)
    requires p.number != q.number && Kept(p, name, a) && Kept(q, name, b)
    ensures LowerAll(p.w.attr) != LowerAll(q.w.attr)
  {
    PartNamesDiffer(name, p.number, q.number);
    PartNamesDiffer(name, q.number, p.number);
  }

  lemma OneMoreCollected(acc: Acc, name: Bytes, done: seq<Part>, p: Part, raw: Bytes) returns (next: Acc)
    requires Collected(acc, name, done) && Kept(p, name, raw) && forall i :: 0 <= i < |done| ==> done[i].number != p.number
    ensures Insert(acc, LowerAll(p.w.attr), raw) == Some(next) && Collected(next, name, done + [p])
  {
    var key := LowerAll(p.w.attr);
    InsertKeeps(acc, key, raw);
    forall i | 0 <= i < |done| ensures LowerAll(done[i].w.attr) != key {
      NamesDiffer(done[i], p, name, Lookup(acc, LowerAll(done[i].w.attr)).value, raw);
    }
    next := Insert(acc, key, raw).value;
    var more := done + [p];
    forall x | Lookup(next, x).Some? ensures exists i :: 0 <= i < |more| && LowerAll(more[i].w.attr) == x {
      if x == key {
        assert more[|done|] == p;
      } else {
        var i :| 0 <= i < |done| && LowerAll(done[i].w.attr) == x;
        assert more[i] == done[i];
      }
    }
  }

  lemma LoopStep(p: Part, name: Bytes, tail: Bytes, acc: Acc, next: Acc, raw: Bytes)
    requires WellFormed(p.w) && ConsumedValue(p.w.text + tail) == (raw, tail) && p.w.text != [] && 0x20 < p.w.text[0] < 0x7f
    requires Insert(acc, LowerAll(p.w.attr), raw) == Some(next)
    ensures ParseLoop(WrittenThen(p.w, tail), acc) == ParseLoop(tail, next)
  {
    WrittenConsumed(p.w, raw, tail);
  }

  /** The loop collects all the parts. */
  lemma {:induction false} LoopCollects(parts: seq<Part>, tail: Bytes, name: Bytes, done: seq<Part>, acc: Acc) returns (end: Acc)
    requires AllParts(done + parts, name) && Collected(acc, name, done) && Blank(tail)
    ensures ParseLoop(PartsThen(parts, tail), acc) == Finished(end) && Collected(end, name, done + parts)
    decreases |parts|
  {
    if parts == [] {
      end := acc;
      assert done + parts == done;
      assert tail + [] == tail;
      BlankTrimmed(tail, []);
    } else {
      var p, more := parts[0], parts[1..];
      var rest := PartsThen(more, tail);
      assert done + parts == (done + [p]) + more;
      assert (done + parts)[|done|] == p;
      forall i | 0 <= i < |done| ensures done[i].number != p.number { assert (done + parts)[i] == done[i]; }
      assert AllParts(more, name) by { LaterParts(done + [p], more, name); }
      EndsWell(more, tail, name);
      var raw := PartRead(p, name, rest);
      var next := OneMoreCollected(acc, name, done, p, raw);
      LoopStep(p, name, rest, acc, next, raw);
      end := LoopCollects(more, tail, name, done + [p], next);
    }
  }

  lemma LaterParts(a: seq<Part>, b: seq<Part>, name: Bytes)
    requires AllParts(a + b, name)
    ensures AllParts(b, name)
  {
    forall i | 0 <= i < |b| ensures IsPart(b[i], name) { assert (a + b)[|a| + i] == b[i]; }
    forall i, j | 0 <= i < j < |b| ensures b[i].number != b[j].number {
      assert (a + b)[|a| + i] == b[i] && (a + b)[|a| + j] == b[j];
    }
  }

  // ---------- how they are put together ----------

  /** The numbers below that of vals are all there and say these; that number itself is not there. */
  predicate Tell(parts: seq<Part>, vals: seq<Bytes>)
  {
    (forall i :: 0 <= i < |parts| ==>
      parts[i].number != |vals| && (parts[i].number < |vals| ==> parts[i].value == vals[parts[i].number])) &&
    forall k :: 0 <= k < |vals| ==> HasNumber(parts, k)
  }

  predicate HasNumber(parts: seq<Part>, k: nat) { exists i :: 0 <= i < |parts| && parts[i].number == k }

  lemma KeptUnder(p: Part, name: Bytes, raw: Bytes)
    requires IsBase(name) && Kept(p, name, raw)
    ensures var attr := LowerAll(p.w.attr); Index(attr, [STAR]) == |name| && attr[..|name|] == name
  {
    var attr := LowerAll(p.w.attr);
    var num := Decimal(p.number) + if attr == SimplePart(name, p.number) then [] else [STAR];
    assert attr == name + ([STAR] + num);
    IndexAfter(name, [STAR], num);
    Cut(name, [STAR] + num);
  }

  lemma PlainLookup(acc: Acc, x: Bytes)
    requires Filed(acc) && x in acc.params
    ensures Lookup(acc, x).Some? && Index(x, [STAR]) == -1
  {
    ByteIndex(x, STAR);
  }

  /** All that is kept is in the one map of pieces. */
  lemma OnlyPieces(acc: Acc, name: Bytes, parts: seq<Part>)
    requires IsBase(name) && Collected(acc, name, parts)
    ensures acc.params == map[] && acc.continuation.Keys == if parts == [] then {} else {name}
    ensures forall x :: x in PiecesOf(acc, name) <==> Lookup(acc, x).Some?
    ensures forall x :: x in PiecesOf(acc, name) ==> Lookup(acc, x) == Some(PiecesOf(acc, name)[x])
  {
    forall x | Lookup(acc, x).Some? ensures Index(x, [STAR]) == |name| && x[..|name|] == name && x in PiecesOf(acc, name) {
      var i :| 0 <= i < |parts| && LowerAll(parts[i].w.attr) == x;
      KeptUnder(parts[i], name, Lookup(acc, x).value);
    }
    forall x ensures x !in acc.params {
      if x in acc.params { PlainLookup(acc, x); }
    }
    forall base | base in acc.continuation ensures base == name && parts != [] {
      var x :| x in acc.continuation[base];
      assert Lookup(acc, x).Some?;
    }
    forall x | x in PiecesOf(acc, name) ensures Lookup(acc, x) == Some(PiecesOf(acc, name)[x]) { }
    if parts != [] {
      var x := LowerAll(parts[0].w.attr);
      assert Lookup(acc, x).Some?;
    }
  }

  lemma PartThere(acc: Acc, name: Bytes, parts: seq<Part>, i: nat)
    requires IsBase(name) && Collected(acc, name, parts) && i < |parts|
    requires forall a, b :: 0 <= a < b < |parts| ==> parts[a].number != parts[b].number
    ensures PartText(PiecesOf(acc, name), name, parts[i].number) == Some(parts[i].value)
  {
    var pieces, p := PiecesOf(acc, name), parts[i];
    OnlyPieces(acc, name, parts);
    var attr, simple := LowerAll(p.w.attr), SimplePart(name, p.number);
    assert Lookup(acc, attr).Some? && Kept(p, name, pieces[attr]);
    if attr != simple && simple in pieces { NoOther(acc, name, parts, i, simple); }
  }

  /** A number is kept under one name only. */
  lemma NoOther(acc: Acc, name: Bytes, parts: seq<Part>, i: nat, x: Bytes)
    requires Collected(acc, name, parts) && i < |parts| && Lookup(acc, x).Some?
    requires forall a, b :: 0 <= a < b < |parts| ==> parts[a].number != parts[b].number
    requires x == SimplePart(name, parts[i].number) || x == SimplePart(name, parts[i].number) + [STAR]
    ensures x == LowerAll(parts[i].w.attr)
  {
    var j :| 0 <= j < |parts| && LowerAll(parts[j].w.attr) == x;
    assert Kept(parts[j], name, Lookup(acc, x).value);
    if j != i {
      PartNamesDiffer(name, parts[i].number, parts[j].number);
      PartNamesDiffer(name, parts[j].number, parts[i].number);
    }
  }

  lemma PartMissing(acc: Acc, name: Bytes, parts: seq<Part>, k: nat)
    requires IsBase(name) && Collected(acc, name, parts) && forall i :: 0 <= i < |parts| ==> parts[i].number != k
    ensures PartText(PiecesOf(acc, name), name, k).None?
  {
    OnlyPieces(acc, name, parts);
    forall x | x == SimplePart(name, k) || x == SimplePart(name, k) + [STAR] ensures x !in PiecesOf(acc, name) {
      if x in PiecesOf(acc, name) { NumberKept(acc, name, parts, k, x); }
    }
  }

  lemma NumberKept(acc: Acc, name: Bytes, parts: seq<Part>, k: nat, x: Bytes)
    requires Collected(acc, name, parts) && Lookup(acc, x).Some?
    requires x == SimplePart(name, k) || x == SimplePart(name, k) + [STAR]
    ensures exists i :: 0 <= i < |parts| && parts[i].number == k
  {
    var i :| 0 <= i < |parts| && LowerAll(parts[i].w.attr) == x;
    assert Kept(parts[i], name, Lookup(acc, x).value);
    if parts[i].number != k {
      PartNamesDiffer(name, parts[i].number, k);
      PartNamesDiffer(name, k, parts[i].number);
    }
  }

  lemma KeptLonger(p: Part, name: Bytes, raw: Bytes)
    requires Kept(p, name, raw)
    ensures |LowerAll(p.w.attr)| > |name| + 1
  {
    assert |Decimal(p.number)| > 0;
    assert |SimplePart(name, p.number)| == |name| + 1 + |Decimal(p.number)|;
  }

  /** There is no value in one piece beside the parts: all names go on with a number. */
  lemma NoSinglePiece(acc: Acc, name: Bytes, parts: seq<Part>)
    requires IsBase(name) && Collected(acc, name, parts)
    ensures name + [STAR] !in PiecesOf(acc, name)
  {
    OnlyPieces(acc, name, parts);
    forall x | Lookup(acc, x).Some? ensures |x| > |name| + 1 {
      var i :| 0 <= i < |parts| && LowerAll(parts[i].w.attr) == x;
      KeptLonger(parts[i], name, Lookup(acc, x).value);
    }
  }

  lemma {:induction false} JoinedIs(pieces: Pieces, name: Bytes, vals: seq<Bytes>, k: nat)
    requires k <= |vals| && PartText(pieces, name, |vals|).None?
    requires forall m: nat :: m < |vals| ==> PartText(pieces, name, m) == Some(vals[m])
    ensures Joined(pieces, name, k) == Concat(vals[k..])
    decreases |vals| - k
  {
    if k < |vals| {
      NextPart(pieces, name, k);
      JoinedIs(pieces, name, vals, k + 1);
      assert vals[k..] == [vals[k]] + vals[k + 1..];
    } else {
      assert vals[k..] == [];
    }
  }

  lemma StitchedIs(acc: Acc, name: Bytes, parts: seq<Part>, vals: seq<Bytes>)
    requires IsBase(name) && AllParts(parts, name) && Collected(acc, name, parts) && Tell(parts, vals)
    ensures Stitched(PiecesOf(acc, name), name) == if vals == [] then None else Some(Concat(vals))
  {
    var pieces := PiecesOf(acc, name);
    forall m: nat | m < |vals| ensures PartText(pieces, name, m) == Some(vals[m]) {
      assert HasNumber(parts, m);
      var i :| 0 <= i < |parts| && parts[i].number == m;
      PartThere(acc, name, parts, i);
    }
    PartMissing(acc, name, parts, |vals|);
    NoSinglePiece(acc, name, parts);
    JoinedIs(pieces, name, vals, 0);
    assert vals[0..] == vals;
  }

  // ---------- the law ----------

  /** The text of a type and the parts, with white space at the end. */
  lemma TypeRead(t: Bytes, rest: Bytes)
    requires IsMediaType(t) && EndsParam(rest)
    ensures Parsed(t + rest) == Outcome(LowerAll(t), ParseLoop(rest, EMPTY))
  {
    DispositionMeans(t);
    TypeIsOk(t);
    TypeShape(t);
    LowerToken(t);
    SplitAtType(t, rest);
  }

  lemma TypeIsOk(t: Bytes)
    requires IsMediaType(t)
    ensures TypeOk(t) && SEMICOLON !in t
  {
    if IsToken(t) {
      ByteIndex(t, SLASH);
    } else {
      var major, sub :| IsToken(major) && IsToken(sub) && t == major + ([SLASH] + sub);
      TwoTokensTypeOk(major, sub);
    }
  }

  lemma TwoTokensTypeOk(major: Bytes, sub: Bytes)
    requires IsToken(major) && IsToken(sub)
    ensures TypeOk(major + ([SLASH] + sub)) && SEMICOLON !in major + ([SLASH] + sub)
  {
    assert SLASH !in major;
    IndexAfter(major, [SLASH], sub);
    Cut(major, [SLASH] + sub);
    Assoc(major, [SLASH], sub);
    Cut(major + [SLASH], sub);
  }

  /**
   * A value in numbered parts: whatever their order, and however each is written,
   * the value is what the parts say in the order of their numbers, up to the first
   * number that is missing. The parts behind a gap are dropped.
   */
  lemma ContinuationsRead(t: Bytes, name: Bytes, parts: seq<Part>, vals: seq<Bytes>, end: Bytes)
    requires IsMediaType(t) && IsBase(name) && AllParts(parts, name) && Tell(parts, vals) && Blank(end)
    requires parts != [] && parts[0].w.before == []
    ensures Parsed(t + PartsThen(parts, end)) == Ok(LowerAll(t), if vals == [] then map[] else map[name := Concat(vals)])
  {
    var rest := PartsThen(parts, end);
    assert rest == FromMark(parts[0].w, PartsThen(parts[1..], end));
    TypeRead(t, rest);
    assert [] + parts == parts;
    assert Filed(EMPTY) && Collected(EMPTY, name, []);
    var acc := LoopCollects(parts, end, name, [], EMPTY);
    OnlyPieces(acc, name, parts);
    StitchedIs(acc, name, parts, vals);
    AllFinalIs(acc, name, if vals == [] then None else Some(Concat(vals)));
  }

  lemma AllFinalIs(acc: Acc, name: Bytes, value: Option<Bytes>)
    requires acc.params == map[] && acc.continuation.Keys == {name} && Stitched(acc.continuation[name], name) == value
    ensures AllFinal(acc) == if value.Some? then map[name := value.value] else map[]
  {
    assert forall key :: key in acc.params.Keys + acc.continuation.Keys <==> key == name;
    assert Final(acc, name) == value;
  }

  /** And in one part, which has no number. */
  lemma SinglePartRead(t: Bytes, name: Bytes, w: Written, known: bool, value: Bytes, end: Bytes)
    requires IsMediaType(t) && IsBase(name) && WellFormed(w) && w.before == [] && Blank(end)
    requires LowerAll(w.attr) == name + [STAR] && SaysCoded(w.text, true, known, value)
    ensures Parsed(t + WrittenThen(w, end)) == Ok(LowerAll(t), if known then map[name := value] else map[])
  {
    var rest := WrittenThen(w, end);
    assert rest == FromMark(w, end);
    TypeRead(t, rest);
    EndsBlank(end);
    CodedRead(w.text, true, known, value, end);
    SingleCollected(name, w, end);
    AllFinalIs(OneKept(name, w), name, if known then Some(value) else None);
  }

  lemma EndsBlank(end: Bytes)
    requires Blank(end)
    ensures EndsToken(end)
  {
    if end != [] { assert 9 <= end[0] <= 13 || end[0] == SPACE; }
  }

  function OneKept(name: Bytes, w: Written): Acc { EMPTY.(continuation := map[name := map[name + [STAR] := w.text]]) }

  lemma SingleCollected(name: Bytes, w: Written, end: Bytes)
    requires IsBase(name) && WellFormed(w) && Blank(end) && LowerAll(w.attr) == name + [STAR]
    requires w.text != [] && 0x20 < w.text[0] < 0x7f && ConsumedValue(w.text + end) == (w.text, end)
    ensures ParseLoop(WrittenThen(w, end), EMPTY) == Finished(OneKept(name, w))
  {
    WrittenConsumed(w, w.text, end);
    assert end + [] == end;
    BlankTrimmed(end, []);
    StarredBase(name);
    assert Insert(EMPTY, name + [STAR], w.text) == Some(OneKept(name, w));
  }
}
