/**
 * FormatMediaType and ParseMediaType (src/mime/mediatype.go): a media type with
 * its parameters, including the stitching together of RFC 2231 continuations.
 */
module MediaType {
  import opened Wrappers
  import opened Text
  import opened Grammar
  import opened MediaParams
  import opened Sorting

  // ---------- formatting ----------

  predicate TypeOk(t: Bytes)
  {
    var slash := Index(t, [SLASH]);
    if slash == -1 then IsToken(t) else IsToken(t[..slash]) && IsToken(t[slash + 1..])
  }

  predicate AllTokens(names: seq<Bytes>) { forall k :: k in names ==> IsToken(k) }

  /** The media type with the parameters in the given order, or nothing if a name is not a token. */
  function Formatted(t: Bytes, attrs: seq<Bytes>, param: map<Bytes, Bytes>): Bytes
    requires forall k :: k in attrs ==> k in param
  {
    if TypeOk(t) && AllTokens(attrs) then LowerAll(t) + Params(attrs, param) else []
  }

  lemma {:induction false} ParamsAppend(attrs: seq<Bytes>, k: Bytes, param: map<Bytes, Bytes>)
    requires k in param && forall a :: a in attrs ==> a in param
    ensures Params(attrs + [k], param) == Params(attrs, param) + Param(k, param[k])
  {
    if attrs == [] {
      assert attrs + [k] == [k] && [k][1..] == [];
      assert Param(k, param[k]) + [] == Param(k, param[k]) && [] + Param(k, param[k]) == Param(k, param[k]);
    } else {
      ParamsAppend(attrs[1..], k, param);
      assert (attrs + [k])[1..] == attrs[1..] + [k];
      Assoc(Param(attrs[0], param[attrs[0]]), Params(attrs[1..], param), Param(k, param[k]));
    }
  }

  /** What one parameter adds to the text, in the pieces in which FormatMediaType writes it. */
  method WriteParam(buf: Bytes, attribute: Bytes, value: Bytes) returns (b: Bytes)
    ensures b == buf + Param(attribute, value)
  {
    b := buf + [SEMICOLON] + [SPACE] + LowerAll(attribute);
    var needEnc := NeedsPercent(value);
    if needEnc { b := b + [STAR]; }
    b := b + [EQUALS];
    ghost var head := [SEMICOLON, SPACE] + (Attribute(attribute, value) + [EQUALS]);
    assert b == buf + head;
    Assoc(Attribute(attribute, value), [EQUALS], ValueText(value));
    Assoc([SEMICOLON, SPACE], Attribute(attribute, value) + [EQUALS], ValueText(value));
    Assoc(buf, head, ValueText(value));
    if needEnc {
      b := WritePercentEncoded(b + CHARSET, value);
      Assoc(buf + head, CHARSET, PercentEncoded(value));
    } else if IsToken(value) {
      b := b + value;
    } else {
      b := WriteEscaped(b + [QUOTE], value);
      b := b + [QUOTE];
      Assoc(buf + head, [QUOTE], Escaped(value));
      Assoc(buf + head, [QUOTE] + Escaped(value), [QUOTE]);
      Assoc([QUOTE], Escaped(value), [QUOTE]);
    }
  }

  method WriteType(t: Bytes) returns (r: Option<Bytes>)
    ensures r == if TypeOk(t) then Some(LowerAll(t)) else None
  {
    var slash := Index(t, [SLASH]);
    if slash == -1 {
      if !IsToken(t) { return None; }
      return Some(LowerAll(t));
    }
    var major, sub := t[..slash], t[slash + 1..];
    if !IsToken(major) || !IsToken(sub) { return None; }
    assert t[slash..slash + 1][0] == t[slash];
    LowerType(t, slash);
    Assoc(LowerAll(major), [SLASH], LowerAll(sub));
    return Some(LowerAll(major) + [SLASH] + LowerAll(sub));
  }

  lemma LowerType(t: Bytes, slash: nat)
    requires slash < |t| && t[slash] == SLASH
    ensures LowerAll(t) == LowerAll(t[..slash]) + ([SLASH] + LowerAll(t[slash + 1..]))
  {
  }

  lemma ParamsSnoc(head: Bytes, names: seq<Bytes>, n: nat, param: map<Bytes, Bytes>)
    requires n < |names| && forall k :: k in names ==> k in param
    ensures names[..n + 1] == names[..n] + [names[n]]
    ensures head + Params(names[..n + 1], param) == head + Params(names[..n], param) + Param(names[n], param[names[n]])
  {
    assert names[..n + 1] == names[..n] + [names[n]];
    ParamsAppend(names[..n], names[n], param);
    Assoc(head, Params(names[..n], param), Param(names[n], param[names[n]]));
  }

  /** The loop over the sorted names. */
  method WriteParams(head: Bytes, names: seq<Bytes>, param: map<Bytes, Bytes>) returns (r: Option<Bytes>)
    requires forall k :: k in names ==> k in param
    ensures r == if AllTokens(names) then Some(head + Params(names, param)) else None
  {
    var b := head;
    assert b + Params(names[..0], param) == b;
    for n := 0 to |names|
      invariant AllTokens(names[..n]) && b == head + Params(names[..n], param)
    {
      var attribute := names[n];
      if !IsToken(attribute) { return None; }
      ParamsSnoc(head, names, n, param);
      b := WriteParam(b, attribute, param[attribute]);
    }
    assert names[..|names|] == names;
    return Some(b);
  }

  method FormatMediaType(t: Bytes, param: map<Bytes, Bytes>) returns (r: Bytes)
    ensures r == Formatted(t, Ordered(param.Keys), param)
  {
    var names := SortedKeys(param);
    var head := WriteType(t);
    if head.None? { return []; }
    var b := WriteParams(head.value, names, param);
    return if b.Some? then b.value else [];
  }

  // ---------- parsing: collecting the parameters ----------

  type Pieces = map<Bytes, Bytes>

  /** The two maps that ParseMediaType fills: names without and with a star. */
  datatype Acc = Acc(params: Pieces, continuation: map<Bytes, Pieces>)

  const EMPTY := Acc(map[], map[])

  function PiecesOf(acc: Acc, base: Bytes): Pieces
  {
    if base in acc.continuation then acc.continuation[base] else map[]
  }

  /** pmap[key] = value, or None if the name is there already. */
  function Insert(acc: Acc, key: Bytes, value: Bytes): Option<Acc>
  {
    var idx := Index(key, [STAR]);
    if idx == -1 then
      if key in acc.params then None else Some(acc.(params := acc.params[key := value]))
    else
      var pieces := PiecesOf(acc, key[..idx]);
      if key in pieces then None
      else Some(acc.(continuation := acc.continuation[key[..idx] := pieces[key := value]]))
  }

  datatype Loop = Finished(acc: Acc) | Trailing(acc: Acc) | Malformed | Repeated

  /** The parameter loop on the rest v of the text. */
  function ParseLoop(v: Bytes, acc: Acc): Loop
    decreases |v|
  {
    var w := TrimLeft(v);
    if w == [] then Finished(acc)
    else
      var p := ConsumedParam(w);
      if p.None? then
        if TrimSpace(w) == [SEMICOLON] then Trailing(acc) else Malformed
      else
        var next := Insert(acc, p.value.0, p.value.1);
        if next.None? then Repeated else ParseLoop(p.value.2, next.value)
  }

  // ---------- parsing: stitching ----------

  /** decode2231Enc */
  function Decode2231(v: Bytes): Option<Bytes>
  {
    var i := Index(v, [APOSTROPHE]);
    if i == -1 then None
    else
      var rest := v[i + 1..];
      var j := Index(rest, [APOSTROPHE]);
      if j == -1 then None
      else if LowerAll(v[..i]) != US_ASCII && LowerAll(v[..i]) != UTF_8 then None
      else PercentDecoded(rest[j + 1..])
  }

  function Decimal(n: nat): Bytes
  {
    if n < 10 then [48 + n] else Decimal(n / 10) + [48 + n % 10]
  }

  /** "key*n" */
  function SimplePart(key: Bytes, n: nat): Bytes { key + [STAR] + Decimal(n) }

  function OrEmpty(r: Option<Bytes>): Bytes { if r.Some? then r.value else [] }

  /** The text of part n, if there is one. */
  function PartText(pieces: Pieces, key: Bytes, n: nat): Option<Bytes>
  {
    var simple := SimplePart(key, n);
    if simple in pieces then Some(pieces[simple])
    else if simple + [STAR] in pieces then
      Some(OrEmpty(if n == 0 then Decode2231(pieces[simple + [STAR]]) else PercentDecoded(pieces[simple + [STAR]])))
    else None
  }

  /** The parts from n up to the first that is missing; there are fewer parts than names. */
  function Joined(pieces: Pieces, key: Bytes, n: nat): Bytes
    decreases |pieces| - n
  {
    var part := PartText(pieces, key, n);
    if part.None? || n >= |pieces| then [] else part.value + Joined(pieces, key, n + 1)
  }

  /** The value stitched together for a name, if there is one. */
  function Stitched(pieces: Pieces, key: Bytes): Option<Bytes>
  {
    if key + [STAR] in pieces then Decode2231(pieces[key + [STAR]])
    else if PartText(pieces, key, 0).Some? then Some(Joined(pieces, key, 0))
    else None
  }

  /** The parameters in the end: a stitched value replaces one without a star. */
  function Final(acc: Acc, key: Bytes): Option<Bytes>
  {
    if key in acc.continuation && Stitched(acc.continuation[key], key).Some? then Stitched(acc.continuation[key], key)
    else if key in acc.params then Some(acc.params[key])
    else None
  }

  function AllFinal(acc: Acc): map<Bytes, Bytes>
  {
    map key | key in acc.params.Keys + acc.continuation.Keys && Final(acc, key).Some? :: Final(acc, key).value
  }

  // ---------- parsing ----------

  datatype Result = NoMediaType | RepeatedName | BadParameter(mediatype: Bytes) | Ok(mediatype: Bytes, params: map<Bytes, Bytes>)

  /** checkMediaTypeDisposition */
  predicate DispositionOk(s: Bytes)
  {
    var (typ, rest) := ConsumeToken(s);
    typ != [] &&
    (rest == [] ||
     (rest[0] == SLASH && var (subtype, end) := ConsumeToken(rest[1..]); subtype != [] && end == []))
  }

  /** Where the parameters begin. */
  function TypeEnd(v: Bytes): (i: nat)
    ensures i <= |v|
  {
    if Index(v, [SEMICOLON]) == -1 then |v| else Index(v, [SEMICOLON])
  }

  function Outcome(mediatype: Bytes, l: Loop): Result
  {
    match l
    case Finished(acc) => Ok(mediatype, AllFinal(acc))
    case Trailing(acc) => Ok(mediatype, acc.params)
    case Malformed => BadParameter(mediatype)
    case Repeated => RepeatedName
  }

  function Parsed(v: Bytes): Result
  {
    var mediatype := TrimSpace(LowerAll(v[..TypeEnd(v)]));
    if !DispositionOk(mediatype) then NoMediaType else Outcome(mediatype, ParseLoop(v[TypeEnd(v)..], EMPTY))
  }

  // ---------- every part has a name of its own ----------

  function Value(s: Bytes): int
  {
    if s == [] then 0 else Value(s[..|s| - 1]) * 10 + s[|s| - 1] - 48
  }

  lemma {:induction false} DecimalValue(n: nat)
    ensures Value(Decimal(n)) == n && forall i :: 0 <= i < |Decimal(n)| ==> 48 <= Decimal(n)[i] <= 57
  {
    if n < 10 {
      assert [48 + n][..0] == [];
    } else {
      DecimalValue(n / 10);
      Cut(Decimal(n / 10), [48 + n % 10]);
    }
  }

  lemma PartNamesDiffer(key: Bytes, m: nat, n: nat)
    requires m != n
    ensures SimplePart(key, m) != SimplePart(key, n) && SimplePart(key, m) + [STAR] != SimplePart(key, n) + [STAR]
    ensures SimplePart(key, m) + [STAR] != SimplePart(key, n)
  {
    var a, b := SimplePart(key, m), SimplePart(key, n);
    DecimalValue(m);
    DecimalValue(n);
    Cut(key + [STAR], Decimal(m));
    Cut(key + [STAR], Decimal(n));
    assert (a + [STAR])[..|a|] == a && (b + [STAR])[..|b|] == b;
    assert b[|b| - 1] != STAR && (a + [STAR])[|a|] == STAR;
  }

  /** The names under which parts are found, of which there are no more than pieces. */
  lemma {:induction false} PartsAreFew(pieces: Pieces, key: Bytes, n: nat) returns (names: set<Bytes>)
    requires forall m: nat :: m < n ==> PartText(pieces, key, m).Some?
    ensures |names| == n && names <= pieces.Keys && n <= |pieces|
    ensures forall x :: x in names ==> exists m: nat :: m < n && (x == SimplePart(key, m) || x == SimplePart(key, m) + [STAR])
  {
    names := {};
    if n > 0 {
      names := PartsAreFew(pieces, key, n - 1);
      var name := if SimplePart(key, n - 1) in pieces then SimplePart(key, n - 1) else SimplePart(key, n - 1) + [STAR];
      forall m: nat | m < n - 1 ensures name != SimplePart(key, m) && name != SimplePart(key, m) + [STAR] {
        PartNamesDiffer(key, m, n - 1);
        PartNamesDiffer(key, n - 1, m);
      }
      assert PartText(pieces, key, n - 1).Some?;
      assert name in pieces && name !in names;
      names := names + {name};
    }
    Subset(names, pieces.Keys);
  }

  lemma Subset(a: set<Bytes>, b: set<Bytes>)
    requires a <= b
    ensures |a| <= |b|
  {
    assert b == a + (b - a);
  }

  lemma NextPart(pieces: Pieces, key: Bytes, n: nat)
    requires forall m: nat :: m <= n ==> PartText(pieces, key, m).Some?
    ensures n < |pieces| && Joined(pieces, key, n) == PartText(pieces, key, n).value + Joined(pieces, key, n + 1)
  {
    var names := PartsAreFew(pieces, key, n + 1);
  }

  /** The loop over the numbered parts of one name; n counts up without a bound of its own. */
  method Stitch(pieces: Pieces, key: Bytes) returns (r: Option<Bytes>)
    ensures r == Stitched(pieces, key)
  {
    var singlePartKey := key + [STAR];
    if singlePartKey in pieces { return Decode2231(pieces[singlePartKey]); }
    var buf: Bytes := [];
    var valid := false;
    var n := 0;
    assert [] + Joined(pieces, key, 0) == Joined(pieces, key, 0);
    while true
      invariant forall m: nat :: m < n ==> PartText(pieces, key, m).Some?
      invariant valid <==> n > 0
      invariant buf + Joined(pieces, key, n) == Joined(pieces, key, 0)
      decreases |pieces| - n
    {
      var part := PartText(pieces, key, n);
      if part.None? { break; }
      NextPart(pieces, key, n);
      Assoc(buf, part.value, Joined(pieces, key, n + 1));
      valid := true;
      buf := buf + part.value;
      n := n + 1;
    }
    assert buf + [] == buf;
    if !valid { return None; }
    return Some(buf);
  }

  /** The loop over the continuation map, in whatever order it is ranged over. */
  method StitchAll(acc: Acc) returns (params: map<Bytes, Bytes>)
    ensures params == AllFinal(acc)
  {
    params := acc.params;
    var keys := acc.continuation.Keys;
    while keys != {}
      invariant keys <= acc.continuation.Keys
      invariant forall key :: key in params ==> key in acc.params || key in acc.continuation
      invariant forall key :: key in acc.params && (key in keys || key !in acc.continuation) ==>
        key in params && params[key] == acc.params[key]
      invariant forall key :: key in keys && key in params ==> key in acc.params
      invariant forall key :: key in acc.continuation && key !in keys ==>
        (key in params <==> Final(acc, key).Some?) && (key in params ==> params[key] == Final(acc, key).value)
      decreases keys
    {
      var key :| key in keys;
      keys := keys - {key};
      var v := Stitch(acc.continuation[key], key);
      if v.Some? { params := params[key := v.value]; }
    }
  }

  /** The loop over the parameters. */
  method ParseParams(text: Bytes) returns (r: Loop)
    ensures r == ParseLoop(text, EMPTY)
  {
    var acc, v := EMPTY, text;
    while |v| > 0
      invariant ParseLoop(text, EMPTY) == ParseLoop(v, acc)
      decreases |v|
    {
      var w := TrimLeft(v);
      if |w| == 0 { return Finished(acc); }
      var p := ConsumedParam(w);
      if p.None? {
        if TrimSpace(w) == [SEMICOLON] { return Trailing(acc); }
        return Malformed;
      }
      var next := Insert(acc, p.value.0, p.value.1);
      if next.None? { return Repeated; }
      acc := next.value;
      v := p.value.2;
    }
    return Finished(acc);
  }

  method ParseMediaType(v: Bytes) returns (r: Result)
    ensures r == Parsed(v)
  {
    var i := Index(v, [SEMICOLON]);
    if i == -1 { i := |v|; }
    var mediatype := TrimSpace(LowerAll(v[..i]));
    if !DispositionOk(mediatype) { return NoMediaType; }
    var found := ParseParams(v[i..]);
    match found
    case Finished(acc) =>
      var params := StitchAll(acc);
      return Ok(mediatype, params);
    case Trailing(acc) => return Ok(mediatype, acc.params);
    case Malformed => return BadParameter(mediatype);
    case Repeated => return RepeatedName;
  }

  // ---------- what the parser collects from formatted parameters ----------

  /** Where a name's value is kept, read back. */
  function Lookup(acc: Acc, key: Bytes): Option<Bytes>
  {
    var idx := Index(key, [STAR]);
    var pmap := if idx == -1 then acc.params else PiecesOf(acc, key[..idx]);
    if key in pmap then Some(pmap[key]) else None
  }

  /** Each name is kept where it belongs, and no map of pieces is empty. */
  ghost predicate Filed(acc: Acc)
  {
    (forall key :: key in acc.params ==> STAR !in key) &&
    (forall base :: base in acc.continuation ==> acc.continuation[base] != map[]) &&
    (forall base, key :: base in acc.continuation && key in acc.continuation[base] ==>
      Index(key, [STAR]) != -1 && key[..Index(key, [STAR])] == base)
  }

  lemma InsertKeeps(acc: Acc, key: Bytes, value: Bytes)
    requires Filed(acc)
    ensures Insert(acc, key, value).None? <==> Lookup(acc, key).Some?
    ensures Insert(acc, key, value).Some? ==>
      var next := Insert(acc, key, value).value;
      Filed(next) && Lookup(next, key) == Some(value) && forall x :: x != key ==> Lookup(next, x) == Lookup(acc, x)
  {
    ByteIndex(key, STAR);
    var next := Insert(acc, key, value);
    if next.Some? && Index(key, [STAR]) != -1 {
      var base := key[..Index(key, [STAR])];
      assert key in next.value.continuation[base];
    }
  }

  function AttributeOf(param: map<Bytes, Bytes>, k: Bytes): Bytes
    requires k in param
  {
    Attribute(k, param[k])
  }

  /** Insert formatted parameters one after the other. */
  function Feed(attrs: seq<Bytes>, param: map<Bytes, Bytes>, acc: Acc): Option<Acc>
    requires forall k :: k in attrs ==> k in param
  {
    if attrs == [] then Some(acc)
    else
      var next := Insert(acc, AttributeOf(param, attrs[0]), RawValue(param[attrs[0]]));
      if next.None? then None else Feed(attrs[1..], param, next.value)
  }

  lemma {:induction false} LoopFeeds(attrs: seq<Bytes>, param: map<Bytes, Bytes>, acc: Acc)
    requires forall k :: k in attrs ==> k in param && IsToken(k)
    ensures EndsParam(Params(attrs, param))
    ensures ParseLoop(Params(attrs, param), acc) ==
            if Feed(attrs, param, acc).Some? then Finished(Feed(attrs, param, acc).value) else Repeated
  {
    if attrs != [] {
      var k, tail := attrs[0], Params(attrs[1..], param);
      var next := Insert(acc, AttributeOf(param, k), RawValue(param[k]));
      LoopFeeds(attrs[1..], param, acc);
      ParamConsumed(k, param[k], tail);
      assert (Param(k, param[k]) + tail)[0] == Param(k, param[k])[0] == SEMICOLON;
      if next.Some? { LoopFeeds(attrs[1..], param, next.value); }
    }
  }

  /** Every fed name is found with its value, and nothing else is. */
  ghost predicate Fed(attrs: seq<Bytes>, param: map<Bytes, Bytes>, acc: Acc, end: Acc)
    requires forall k :: k in attrs ==> k in param
  {
    Filed(end) &&
    (forall k :: k in attrs ==> Lookup(end, AttributeOf(param, k)) == Some(RawValue(param[k]))) &&
    (forall x :: Lookup(acc, x).Some? ==> Lookup(end, x) == Lookup(acc, x)) &&
    (forall x :: Lookup(end, x).Some? ==> Lookup(acc, x).Some? || exists k :: k in attrs && AttributeOf(param, k) == x)
  }

  lemma {:induction false} FeedKeeps(attrs: seq<Bytes>, param: map<Bytes, Bytes>, acc: Acc)
    requires Filed(acc) && forall k :: k in attrs ==> k in param
    requires Feed(attrs, param, acc).Some?
    ensures Fed(attrs, param, acc, Feed(attrs, param, acc).value)
  {
    if attrs != [] {
      var k := attrs[0];
      var key := AttributeOf(param, k);
      InsertKeeps(acc, key, RawValue(param[k]));
      var next := Insert(acc, key, RawValue(param[k])).value;
      FeedKeeps(attrs[1..], param, next);
      FedFirst(attrs, param, acc, next, Feed(attrs, param, acc).value);
    }
  }

  lemma FedFirst(attrs: seq<Bytes>, param: map<Bytes, Bytes>, acc: Acc, next: Acc, end: Acc)
    requires attrs != [] && forall k :: k in attrs ==> k in param
    requires var key := AttributeOf(param, attrs[0]);
             Lookup(acc, key).None? && Lookup(next, key) == Some(RawValue(param[attrs[0]])) &&
             forall x :: x != key ==> Lookup(next, x) == Lookup(acc, x)
    requires Fed(attrs[1..], param, next, end)
    ensures Fed(attrs, param, acc, end)
  {
    var key := AttributeOf(param, attrs[0]);
    assert attrs == [attrs[0]] + attrs[1..];
    forall x | Lookup(end, x).Some? && Lookup(acc, x).None? ensures exists k :: k in attrs && AttributeOf(param, k) == x {
      if x == key {
        assert attrs[0] in attrs;
      } else {
        var k' :| k' in attrs[1..] && AttributeOf(param, k') == x;
        assert k' in attrs;
      }
    }
  }

  /** Feeding goes through only if all names differ, from each other and from those there already. */
  lemma {:induction false} FedDiffer(attrs: seq<Bytes>, param: map<Bytes, Bytes>, acc: Acc)
    requires Filed(acc) && forall k :: k in attrs ==> k in param
    requires Feed(attrs, param, acc).Some?
    ensures forall k :: k in attrs ==> Lookup(acc, AttributeOf(param, k)).None?
    ensures forall i, j :: 0 <= i < j < |attrs| ==> AttributeOf(param, attrs[i]) != AttributeOf(param, attrs[j])
  {
    if attrs != [] {
      var key := AttributeOf(param, attrs[0]);
      InsertKeeps(acc, key, RawValue(param[attrs[0]]));
      FedDiffer(attrs[1..], param, Insert(acc, key, RawValue(param[attrs[0]])).value);
      assert attrs == [attrs[0]] + attrs[1..];
      forall j | 0 < j < |attrs| ensures key != AttributeOf(param, attrs[j]) {
        assert attrs[j] in attrs[1..];
      }
    }
  }

  lemma {:induction false} FeedSucceeds(attrs: seq<Bytes>, param: map<Bytes, Bytes>, acc: Acc)
    requires Filed(acc) && forall k :: k in attrs ==> k in param
    requires forall k :: k in attrs ==> Lookup(acc, AttributeOf(param, k)).None?
    requires forall i, j :: 0 <= i < j < |attrs| ==> AttributeOf(param, attrs[i]) != AttributeOf(param, attrs[j])
    ensures Feed(attrs, param, acc).Some?
  {
    if attrs != [] {
      var k := attrs[0];
      InsertKeeps(acc, AttributeOf(param, k), RawValue(param[k]));
      var next := Insert(acc, AttributeOf(param, k), RawValue(param[k])).value;
      forall k' | k' in attrs[1..] ensures Lookup(next, AttributeOf(param, k')).None? {
        var j :| 0 <= j < |attrs[1..]| && attrs[1..][j] == k';
        assert attrs[j + 1] == k';
        assert AttributeOf(param, attrs[0]) != AttributeOf(param, attrs[j + 1]);
      }
      FeedSucceeds(attrs[1..], param, next);
    }
  }

  // ---------- the round trip ----------

  /** The names that can come back: no stars, and different in lower case. */
  ghost predicate GoodNames(param: map<Bytes, Bytes>)
  {
    (forall k :: k in param ==> STAR !in k) &&
    (forall k, k' :: k in param && k' in param && LowerAll(k) == LowerAll(k') ==> k == k')
  }

  /** m is param under lower-case names. */
  ghost predicate SameValues(param: map<Bytes, Bytes>, m: map<Bytes, Bytes>)
  {
    (forall k :: k in param ==> LowerAll(k) in m && m[LowerAll(k)] == param[k]) &&
    (forall x :: x in m ==> exists k :: k in param && LowerAll(k) == x)
  }

  /** Between two apostrophes there is no language, and after them the encoded value. */
  lemma Decode2231Parts(charset: Bytes, e: Bytes)
    requires APOSTROPHE !in charset && LowerAll(charset) == UTF_8
    ensures Decode2231(charset + ([APOSTROPHE] + ([APOSTROPHE] + e))) == PercentDecoded(e)
  {
    var rest := [APOSTROPHE] + e;
    IndexAfter(charset, [APOSTROPHE], rest);
    Cut(charset, [APOSTROPHE] + rest);
    assert (charset + ([APOSTROPHE] + rest))[|charset| + 1..] == rest;
    assert Index(rest, [APOSTROPHE]) == 0 by { assert rest[..1] == [APOSTROPHE]; }
    assert rest[1..] == e;
  }

  lemma Decode2231RoundTrip(value: Bytes)
    ensures Decode2231(CHARSET + PercentEncoded(value)) == Some(value)
  {
    var e := PercentEncoded(value);
    PercentRoundTrip(value);
    assert LowerAll(UTF_8) == UTF_8;
    Decode2231Parts(UTF_8, e);
    CharsetShape(UTF_8, APOSTROPHE, e);
  }

  lemma CharsetShape(charset: Bytes, b: Byte, e: Bytes)
    ensures charset + [b, b] + e == charset + ([b] + ([b] + e))
  {
    Assoc(charset, [b, b], e);
    assert [b, b] + e == [b] + ([b] + e);
  }

  /** A name without a star, starred, is filed under the name itself. */
  lemma StarredBase(t: Bytes)
    requires STAR !in t
    ensures Index(t + [STAR], [STAR]) == |t| && (t + [STAR])[..|t|] == t
  {
    IndexAfter(t, [STAR], []);
    assert [STAR] + [] == [STAR];
    Cut(t, [STAR]);
  }

  /** The base of a good name's attribute is the name in lower case. */
  lemma AttributeBase(k: Bytes, value: Bytes)
    requires STAR !in k
    ensures var key := Attribute(k, value); var idx := Index(key, [STAR]);
            if NeedsPercent(value) then idx != -1 && key[..idx] == LowerAll(k) && key == LowerAll(k) + [STAR]
            else idx == -1 && key == LowerAll(k)
  {
    LowerToken(k);
    ByteIndex(LowerAll(k), STAR);
    StarredBase(LowerAll(k));
  }

  lemma GoodAttributesDiffer(attrs: seq<Bytes>, param: map<Bytes, Bytes>)
    requires Lists(attrs, param.Keys) && GoodNames(param)
    ensures forall i, j :: 0 <= i < j < |attrs| ==> AttributeOf(param, attrs[i]) != AttributeOf(param, attrs[j])
  {
    forall i, j | 0 <= i < j < |attrs| ensures AttributeOf(param, attrs[i]) != AttributeOf(param, attrs[j]) {
      assert attrs[i] in param && attrs[j] in param;
      AttributeBase(attrs[i], param[attrs[i]]);
      AttributeBase(attrs[j], param[attrs[j]]);
    }
  }

  /** What is filed among the starred names has a value that needs percent-encoding. */
  lemma StarredNeedsPercent(attrs: seq<Bytes>, param: map<Bytes, Bytes>, acc: Acc, x: Bytes)
    requires Lists(attrs, param.Keys) && GoodNames(param) && Fed(attrs, param, EMPTY, acc) && x in acc.continuation
    ensures exists k :: k in param && NeedsPercent(param[k]) && LowerAll(k) == x
  {
    var key :| key in acc.continuation[x];
    assert Lookup(acc, key).Some?;
    var k :| k in attrs && AttributeOf(param, k) == key;
    AttributeBase(k, param[k]);
  }

  /** So a name that needs none is not filed there. */
  lemma PlainNotStarred(attrs: seq<Bytes>, param: map<Bytes, Bytes>, acc: Acc, k: Bytes)
    requires Lists(attrs, param.Keys) && GoodNames(param) && Fed(attrs, param, EMPTY, acc)
    requires k in param && !NeedsPercent(param[k])
    ensures LowerAll(k) !in acc.continuation
  {
    if LowerAll(k) in acc.continuation { StarredNeedsPercent(attrs, param, acc, LowerAll(k)); }
  }

  /** Where a good name ends up, and that it gets its value. */
  lemma GoodFinal(attrs: seq<Bytes>, param: map<Bytes, Bytes>, acc: Acc, k: Bytes)
    requires Lists(attrs, param.Keys) && GoodNames(param) && Fed(attrs, param, EMPTY, acc) && k in param
    ensures Final(acc, LowerAll(k)) == Some(param[k])
  {
    AttributeBase(k, param[k]);
    assert Lookup(acc, AttributeOf(param, k)) == Some(RawValue(param[k]));
    if NeedsPercent(param[k]) {
      Decode2231RoundTrip(param[k]);
    } else {
      PlainNotStarred(attrs, param, acc, k);
    }
  }

  lemma GoodKeysOnly(attrs: seq<Bytes>, param: map<Bytes, Bytes>, acc: Acc, x: Bytes)
    requires Lists(attrs, param.Keys) && GoodNames(param) && Fed(attrs, param, EMPTY, acc) && x in AllFinal(acc)
    ensures exists k :: k in param && LowerAll(k) == x
  {
    if x in acc.params {
      ByteIndex(x, STAR);
      assert Lookup(acc, x).Some?;
      var k :| k in attrs && AttributeOf(param, k) == x;
      AttributeBase(k, param[k]);
    } else {
      var key :| key in acc.continuation[x];
      assert Lookup(acc, key).Some?;
      var k :| k in attrs && AttributeOf(param, k) == key;
      AttributeBase(k, param[k]);
    }
  }

  lemma FinalKeysPlain(acc: Acc, x: Bytes)
    requires Filed(acc) && x in AllFinal(acc)
    ensures STAR !in x
  {
    if x !in acc.params {
      var key :| key in acc.continuation[x];
      ByteIndex(key, STAR);
    }
  }

  lemma GoodComeBack(attrs: seq<Bytes>, param: map<Bytes, Bytes>)
    requires Lists(attrs, param.Keys) && GoodNames(param)
    ensures var fed := Feed(attrs, param, EMPTY); fed.Some? && SameValues(param, AllFinal(fed.value))
  {
    GoodAttributesDiffer(attrs, param);
    FeedSucceeds(attrs, param, EMPTY);
    FeedKeeps(attrs, param, EMPTY);
    var acc := Feed(attrs, param, EMPTY).value;
    var m := AllFinal(acc);
    forall k | k in param ensures LowerAll(k) in m && m[LowerAll(k)] == param[k] {
      GoodFinal(attrs, param, acc, k);
    }
    forall x | x in m ensures exists k :: k in param && LowerAll(k) == x { GoodKeysOnly(attrs, param, acc, x); }
  }

  lemma OnlyGoodComeBack(attrs: seq<Bytes>, param: map<Bytes, Bytes>, acc: Acc)
    requires Lists(attrs, param.Keys) && Feed(attrs, param, EMPTY) == Some(acc) && SameValues(param, AllFinal(acc))
    ensures GoodNames(param)
  {
    FeedKeeps(attrs, param, EMPTY);
    FedDiffer(attrs, param, EMPTY);
    forall k | k in param ensures STAR !in k {
      FinalKeysPlain(acc, LowerAll(k));
      LowerToken(k);
    }
    forall k, k' | k in param && k' in param && LowerAll(k) == LowerAll(k') ensures k == k' {
      assert AttributeOf(param, k) == AttributeOf(param, k');
      var i :| 0 <= i < |attrs| && attrs[i] == k;
      var j :| 0 <= j < |attrs| && attrs[j] == k';
      assert i >= j && j >= i;
    }
  }

  /** The parameters of formatted text, parsed, are the original ones exactly when the names are good. */
  lemma ParamsRoundTrip(attrs: seq<Bytes>, param: map<Bytes, Bytes>)
    requires Lists(attrs, param.Keys)
    ensures var fed := Feed(attrs, param, EMPTY); fed.Some? && SameValues(param, AllFinal(fed.value)) <==> GoodNames(param)
  {
    var fed := Feed(attrs, param, EMPTY);
    if GoodNames(param) { GoodComeBack(attrs, param); }
    if fed.Some? && SameValues(param, AllFinal(fed.value)) { OnlyGoodComeBack(attrs, param, fed.value); }
  }

  lemma TwoTokensOk(a: Bytes, b: Bytes)
    requires IsToken(a) && IsToken(b)
    ensures DispositionOk(a + ([SLASH] + b))
  {
    TokenConsumed(a, [SLASH] + b);
    AfterFirst(SLASH, b);
    assert b + [] == b;
    TokenConsumed(b, []);
  }

  lemma OneTokenOk(a: Bytes)
    requires IsToken(a)
    ensures DispositionOk(a)
  {
    assert a + [] == a;
    TokenConsumed(a, []);
  }

  lemma TwoTokensShape(a: Bytes, b: Bytes)
    requires IsToken(a) && IsToken(b)
    ensures var l := a + ([SLASH] + b); SEMICOLON !in l && TrimSpace(l) == l
  {
    var l := a + ([SLASH] + b);
    assert l[0] == a[0] && l[|l| - 1] == b[|b| - 1];
    TrimNothing(l);
  }

  /** The type part of formatted text: no semicolon, nothing to trim, already lower case. */
  lemma TypeShape(t: Bytes)
    requires TypeOk(t)
    ensures var l := LowerAll(t);
            SEMICOLON !in l && l != [] && LowerAll(l) == l && TrimSpace(l) == l && DispositionOk(l)
  {
    LowerToken(t);
    var slash := Index(t, [SLASH]);
    if slash == -1 {
      LowerToken(t);
      OneTokenOk(LowerAll(t));
      TrimNothing(LowerAll(t));
    } else {
      var a, b := LowerAll(t[..slash]), LowerAll(t[slash + 1..]);
      LowerToken(t[..slash]);
      LowerToken(t[slash + 1..]);
      assert t[slash..slash + 1][0] == t[slash];
      LowerType(t, slash);
      TwoTokensOk(a, b);
      TwoTokensShape(a, b);
    }
  }

  lemma SplitAtType(l: Bytes, rest: Bytes)
    requires SEMICOLON !in l && EndsParam(rest)
    ensures var v := l + rest; var i := if Index(v, [SEMICOLON]) == -1 then |v| else Index(v, [SEMICOLON]);
            i == |l| && v[..i] == l && v[i..] == rest
  {
    if rest == [] {
      assert l + rest == l;
      ByteIndex(l, SEMICOLON);
    } else {
      assert rest == [SEMICOLON] + rest[1..];
      IndexAfter(l, [SEMICOLON], rest[1..]);
    }
    Cut(l, rest);
  }

  /** ParseMediaType splits formatted text into its type l and its parameters. */
  lemma ParsedParts(l: Bytes, rest: Bytes)
    requires SEMICOLON !in l && EndsParam(rest) && LowerAll(l) == l && TrimSpace(l) == l && DispositionOk(l)
    ensures Parsed(l + rest) == Outcome(l, ParseLoop(rest, EMPTY))
  {
    SplitAtType(l, rest);
  }

  /** ParseMediaType has given back the lower-cased type and the same values under lower-cased names. */
  ghost predicate ComesBack(t: Bytes, param: map<Bytes, Bytes>, r: Result)
  {
    r.Ok? && r.mediatype == LowerAll(t) && SameValues(param, r.params)
  }

  /**
   * When FormatMediaType gives a text at all, ParseMediaType takes it back if and
   * only if no name has a star and the names differ in lower case: through token,
   * quoted and percent-encoded values alike.
   */
  lemma RoundTrip(t: Bytes, param: map<Bytes, Bytes>)
    requires Formatted(t, Ordered(param.Keys), param) != []
    ensures ComesBack(t, param, Parsed(Formatted(t, Ordered(param.Keys), param))) <==> GoodNames(param)
  {
    var attrs := Ordered(param.Keys);
    ParsedWritten(t, attrs, param, []);
    ParamsRoundTrip(attrs, param);
    ReadBack(t, param, Parsed(Formatted(t, attrs, param)), Feed(attrs, param, EMPTY));
  }

  lemma ReadBack(t: Bytes, param: map<Bytes, Bytes>, r: Result, fed: Option<Acc>)
    requires r == Outcome(LowerAll(t), if fed.Some? then Finished(fed.value) else Repeated)
    requires fed.Some? && SameValues(param, AllFinal(fed.value)) <==> GoodNames(param)
    ensures ComesBack(t, param, r) <==> GoodNames(param)
  {
  }

  /** What the loop makes of the parameters that are written, and of what comes after them, decides the outcome. */
  lemma ParsedWritten(t: Bytes, attrs: seq<Bytes>, param: map<Bytes, Bytes>, tail: Bytes)
    requires Lists(attrs, param.Keys) && Formatted(t, attrs, param) != [] && EndsParam(tail)
    ensures Parsed(Formatted(t, attrs, param) + tail) == Outcome(LowerAll(t), ParseLoop(Params(attrs, param) + tail, EMPTY))
    ensures Formatted(t, attrs, param) + [] == Formatted(t, attrs, param) && Params(attrs, param) + [] == Params(attrs, param)
    ensures var fed := Feed(attrs, param, EMPTY);
            ParseLoop(Params(attrs, param), EMPTY) == if fed.Some? then Finished(fed.value) else Repeated
  {
    var l, rest := LowerAll(t), Params(attrs, param);
    TypeShape(t);
    LoopFeeds(attrs, param, EMPTY);
    Assoc(l, rest, tail);
    assert EndsParam(rest + tail) by { if rest == [] { assert rest + tail == tail; } }
    ParsedParts(l, rest + tail);
  }

  /** FormatMediaType gives a text exactly when the type and all names are tokens. */
  lemma FormattedOrNot(t: Bytes, param: map<Bytes, Bytes>)
    ensures Formatted(t, Ordered(param.Keys), param) != [] <==> TypeOk(t) && forall k :: k in param ==> IsToken(k)
  {
    if TypeOk(t) { TypeShape(t); }
  }

  /** A name that cannot come back: type "x" with the parameter a* = x is written, and not read back. */
  lemma StarIsLost(t: Bytes, name: Bytes, param: map<Bytes, Bytes>)
    requires t == [120] && name == [97, STAR] && param == map[name := t]
    ensures var r := Formatted(t, Ordered(param.Keys), param); r != [] && !ComesBack(t, param, Parsed(r))
  {
    assert name in param && STAR in name;
    FormattedOrNot(t, param);
    ByteIndex(t, SLASH);
    assert IsToken(t) && IsToken(name);
    RoundTrip(t, param);
  }

  /** And two that are the same in lower case: the parameters a and A are written, and read as a repetition. */
  lemma CaseIsLost(t: Bytes, upper: Bytes, param: map<Bytes, Bytes>)
    requires t == [97] && upper == [65] && param == map[t := t, upper := t]
    ensures var r := Formatted(t, Ordered(param.Keys), param); r != [] && !ComesBack(t, param, Parsed(r))
  {
    assert t in param && upper in param && LowerAll(t) == LowerAll(upper) && t != upper;
    FormattedOrNot(t, param);
    ByteIndex(t, SLASH);
    assert IsToken(t) && IsToken(upper);
    RoundTrip(t, param);
  }
}
