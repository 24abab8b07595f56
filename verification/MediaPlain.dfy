/**
 * What ParseMediaType (src/mime/mediatype.go) makes of parameters in one piece and
 * without a star, whoever wrote them: their values, or the error for a name that
 * comes twice, or the error for text that is no parameter.
 */
module MediaPlain {
  import opened Wrappers
  import opened Text
  import opened Grammar
  import opened MediaParams
  import opened MediaType
  import opened MediaWritten
  import opened MediaContinuations

  /** A parameter as it is written, and its value. */
  datatype Plain = Plain(w: Written, value: Bytes)

  function Name(p: Plain): Bytes { LowerAll(p.w.attr) }

  ghost predicate IsPlain(p: Plain) { WellFormed(p.w) && STAR !in p.w.attr && SaysValue(p.w.text, p.value) }

  ghost predicate AllPlain(ps: seq<Plain>) { forall i :: 0 <= i < |ps| ==> IsPlain(ps[i]) }

  /** No name comes twice, in whatever case. */
  predicate Distinct(ps: seq<Plain>) { forall i, j :: 0 <= i < j < |ps| ==> Name(ps[i]) != Name(ps[j]) }

  /** The parameters, and what comes after them. */
  function PlainThen(ps: seq<Plain>, tail: Bytes): Bytes
  {
    if ps == [] then tail else WrittenThen(ps[0].w, PlainThen(ps[1..], tail))
  }

  /** m holds the values of the parameters, and nothing else. */
  predicate Holds(m: map<Bytes, Bytes>, ps: seq<Plain>)
  {
    (forall i :: 0 <= i < |ps| ==> Name(ps[i]) in m && m[Name(ps[i])] == ps[i].value) &&
    forall x :: x in m ==> exists i :: 0 <= i < |ps| && Name(ps[i]) == x
  }

  lemma {:induction false} EndsPlain(ps: seq<Plain>, tail: Bytes)
    requires AllPlain(ps) && EndsToken(tail)
    ensures EndsToken(PlainThen(ps, tail))
  {
    if ps != [] {
      var w := ps[0].w;
      assert IsPlain(ps[0]);
      if w.before != [] { assert PlainThen(ps, tail)[0] == w.before[0]; } else { assert PlainThen(ps, tail)[0] == SEMICOLON; }
    }
  }

  /** One turn of the loop. */
  lemma OneTaken(p: Plain, tail: Bytes, m: map<Bytes, Bytes>)
    requires IsPlain(p) && EndsToken(tail)
    ensures ParseLoop(WrittenThen(p.w, tail), Acc(m, map[])) ==
            if Name(p) in m then Repeated else ParseLoop(tail, Acc(m[Name(p) := p.value], map[]))
  {
    ValueRead(p.w.text, p.value, tail);
    WrittenConsumed(p.w, p.value, tail);
    LowerToken(p.w.attr);
    ByteIndex(Name(p), STAR);
  }

  lemma OneHeld(m: map<Bytes, Bytes>, done: seq<Plain>, p: Plain)
    requires Holds(m, done)
    ensures Name(p) !in m && Distinct(done) ==> Holds(m[Name(p) := p.value], done + [p]) && Distinct(done + [p])
    ensures Name(p) in m ==> !Distinct(done + [p])
  {
    var more := done + [p];
    if Name(p) in m {
      var i :| 0 <= i < |done| && Name(done[i]) == Name(p);
      assert more[i] == done[i] && more[|done|] == p;
    } else if Distinct(done) {
      forall i, j | 0 <= i < j < |more| ensures Name(more[i]) != Name(more[j]) { if j == |done| { assert Name(done[i]) in m; } }
      var next := m[Name(p) := p.value];
      forall x | x in next ensures exists i :: 0 <= i < |more| && Name(more[i]) == x {
        if x == Name(p) {
          assert more[|done|] == p;
        } else {
          var i :| 0 <= i < |done| && Name(done[i]) == x;
          assert more[i] == done[i];
        }
      }
    }
  }

  /** The loop takes them all, unless a name comes twice. */
  lemma {:induction false} LoopTakes(ps: seq<Plain>, tail: Bytes, done: seq<Plain>, m: map<Bytes, Bytes>) returns (end: map<Bytes, Bytes>)
    requires AllPlain(ps) && EndsToken(tail) && Holds(m, done) && Distinct(done)
    ensures Distinct(done + ps) ==> Holds(end, done + ps) && ParseLoop(PlainThen(ps, tail), Acc(m, map[])) == ParseLoop(tail, Acc(end, map[]))
    ensures !Distinct(done + ps) ==> ParseLoop(PlainThen(ps, tail), Acc(m, map[])) == Repeated
    decreases |ps|
  {
    end := m;
    if ps == [] {
      assert done + ps == done;
    } else {
      var p, rest := ps[0], ps[1..];
      FirstMoved(done, ps);
      EndsPlain(rest, tail);
      OneTaken(p, PlainThen(rest, tail), m);
      OneHeld(m, done, p);
      if Name(p) in m {
        NotDistinct(done + [p], rest);
      } else {
        end := LoopTakes(rest, tail, done + [p], m[Name(p) := p.value]);
      }
    }
  }

  lemma FirstMoved(done: seq<Plain>, ps: seq<Plain>)
    requires ps != []
    ensures done + ps == (done + [ps[0]]) + ps[1..]
  {
  }

  lemma NotDistinct(a: seq<Plain>, b: seq<Plain>)
    requires !Distinct(a)
    ensures !Distinct(a + b)
  {
    var i, j :| 0 <= i < j < |a| && Name(a[i]) == Name(a[j]);
    assert (a + b)[i] == a[i] && (a + b)[j] == a[j];
  }

  /** The text begins with a mark: the type ends there. */
  predicate Marked(ps: seq<Plain>) { ps != [] && ps[0].w.before == [] }

  lemma MarkedStart(ps: seq<Plain>, tail: Bytes)
    requires Marked(ps)
    ensures EndsParam(PlainThen(ps, tail))
  {
    assert PlainThen(ps, tail) == FromMark(ps[0].w, PlainThen(ps[1..], tail));
  }

  lemma TextLoops(t: Bytes, ps: seq<Plain>, tail: Bytes) returns (m: map<Bytes, Bytes>)
    requires IsMediaType(t) && AllPlain(ps) && Marked(ps) && EndsToken(tail)
    ensures !Distinct(ps) ==> Parsed(t + PlainThen(ps, tail)) == RepeatedName
    ensures Distinct(ps) ==> Holds(m, ps) && Parsed(t + PlainThen(ps, tail)) == Outcome(LowerAll(t), ParseLoop(tail, Acc(m, map[])))
  {
    var rest := PlainThen(ps, tail);
    MarkedStart(ps, tail);
    TypeRead(t, rest);
    assert [] + ps == ps;
    m := LoopTakes(ps, tail, [], map[]);
  }

  /** Parameters with distinct names come back with their values. */
  lemma PlainRead(t: Bytes, ps: seq<Plain>, end: Bytes) returns (m: map<Bytes, Bytes>)
    requires IsMediaType(t) && AllPlain(ps) && Marked(ps) && Distinct(ps) && Blank(end)
    ensures Parsed(t + PlainThen(ps, end)) == Ok(LowerAll(t), m) && Holds(m, ps)
  {
    EndsBlank(end);
    m := TextLoops(t, ps, end);
    assert end + [] == end;
    BlankTrimmed(end, []);
    NothingStitched(m);
  }

  lemma NothingStitched(m: map<Bytes, Bytes>)
    ensures AllFinal(Acc(m, map[])) == m
  {
    var acc := Acc(m, map[]);
    forall x ensures Final(acc, x) == if x in m then Some(m[x]) else None { }
  }

  /** A name that comes twice is an error of its own, whatever follows. */
  lemma TwiceIsRefused(t: Bytes, ps: seq<Plain>, tail: Bytes)
    requires IsMediaType(t) && AllPlain(ps) && Marked(ps) && !Distinct(ps) && EndsToken(tail)
    ensures Parsed(t + PlainThen(ps, tail)) == RepeatedName
  {
    var m := TextLoops(t, ps, tail);
  }

  // ---------- what is no parameter ----------

  /** s says something, but it does not begin with b. */
  predicate StartsOtherwise(s: Bytes, b: Byte) { s != [] && SpaceLen(s) == 0 && s[0] != b }

  /** There is no name: neither white space nor a token is next. */
  predicate Nameless(s: Bytes) { s != [] && SpaceLen(s) == 0 && !IsTokenChar(s[0]) }

  /** A name, and no equals sign after it. */
  ghost predicate NoEquals(s: Bytes)
  {
    exists attr, left, rest :: s == attr + (left + rest) && NameEnds(attr, left, rest) && (rest == [] || StartsOtherwise(rest, EQUALS))
  }

  predicate NameEnds(attr: Bytes, left: Bytes, rest: Bytes) { IsToken(attr) && Blank(left) && EndsToken(left + rest) }

  /** No token, and no quoted string: not even an opening quote, or one that is never closed, or not on its line. */
  ghost predicate NoValue(s: Bytes)
  {
    s == [] || (Nameless(s) && s[0] != QUOTE) ||
    exists pieces, value, rest ::
      QuotedPieces(pieces, value) && s == [QUOTE] + (Concat(pieces) + rest) && (rest == [] || rest[0] == CR || rest[0] == LF)
  }

  ghost predicate NoNamedValue(s: Bytes)
  {
    exists attr, left, right, rest ::
      s == attr + (left + ([EQUALS] + (right + rest))) && IsToken(attr) && Blank(left) && Blank(right) && NoValue(rest)
  }

  /** What follows white space, and is no parameter. */
  ghost predicate NoParameter(s: Bytes)
  {
    StartsOtherwise(s, SEMICOLON) ||
    exists gap, rest :: s == [SEMICOLON] + (gap + rest) && Blank(gap) && (Nameless(rest) || NoEquals(rest) || NoNamedValue(rest))
  }

  lemma {:induction false} NeverClosed(pieces: seq<Bytes>, value: Bytes, rest: Bytes)
    requires QuotedPieces(pieces, value) && (rest == [] || rest[0] == CR || rest[0] == LF)
    ensures Quoted(Concat(pieces) + rest).None?
  {
    if value == [] {
      assert [] + rest == rest;
    } else {
      NeverClosed(pieces[1..], value[1..], rest);
      Assoc(pieces[0], Concat(pieces[1..]), rest);
      QuotedPieceRead(pieces[0], value[0], Concat(pieces[1..]) + rest);
    }
  }

  lemma NothingConsumed(s: Bytes)
    requires NoValue(s)
    ensures ConsumedValue(s) == ([], s) && SpaceLen(s) == 0
  {
    if s != [] && !(Nameless(s) && s[0] != QUOTE) {
      var pieces, value, rest :|
        QuotedPieces(pieces, value) && s == [QUOTE] + (Concat(pieces) + rest) && (rest == [] || rest[0] == CR || rest[0] == LF);
      NeverClosed(pieces, value, rest);
      AfterFirst(QUOTE, Concat(pieces) + rest);
    }
  }

  lemma NameTaken(attr: Bytes, left: Bytes, rest: Bytes)
    requires NameEnds(attr, left, rest) && SpaceLen(rest) == 0
    ensures SpaceLen(attr + (left + rest)) == 0 && ConsumeToken(attr + (left + rest)) == (attr, left + rest) && TrimLeft(left + rest) == rest
  {
    assert (attr + (left + rest))[0] == attr[0];
    NoSpace(attr + (left + rest));
    TokenConsumed(attr, left + rest);
    BlankTrimmed(left, rest);
  }

  lemma NotNamed(s: Bytes)
    requires Nameless(s) || NoEquals(s) || NoNamedValue(s)
    ensures SpaceLen(s) == 0 && s != []
    ensures var (token, rest) := ConsumeToken(s); token == [] || NamedValue(token, rest).None?
  {
    if Nameless(s) {
    } else if NoEquals(s) {
      var attr, left, rest :| s == attr + (left + rest) && NameEnds(attr, left, rest) && (rest == [] || StartsOtherwise(rest, EQUALS));
      NameTaken(attr, left, rest);
    } else {
      var attr, left, right, rest :|
        s == attr + (left + ([EQUALS] + (right + rest))) && IsToken(attr) && Blank(left) && Blank(right) && NoValue(rest);
      var after := [EQUALS] + (right + rest);
      assert EndsToken(left + after) by { if left != [] { assert (left + after)[0] == left[0]; } else { assert (left + after)[0] == EQUALS; } }
      NameTaken(attr, left, after);
      NothingConsumed(rest);
      AfterFirst(EQUALS, right + rest);
      BlankTrimmed(right, rest);
    }
  }

  /** Trimming on the right leaves a beginning. */
  lemma {:induction false} TrimIsPrefix(s: Bytes)
    ensures TrimRight(s) <= s
    decreases |s|
  {
    if LastSpaceLen(s) > 0 { TrimIsPrefix(s[..|s| - LastSpaceLen(s)]); }
  }

  /** Trimming on the right keeps something of what does not start with white space. */
  lemma {:induction false} TrimKeeps(a: Bytes, s: Bytes)
    requires a != [] && a[|a| - 1] < 0x80 && s != [] && SpaceLen(s) == 0
    ensures |TrimRight(a + s)| > |a|
    decreases |s|
  {
    var v := a + s;
    var n := LastSpaceLen(v);
    if n == 0 {
      assert TrimRight(v) == v;
    } else {
      LastIsShort(a, s);
      ShorterBehind(a, s, n);
      TrimKeeps(a, s[..|s| - n]);
      assert TrimRight(v) == TrimRight(v[..|v| - n]);
    }
  }

  lemma ShorterBehind(a: Bytes, s: Bytes, n: nat)
    requires n <= |s|
    ensures (a + s)[..|a + s| - n] == a + s[..|s| - n]
  {
  }

  lemma SpaceBytes(u: Bytes)
    requires SpaceLen(u) > 1
    ensures forall i :: 0 <= i < SpaceLen(u) ==> u[i] >= 0x80
  {
  }

  lemma SpaceAgain(s: Bytes, u: Bytes)
    requires u <= s && SpaceLen(s) == 0
    ensures SpaceLen(u) == 0
  {
  }

  lemma LastIsSpace(s: Bytes)
    requires LastSpaceLen(s) > 0
    ensures SpaceLen(s[|s| - LastSpaceLen(s)..]) == LastSpaceLen(s)
  {
  }

  lemma LastIsShort(a: Bytes, s: Bytes)
    requires a != [] && a[|a| - 1] < 0x80 && s != [] && SpaceLen(s) == 0 && LastSpaceLen(a + s) > 0
    ensures LastSpaceLen(a + s) < |s| && SpaceLen(s[..|s| - LastSpaceLen(a + s)]) == 0
  {
    var v := a + s;
    var n := LastSpaceLen(v);
    LastIsSpace(v);
    if n == |s| {
      Cut(a, s);
    } else if n > |s| {
      var u := v[|v| - n..];
      assert u[n - |s| - 1] == v[|a| - 1] == a[|a| - 1];
      SpaceBytes(u);
    } else {
      SpaceAgain(s, s[..|s| - n]);
    }
  }

  lemma AfterSemicolon(gap: Bytes, rest: Bytes)
    requires Blank(gap) && (Nameless(rest) || NoEquals(rest) || NoNamedValue(rest))
    ensures var s := [SEMICOLON] + (gap + rest); TrimLeft(s) == s && ConsumedParam(s).None? && TrimSpace(s) != [SEMICOLON]
  {
    var s := [SEMICOLON] + (gap + rest);
    NotNamed(rest);
    AfterFirst(SEMICOLON, gap + rest);
    BlankTrimmed(gap, rest);
    Assoc([SEMICOLON], gap, rest);
    TrimKeeps([SEMICOLON] + gap, rest);
  }

  lemma NotASemicolon(s: Bytes)
    requires NoParameter(s)
    ensures TrimLeft(s) == s && ConsumedParam(s).None? && s != [] && TrimSpace(s) != [SEMICOLON]
  {
    if StartsOtherwise(s, SEMICOLON) {
      TrimIsPrefix(s);
    } else {
      var gap, rest :| s == [SEMICOLON] + (gap + rest) && Blank(gap) && (Nameless(rest) || NoEquals(rest) || NoNamedValue(rest));
      AfterSemicolon(gap, rest);
    }
  }

  /** Text that is no parameter is the error that still tells the type. */
  lemma JunkIsRefused(t: Bytes, ps: seq<Plain>, sp: Bytes, s: Bytes)
    requires IsMediaType(t) && AllPlain(ps) && Marked(ps) && Distinct(ps) && Blank(sp) && NoParameter(s) && EndsToken(sp + s)
    ensures Parsed(t + PlainThen(ps, sp + s)) == BadParameter(LowerAll(t))
  {
    var m := TextLoops(t, ps, sp + s);
    NotASemicolon(s);
    BlankTrimmed(sp, s);
  }

  // ---------- the type in front ----------

  lemma BlankIsLast(v: Bytes, u: Bytes)
    requires v != [] && u == v[|v| - 1..] && (9 <= u[0] <= 13 || u[0] == SPACE)
    ensures LastSpaceLen(v) == 1
  {
    assert SpaceLen(u) == 1;
  }

  lemma {:induction false} BlankEnd(t: Bytes, b: Bytes)
    requires t != [] && 0x20 < t[|t| - 1] < 0x7f && Blank(b)
    ensures TrimRight(t + b) == t
    decreases |b|
  {
    if b == [] {
      assert t + b == t;
      NothingLast(t);
    } else {
      ShorterBehind(t, b, 1);
      var u := b[|b| - 1..];
      assert u[0] == b[|b| - 1] && u == (t + b)[|t + b| - 1..];
      BlankIsLast(t + b, u);
      BlankEnd(t, b[..|b| - 1]);
    }
  }

  /** Printable ASCII at both ends, or nothing at all. */
  predicate Trim(t: Bytes) { t == [] || (0x20 < t[0] < 0x7f && 0x20 < t[|t| - 1] < 0x7f) }

  lemma TypeSplit(v: Bytes, rest: Bytes)
    requires SEMICOLON !in v && EndsParam(rest)
    ensures TypeEnd(v + rest) == |v| && (v + rest)[..|v|] == v && (v + rest)[|v|..] == rest
  {
    SplitAtType(v, rest);
  }

  lemma BlanksTrimmed(a: Bytes, t: Bytes, b: Bytes)
    requires Blank(a) && Blank(b) && Trim(t)
    ensures t != [] ==> TrimSpace(LowerAll(a + (t + b))) == LowerAll(t)
    ensures t == [] ==> TrimSpace(LowerAll(a + (t + b))) == []
  {
    var l := LowerAll(t);
    assert LowerAll(a + (t + b)) == a + (l + b);
    if t == [] {
      assert a + (l + b) == (a + b) + [];
      BlankTrimmed(a + b, []);
    } else {
      NoSpace(l + b);
      BlankTrimmed(a, l + b);
      BlankEnd(l, b);
    }
  }

  lemma LowerIsToken(k: Bytes)
    ensures IsToken(LowerAll(k)) <==> IsToken(k)
  {
    var l := LowerAll(k);
    assert forall i :: 0 <= i < |k| ==> (IsTokenChar(l[i]) <==> IsTokenChar(k[i]));
  }

  lemma LowerParts(t: Bytes, n: nat)
    requires n < |t|
    ensures LowerAll(t)[..n] == LowerAll(t[..n]) && LowerAll(t)[n + 1..] == LowerAll(t[n + 1..]) && (LowerAll(t)[n] == SLASH <==> t[n] == SLASH)
  {
  }

  /** Where the subtype begins. */
  predicate SlashAt(t: Bytes, n: int) { 0 <= n < |t| && t[n] == SLASH && IsToken(t[..n]) && IsToken(t[n + 1..]) }

  lemma MediaTypeAt(t: Bytes)
    ensures IsMediaType(t) <==> IsToken(t) || exists n :: SlashAt(t, n)
  {
    if major, sub :| IsToken(major) && IsToken(sub) && t == major + ([SLASH] + sub) {
      Cut(major, [SLASH] + sub);
      Assoc(major, [SLASH], sub);
      Cut(major + [SLASH], sub);
      assert SlashAt(t, |major|);
    }
    if n :| SlashAt(t, n) { assert t == t[..n] + ([SLASH] + t[n + 1..]); }
  }

  lemma LowerMediaType(t: Bytes)
    ensures IsMediaType(LowerAll(t)) <==> IsMediaType(t)
  {
    MediaTypeAt(t);
    MediaTypeAt(LowerAll(t));
    LowerIsToken(t);
    forall n ensures SlashAt(LowerAll(t), n) <==> SlashAt(t, n) {
      if 0 <= n < |t| {
        LowerParts(t, n);
        LowerIsToken(t[..n]);
        LowerIsToken(t[n + 1..]);
      }
    }
  }

  /** White space around the type does not count, and what is there has to be a type. */
  lemma TypeDecides(a: Bytes, t: Bytes, b: Bytes, rest: Bytes)
    requires Blank(a) && Blank(b) && Trim(t) && SEMICOLON !in t && EndsParam(rest)
    ensures Parsed(a + (t + b) + rest) == if IsMediaType(t) then Parsed(t + rest) else NoMediaType
  {
    TypeSplit(a + (t + b), rest);
    TypeSplit(t, rest);
    BlanksTrimmed(a, t, b);
    BlanksTrimmed([], t, []);
    assert [] + (t + []) == t;
    LowerMediaType(t);
    DispositionMeans(LowerAll(t));
  }
}
