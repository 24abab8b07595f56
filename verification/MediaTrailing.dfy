/**
 * A semicolon at the end (src/mime/mediatype.go:167-172): ParseMediaType accepts
 * it, but returns before it stitches the starred parameters together.
 */
module MediaTrailing {
  import opened Wrappers
  import opened Text
  import opened Grammar
  import opened MediaParams
  import opened Sorting
  import opened MediaType

  const END: Bytes := [SEMICOLON]

  // ---------- one more semicolon at the end of what is consumed ----------

  lemma SpaceJoin(s: Bytes)
    ensures SpaceLen(s + END) == SpaceLen(s)
  {
  }

  lemma {:induction false} TrimJoin(s: Bytes)
    ensures TrimLeft(s + END) == TrimLeft(s) + END
  {
    SpaceJoin(s);
    if SpaceLen(s) > 0 {
      var n := SpaceLen(s);
      assert (s + END)[n..] == s[n..] + END;
      TrimJoin(s[n..]);
    }
  }

  lemma {:induction false} TokenJoin(s: Bytes)
    ensures TokenLen(s + END) == TokenLen(s)
    ensures ConsumeToken(s + END) == (ConsumeToken(s).0, ConsumeToken(s).1 + END)
  {
    var n := TokenLen(s);
    if s != [] && IsTokenChar(s[0]) {
      assert (s + END)[1..] == s[1..] + END;
      TokenJoin(s[1..]);
    }
    assert (s + END)[..n] == s[..n] && (s + END)[n..] == s[n..] + END;
  }

  lemma {:induction false} QuotedJoin(u: Bytes)
    ensures Quoted(u + END) == if Quoted(u).Some? then Some((Quoted(u).value.0, Quoted(u).value.1 + END)) else None
  {
    if u != [] {
      assert (u + END)[1..] == u[1..] + END;
      QuotedJoin(u[1..]);
      if |u| > 1 {
        assert (u + END)[2..] == u[2..] + END;
        QuotedJoin(u[2..]);
      } else {
        assert (u + END)[2..] == [];
      }
    }
  }

  lemma ValueJoin(v: Bytes)
    ensures ConsumedValue(v + END) == (ConsumedValue(v).0, ConsumedValue(v).1 + END)
  {
    TokenJoin(v);
    if v != [] {
      assert (v + END)[1..] == v[1..] + END;
      QuotedJoin(v[1..]);
    }
  }

  /** A parameter is consumed or not, whether a semicolon follows or not. */
  lemma ParamJoin(v: Bytes)
    ensures ConsumedParam(v + END) ==
            if ConsumedParam(v).Some? then Some((ConsumedParam(v).value.0, ConsumedParam(v).value.1, ConsumedParam(v).value.2 + END))
            else None
  {
    TrimJoin(v);
    var rest0 := TrimLeft(v);
    if rest0 == [] {
      assert [] + END == END;
      assert END[1..] == [];
    } else if rest0[0] == SEMICOLON {
      assert (rest0 + END)[1..] == rest0[1..] + END;
      TrimJoin(rest0[1..]);
      var name := TrimLeft(rest0[1..]);
      TokenJoin(name);
      AfterName(ConsumeToken(name).0, ConsumeToken(name).1);
    }
  }

  lemma AfterName(token: Bytes, rest1: Bytes)
    ensures NamedValue(token, rest1 + END) ==
            if NamedValue(token, rest1).Some? then
              Some((NamedValue(token, rest1).value.0, NamedValue(token, rest1).value.1, NamedValue(token, rest1).value.2 + END))
            else None
  {
    TrimJoin(rest1);
    var rest2 := TrimLeft(rest1);
    if rest2 == [] {
      assert [] + END == END;
    } else {
      assert (rest2 + END)[1..] == rest2[1..] + END;
      TrimJoin(rest2[1..]);
      var rest3 := TrimLeft(rest2[1..]);
      ValueJoin(rest3);
      assert ConsumedValue(rest3).1 + END == rest3 + END <==> ConsumedValue(rest3).1 == rest3 by {
        Cut(ConsumedValue(rest3).1, END);
        Cut(rest3, END);
      }
    }
  }

  // ---------- one more semicolon at the end of the text ----------

  /** What the parameter loop makes of a text that it has made l of, when a semicolon is added. */
  function WithEnd(l: Loop): Loop
  {
    match l
    case Finished(acc) => Trailing(acc)
    case Trailing(_) => Malformed
    case Malformed => Malformed
    case Repeated => Repeated
  }

  /** What starts with no white space and ends in a semicolon is not trimmed. */
  lemma NothingTrimmed(w: Bytes)
    requires SpaceLen(w) == 0
    ensures TrimSpace(w + END) == w + END
  {
    SpaceJoin(w);
    NothingLast(w + END);
  }

  lemma SemicolonAlone()
    ensures ConsumedParam(END).None? && TrimSpace(END) == END && TrimLeft(END) == END
  {
    NothingTrimmed([]);
    assert [] + END == END;
    assert END[1..] == [];
  }

  lemma {:induction false} LoopJoin(v: Bytes, acc: Acc)
    ensures ParseLoop(v + END, acc) == WithEnd(ParseLoop(v, acc))
    decreases |v|
  {
    var w := TrimLeft(v);
    TrimJoin(v);
    if w == [] {
      assert [] + END == END;
      SemicolonAlone();
    } else {
      ParamJoin(w);
      NothingTrimmed(w);
      var p := ConsumedParam(w);
      if p.Some? {
        var next := Insert(acc, p.value.0, p.value.1);
        if next.Some? { LoopJoin(p.value.2, next.value); }
      }
    }
  }

  lemma {:induction false} IndexJoin(v: Bytes)
    ensures Index(v + END, [SEMICOLON]) == TypeEnd(v)
  {
    if v == [] {
      assert v + END == END;
    } else {
      assert [SEMICOLON] <= v <==> [SEMICOLON] <= v + END;
      assert (v + END)[1..] == v[1..] + END;
      IndexJoin(v[1..]);
    }
  }

  /** What the parameter loop makes of the whole text. */
  function LoopOf(v: Bytes): Loop { ParseLoop(v[TypeEnd(v)..], EMPTY) }

  predicate TypeAccepted(v: Bytes) { DispositionOk(TrimSpace(LowerAll(v[..TypeEnd(v)]))) }

  lemma TextJoin(v: Bytes)
    ensures TypeEnd(v + END) == TypeEnd(v) && (v + END)[..TypeEnd(v)] == v[..TypeEnd(v)]
    ensures LoopOf(v + END) == WithEnd(LoopOf(v))
  {
    var i := TypeEnd(v);
    IndexJoin(v);
    assert (v + END)[i..] == v[i..] + END;
    LoopJoin(v[i..], EMPTY);
  }

  /** No starred parameter changes what the plain ones say. */
  ghost predicate NothingStitched(acc: Acc)
  {
    forall key :: key in acc.continuation ==>
      var value := Stitched(acc.continuation[key], key);
      value.None? || (key in acc.params && acc.params[key] == value.value)
  }

  lemma StitchedOrNot(acc: Acc)
    ensures AllFinal(acc) == acc.params <==> NothingStitched(acc)
  {
    var m := AllFinal(acc);
    if m == acc.params {
      forall key | key in acc.continuation
        ensures var value := Stitched(acc.continuation[key], key);
                value.None? || (key in acc.params && acc.params[key] == value.value)
      {
        assert key in m <==> Final(acc, key).Some?;
      }
    }
    if NothingStitched(acc) {
      forall key ensures Final(acc, key) == if key in acc.params then Some(acc.params[key]) else None {
      }
    }
  }

  /**
   * One more semicolon at the end changes nothing if and only if the text is
   * refused in any case, or its parameters are well-formed, do not end in a
   * semicolon already, and no starred one of them counts.
   */
  lemma TrailingSemicolon(v: Bytes)
    ensures Parsed(v + END) == Parsed(v) <==>
            !TypeAccepted(v) ||
            match LoopOf(v)
            case Finished(acc) => NothingStitched(acc)
            case Trailing(_) => false
            case Malformed => true
            case Repeated => true
  {
    TextJoin(v);
    var mediatype := TrimSpace(LowerAll(v[..TypeEnd(v)]));
    assert TypeAccepted(v) ==> Parsed(v) == Outcome(mediatype, LoopOf(v)) && Parsed(v + END) == Outcome(mediatype, LoopOf(v + END));
    if LoopOf(v).Finished? { StitchedOrNot(LoopOf(v).acc); }
  }

  // ---------- and at the end of formatted text ----------

  /** The plain parameters that were collected are those that need no percent-encoding. */
  lemma PlainCollected(attrs: seq<Bytes>, param: map<Bytes, Bytes>, acc: Acc, k: Bytes)
    requires Lists(attrs, param.Keys) && GoodNames(param) && Fed(attrs, param, EMPTY, acc) && k in param
    ensures NeedsPercent(param[k]) ==> LowerAll(k) !in acc.params
    ensures !NeedsPercent(param[k]) ==> LowerAll(k) in acc.params && acc.params[LowerAll(k)] == param[k]
  {
    AttributeBase(k, param[k]);
    assert Lookup(acc, AttributeOf(param, k)) == Some(RawValue(param[k]));
    if LowerAll(k) in acc.params { CollectedIsPlain(attrs, param, acc, LowerAll(k)); }
  }

  lemma CollectedIsPlain(attrs: seq<Bytes>, param: map<Bytes, Bytes>, acc: Acc, x: Bytes)
    requires Lists(attrs, param.Keys) && GoodNames(param) && Fed(attrs, param, EMPTY, acc) && x in acc.params
    ensures exists k :: k in param && !NeedsPercent(param[k]) && LowerAll(k) == x
  {
    ByteIndex(x, STAR);
    assert Lookup(acc, x).Some?;
    var k :| k in attrs && AttributeOf(param, k) == x;
    AttributeBase(k, param[k]);
  }

  /**
   * So a semicolon after what FormatMediaType has written loses exactly the values
   * that are percent-encoded.
   */
  lemma SemicolonLosesEncoded(t: Bytes, param: map<Bytes, Bytes>)
    requires Formatted(t, Ordered(param.Keys), param) != [] && GoodNames(param)
    ensures ComesBack(t, param, Parsed(Formatted(t, Ordered(param.Keys), param) + END)) <==>
            forall k :: k in param ==> !NeedsPercent(param[k])
  {
    var attrs := Ordered(param.Keys);
    ParsedWritten(t, attrs, param, END);
    LoopJoin(Params(attrs, param), EMPTY);
    GoodComeBack(attrs, param);
    FeedKeeps(attrs, param, EMPTY);
    PlainComeBack(attrs, param, Feed(attrs, param, EMPTY).value);
  }

  lemma PlainComeBack(attrs: seq<Bytes>, param: map<Bytes, Bytes>, acc: Acc)
    requires Lists(attrs, param.Keys) && GoodNames(param) && Fed(attrs, param, EMPTY, acc)
    ensures SameValues(param, acc.params) <==> forall k :: k in param ==> !NeedsPercent(param[k])
  {
    forall k | k in param ensures NeedsPercent(param[k]) <==> !Kept(param, acc.params, k) {
      PlainCollected(attrs, param, acc, k);
    }
    forall x | x in acc.params ensures ComesFrom(param, x) { CollectedIsPlain(attrs, param, acc, x); }
    SameIfPlain(param, acc.params);
  }

  predicate Kept(param: map<Bytes, Bytes>, m: map<Bytes, Bytes>, k: Bytes)
    requires k in param
  {
    LowerAll(k) in m && m[LowerAll(k)] == param[k]
  }

  ghost predicate ComesFrom(param: map<Bytes, Bytes>, x: Bytes) { exists k :: k in param && LowerAll(k) == x }

  lemma SameIfPlain(param: map<Bytes, Bytes>, m: map<Bytes, Bytes>)
    requires forall k :: k in param ==> (NeedsPercent(param[k]) <==> !Kept(param, m, k))
    requires forall x :: x in m ==> ComesFrom(param, x)
    ensures SameValues(param, m) <==> forall k :: k in param ==> !NeedsPercent(param[k])
  {
  }
}
