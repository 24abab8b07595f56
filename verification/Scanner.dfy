/**
 * bufio.Scanner with ScanLines (src/bufio/scan.go): tokens cut out of a buffer
 * that is shifted, grown and refilled in place.
 */
module Scanner {
  import opened Wrappers
  import opened Text
  import opened Buffers
  import opened Stream

  // ---------- lines, without any buffer ----------

  function DropCR(line: Bytes): Bytes
  {
    if line != [] && line[|line| - 1] == CR then line[..|line| - 1] else line
  }

  /** The length of the first line of s with its terminator. */
  function LineLen(s: Bytes): (n: nat)
    ensures n <= |s|
  {
    var i := Index(s, [LF]);
    if i == -1 then |s| else i + 1
  }

  predicate Terminated(s: Bytes) { LF in s }

  /** The first line of s without its terminator. */
  function FirstLine(s: Bytes): Bytes
  {
    DropCR(if Terminated(s) && LineLen(s) > 0 then s[..LineLen(s) - 1] else s)
  }

  /** All lines of s. */
  function Lines(s: Bytes): seq<Bytes>
    decreases |s|
  {
    if s == [] then [] else
      LineNonEmpty(s);
      [FirstLine(s)] + Lines(s[LineLen(s)..])
  }

  lemma LineNonEmpty(s: Bytes)
    requires s != []
    ensures LineLen(s) > 0
  {
  }

  /** The first line fits a buffer of the given size, and is known to be whole when it is in it. */
  predicate Fits(s: Bytes, limit: nat)
  {
    if Terminated(s) then LineLen(s) <= limit else |s| < limit
  }

  /** Every line fits. */
  predicate AllFit(s: Bytes, limit: nat)
    decreases |s|
  {
    Fits(s, limit) && (s != [] ==> (LineNonEmpty(s); AllFit(s[LineLen(s)..], limit)))
  }

  /** ScanLines: how far to advance, and the token if there is one. */
  function ScanLines(data: Bytes, atEOF: bool): (int, Option<Bytes>)
  {
    if atEOF && data == [] then (0, None)
    else
      var i := Index(data, [LF]);
      if i >= 0 then (i + 1, Some(DropCR(data[..i])))
      else if atEOF then (|data|, Some(DropCR(data)))
      else (0, None)
  }

  lemma LineAt(head: Bytes, tail: Bytes)
    requires LF !in head
    ensures var s := head + ([LF] + tail);
            LineLen(s) == |head| + 1 && FirstLine(s) == DropCR(head) && Terminated(s)
    ensures var s := head + ([LF] + tail); forall atEOF :: ScanLines(s, atEOF) == (|head| + 1, Some(DropCR(head)))
  {
    var s := head + ([LF] + tail);
    IndexAfter(head, [LF], tail);
    Cut(head, [LF] + tail);
    assert s[|head|] == LF;
  }

  /** A newline in what is there decides the line, whatever is still to come. */
  lemma LineFound(data: Bytes, more: Bytes, atEOF: bool)
    requires LF in data
    ensures LineLen(data + more) == LineLen(data) >= 1 && FirstLine(data + more) == FirstLine(data) && Terminated(data + more)
    ensures ScanLines(data, atEOF) == (LineLen(data), Some(FirstLine(data)))
  {
    var i := Index(data, [LF]);
    ByteIndex(data, LF);
    var head, tail := data[..i], data[i + 1..];
    assert data[i..i + 1] == [LF];
    assert data == head + ([LF] + tail);
    LineAt(head, tail);
    LineAt(head, tail + more);
    Assoc(head, [LF] + tail, more);
    Assoc([LF], tail, more);
  }

  lemma NoLineFound(data: Bytes)
    requires LF !in data
    ensures Index(data, [LF]) == -1 && LineLen(data) == |data| && FirstLine(data) == DropCR(data)
  {
    ByteIndex(data, LF);
  }

  lemma ScanLinesInRange(data: Bytes, atEOF: bool)
    ensures 0 <= ScanLines(data, atEOF).0 <= |data|
    ensures ScanLines(data, atEOF).1.Some? ==> data != [] && (LF in data || atEOF) && ScanLines(data, atEOF).0 > 0
    ensures ScanLines(data, atEOF).1.None? ==> LF !in data && ScanLines(data, atEOF).0 == 0 && (atEOF ==> data == [])
  {
    ByteIndex(data, LF);
  }

  /** The split function cuts off the first line of the data once that is whole or the input has ended. */
  lemma SplitMeans(data: Bytes, atEOF: bool)
    ensures var (advance, token) := ScanLines(data, atEOF);
            if LF in data || (atEOF && data != []) then advance == LineLen(data) && token == Some(FirstLine(data))
            else advance == 0 && token == None
  {
    ScanLinesInRange(data, atEOF);
    if LF in data { LineFound(data, [], atEOF); } else { NoLineFound(data); }
    assert data + [] == data;
  }

  /** A token found in data of at most limit bytes is not the beginning of an endless line. */
  lemma NotTooLong(data: Bytes, more: Bytes, limit: nat)
    requires (LF in data || more == []) && |data| <= limit
    ensures var p := data + more; |p| > limit ==> LF in p[..limit]
  {
    var p := data + more;
    if |p| > limit {
      var i :| 0 <= i < |data| && data[i] == LF;
      assert p[..limit][i] == LF;
    }
  }

  /** A full buffer without a newline holds the beginning of a line that does not fit. */
  lemma LineDoesNotFit(data: Bytes, more: Bytes)
    requires LF !in data
    ensures !Fits(data + more, |data|)
  {
    var p := data + more;
    ByteIndex(p, LF);
    if Terminated(p) {
      var i := Index(p, [LF]);
      assert p[i..i + 1][0] == p[i] == LF;
      assert i >= |data|;
    }
  }

  /** What was read moves from the reader to the buffer. */
  lemma ReadExtends(before: Bytes, after: Bytes, start: nat, end: nat, n: nat, more: Bytes, rest: Bytes)
    requires start <= end && end + n <= |before| == |after| && after[..end] == before[..end]
    requires n <= |more| && after[end..end + n] == more[..n] && rest == more[n..]
    ensures after[start..end + n] == before[start..end] + more[..n]
    ensures after[start..end + n] + rest == before[start..end] + more
  {
    ChunkTaken(before, after, start, end, n, more);
    Assoc(before[start..end], more[..n], rest);
    assert more[..n] + rest == more;
  }

  /** The data has grown by exactly what the reader has given. */
  predicate Grown(given: Bytes, given': Bytes, data: Bytes, data': Bytes)
  {
    given <= given' && data' == data + given'[|given|..]
  }

  lemma NotGrown(given: Bytes, data: Bytes)
    ensures Grown(given, given, data, data)
  {
    assert data + [] == data;
  }

  lemma GrownBy(given: Bytes, data: Bytes, chunk: Bytes)
    ensures Grown(given, given + chunk, data, data + chunk)
  {
    Cut(given, chunk);
  }

  lemma GrownTwice(g0: Bytes, g1: Bytes, g2: Bytes, d0: Bytes, d1: Bytes, d2: Bytes)
    requires Grown(g0, g1, d0, d1) && Grown(g1, g2, d1, d2)
    ensures Grown(g0, g2, d0, d2)
  {
    var a, b := g1[|g0|..], g2[|g1|..];
    assert g2[|g0|..] == a + b;
    Assoc(d0, a, b);
  }

  lemma MoreRead(g0: Bytes, g1: Bytes, g2: Bytes, data: Bytes, done: Bytes, held: Bytes)
    requires Grown(g0, g1, data, done + held) && g1 <= g2
    ensures Grown(g0, g2, data, done + (held + g2[|g1|..]))
  {
    var chunk := g2[|g1|..];
    assert g2 == g1 + chunk;
    GrownBy(g1, done + held, chunk);
    GrownTwice(g0, g1, g2, data, done + held, done + held + chunk);
    Assoc(done, held, chunk);
  }

  lemma LinesCons(s: Bytes, rest: Bytes)
    requires s != [] && rest == s[LineLen(s)..]
    ensures LineLen(s) > 0 && Lines(s) == [FirstLine(s)] + Lines(rest)
  {
    LineNonEmpty(s);
  }

  lemma DropJoined(a: Bytes, b: Bytes, n: nat)
    requires n <= |a|
    ensures (a + b)[n..] == a[n..] + b
  {
  }

  predicate EndsLine(s: Bytes) { s == [] || s[|s| - 1] == LF }

  /** Lines that end where they are cut can be told apart from what follows. */
  lemma {:induction false} LinesCut(done: Bytes, more: Bytes)
    requires EndsLine(done)
    ensures Lines(done + more) == Lines(done) + Lines(more)
    decreases |done|
  {
    if done == [] {
      assert [] + more == more && [] + Lines(more) == Lines(more);
    } else {
      var n := LineLen(done);
      var rest := done[n..];
      assert done[|done| - 1] in done;
      LineFound(done, more, false);
      LinesCons(done, rest);
      DropJoined(done, more, n);
      LinesCons(done + more, rest + more);
      LinesCut(rest, more);
      Assoc([FirstLine(done)], Lines(rest), Lines(more));
    }
  }

  /** The first line of total by itself. */
  lemma FirstLineAlone(total: Bytes, line: Bytes, rest: Bytes)
    requires total != [] && line == total[..LineLen(total)] && rest == total[LineLen(total)..]
    ensures line != [] && Lines(line) == [FirstLine(total)] && (LF in total ==> EndsLine(line))
  {
    LineNonEmpty(total);
    assert total == line + rest;
    if LF in total {
      ByteIndex(total, LF);
      assert total[LineLen(total) - 1..LineLen(total)] == [LF];
      assert line[|line| - 1] == LF;
      LineFound(line, rest, true);
    } else {
      NoLineFound(total);
      assert line == total;
    }
    LinesCons(line, []);
    assert [FirstLine(line)] + [] == [FirstLine(line)];
  }

  /** One more line is cut off. */
  lemma OneMoreLine(done: Bytes, total: Bytes, line: Bytes, rest: Bytes)
    requires EndsLine(done) && total != [] && line == total[..LineLen(total)] && rest == total[LineLen(total)..]
    ensures Lines(done + line) == Lines(done) + [FirstLine(total)] && done + total == done + line + rest
    ensures LF in total ==> EndsLine(done + line)
  {
    FirstLineAlone(total, line, rest);
    LinesCut(done, line);
    CutAgain(total, LineLen(total), line, rest);
    Assoc(done, line, rest);
    if EndsLine(line) { EndsJoined(done, line); }
  }

  lemma CutAgain(s: Bytes, n: nat, a: Bytes, b: Bytes)
    requires n <= |s| && a == s[..n] && b == s[n..]
    ensures s == a + b
  {
  }

  lemma EndsJoined(a: Bytes, b: Bytes)
    requires b != [] && EndsLine(b)
    ensures EndsLine(a + b)
  {
    assert (a + b)[|a + b| - 1] == b[|b| - 1];
  }

  // ---------- lines, written ----------

  /** Lines with their ends, \r\n or \n as chosen. */
  function Written(lines: seq<Bytes>, crlf: seq<bool>): Bytes
    requires |crlf| == |lines|
  {
    if lines == [] then [] else lines[0] + ((if crlf[0] then [CR, LF] else [LF]) + Written(lines[1..], crlf[1..]))
  }

  /** What can be read back: no newline inside, and no \r that would be taken for a part of the end. */
  predicate Writable(line: Bytes, crlf: bool) { LF !in line && (crlf || line == [] || line[|line| - 1] != CR) }

  lemma EndWritten(line: Bytes, tail: Bytes)
    ensures line + ([CR, LF] + tail) == line + [CR] + ([LF] + tail)
  {
  }

  lemma DropWritten(line: Bytes, crlf: bool, head: Bytes)
    requires Writable(line, crlf) && head == if crlf then line + [CR] else line
    ensures DropCR(head) == line && LF !in head
  {
  }

  lemma LineWritten(line: Bytes, crlf: bool, tail: Bytes)
    requires Writable(line, crlf)
    ensures var s := line + ((if crlf then [CR, LF] else [LF]) + tail);
            s != [] && FirstLine(s) == line && s[LineLen(s)..] == tail
  {
    var head := if crlf then line + [CR] else line;
    EndWritten(line, tail);
    DropWritten(line, crlf, head);
    LineAt(head, tail);
    Cut(head + [LF], tail);
    Assoc(head, [LF], tail);
  }

  lemma OneMoreWritten(line: Bytes, crlf: bool, tail: Bytes)
    requires Writable(line, crlf)
    ensures Lines(line + ((if crlf then [CR, LF] else [LF]) + tail)) == [line] + Lines(tail)
  {
    LineWritten(line, crlf, tail);
    LinesCons(line + ((if crlf then [CR, LF] else [LF]) + tail), tail);
  }

  lemma FirstOf(lines: seq<Bytes>, more: seq<Bytes>)
    requires lines != []
    ensures [lines[0]] + (lines[1..] + more) == lines + more
  {
  }

  /** Scanning takes off exactly one end of each line, and one \r with it. */
  lemma {:induction false} LinesWritten(lines: seq<Bytes>, crlf: seq<bool>, last: Bytes)
    requires |crlf| == |lines| && forall i :: 0 <= i < |lines| ==> Writable(lines[i], crlf[i])
    requires Writable(last, false)
    ensures Lines(Written(lines, crlf) + last) == lines + if last == [] then [] else [last]
  {
    if lines == [] {
      assert [] + last == last;
      if last != [] {
        NoLineFound(last);
        LinesCons(last, []);
        assert [last] + [] == [last];
      }
    } else {
      var end: Bytes, rest := if crlf[0] then [CR, LF] else [LF], Written(lines[1..], crlf[1..]);
      LinesWritten(lines[1..], crlf[1..], last);
      Assoc(end, rest, last);
      Assoc(lines[0], end + rest, last);
      OneMoreWritten(lines[0], crlf[0], rest + last);
      FirstOf(lines, if last == [] then [] else [last]);
    }
  }

  /** What a scan that has found a token in the data says about all that is pending. */
  lemma FoundIsFirst(data: Bytes, more: Bytes, limit: nat)
    requires data != [] && (LF in data || more == [])
    ensures var p := data + more;
            p != [] && FirstLine(p) == FirstLine(data) && data[LineLen(data)..] + more == p[LineLen(p)..]
    ensures |data| <= limit ==> |data + more| > limit ==> LF in (data + more)[..limit]
  {
    if LF in data { LineFound(data, more, false); } else { assert data + more == data; }
    assert data[LineLen(data)..] + more == (data + more)[LineLen(data)..];
    if |data| <= limit { NotTooLong(data, more, limit); }
  }

  const START_SIZE: nat := 4096

  /** How many empty reads in a row end a scan. */
  const TRIES: nat := MAX_EMPTY + 1

  class Scanner {
    const src: Source
    const maxTokenSize: nat
    var buf: array<Byte>
    var start: nat
    var end: nat
    var err: Option<Error>
    var token: Option<Bytes>
    var empties: nat

    ghost predicate Valid()
      reads this
    {
      start <= end <= buf.Length && empties == 0
    }

    /** The input that has not been handed out: the buffered bytes and those the reader still has. */
    ghost function Pending(): Bytes
      requires Valid()
      reads this, buf, src
    {
      buf[start..end] + src.rest
    }

    /** No error but the reader's own at the end of its bytes. */
    ghost predicate Healthy()
      reads this, src
    {
      err.None? || (err == Some(src.final) && src.rest == [])
    }

    /** The largest the buffer may be. */
    ghost function Limit(): nat
      reads this
    {
      if maxTokenSize < buf.Length then buf.Length else maxTokenSize
    }

    constructor (r: Source, buffer: array<Byte>, max: nat)
      ensures Valid() && src == r && buf == buffer && maxTokenSize == max && err.None? && start == end == 0
    {
      src, buf, maxTokenSize := r, buffer, max;
      start, end, err, token, empties := 0, 0, None, None, 0;
    }

    method SetErr(e: Error)
      requires Valid()
      modifies this`err
      ensures Valid() && err == if old(err).None? || old(err) == Some(EOF) then Some(e) else old(err)
    {
      if err.None? || err == Some(EOF) { err := Some(e); }
    }

    method Advance(n: int) returns (ok: bool)
      requires Valid() && 0 <= n <= end - start
      modifies this`start
      ensures ok && Valid() && start == old(start) + n
    {
      start := start + n;
      return true;
    }

    /** Shift data to the beginning of the buffer if space is needed or plentiful. */
    method Shift()
      requires Valid()
      modifies this`start, this`end, buf
      ensures Valid() && buf[start..end] == old(buf[start..end])
      ensures end == buf.Length ==> start == 0
    {
      ghost var data := buf[start..end];
      if start > 0 && (end == buf.Length || start > buf.Length / 2) {
        CopyDown(buf, buf, start, end - start);
        end := end - start;
        start := 0;
        assert buf[start..end] == data;
      }
    }

    /** Resize a full buffer; false if it may not grow. */
    method Grow() returns (ok: bool)
      requires Valid() && err.None? && end == buf.Length && start == 0
      modifies this`buf, this`start, this`end, this`err
      ensures Valid() && Limit() == old(Limit()) && (buf == old(buf) || fresh(buf))
      ensures buf[start..end] == old(buf[start..end])
      ensures ok ==> err.None? && end < buf.Length
      ensures !ok ==> err == Some(TooLong) && end - start == buf.Length == Limit()
    {
      if buf.Length >= maxTokenSize {
        SetErr(TooLong);
        return false;
      }
      var newSize := buf.Length * 2;
      if newSize == 0 { newSize := START_SIZE; }
      if newSize > maxTokenSize { newSize := maxTokenSize; }
      var newBuf := new Byte[newSize];
      CopyDown(newBuf, buf, start, end - start);
      buf := newBuf;
      end := end - start;
      start := 0;
      return true;
    }

    /** A call of the split function on what the buffer holds, if anything or the end of the input; true if that gave a token. */
    method TryToken() returns (found: bool)
      requires Valid()
      modifies this`start, this`token, this`empties
      ensures Valid()
      ensures var data := old(buf[start..end]);
              found == (LF in data || (data != [] && err.Some?)) &&
              if found then token == Some(FirstLine(data)) && buf[start..end] == data[LineLen(data)..]
              else buf[start..end] == data
    {
      ghost var data := buf[start..end];
      SplitMeans(data, err.Some?);
      if end == start && err.None? { return false; }
      var (advance, t) := ScanLines(buf[start..end], err.Some?);
      ScanLinesInRange(data, err.Some?);
      var legal := Advance(advance);
      assert buf[start..end] == data[advance..];
      token := t;
      if token.Some? {
        if err.None? || advance > 0 {
          empties := 0;
        } else {
          // counting tokens that do not advance, up to a panic
          assert false;
        }
      }
      return token.Some?;
    }

    /** The Read itself; false if it reports an impossible count, else its n bytes follow the data. */
    method ReadInto() returns (ok: bool, n: nat, e: Option<Error>)
      requires Valid() && end < buf.Length
      modifies src, buf
      ensures src.plan == Tail(old(src.plan)) && buf[start..end] == old(buf[start..end])
      ensures !ok ==> !GivesNext(old(src.plan)) && src.given == old(src.given) && src.rest == old(src.rest)
      ensures ok ==>
        n <= buf.Length - end && |src.rest| == |old(src.rest)| - n && buf[start..end + n] + src.rest == old(Pending()) &&
        (n == 0 ==> src.rest == old(src.rest)) &&
        Grown(old(src.given), src.given, old(buf[start..end]), buf[start..end + n]) &&
        (GivesNext(old(src.plan)) ==>
          (e.Some? ==> e == Some(src.final) && src.rest == []) && (n == 0 && e.None? ==> EmptyNext(old(src.plan))))
    {
      ghost var was, more, given := buf[..], src.rest, src.given;
      var k, err' := src.Read(buf, end);
      ReadKeeps(was, buf[..], start, end);
      if k < 0 || buf.Length - end < k { return false, 0, None; }
      ReadExtends(was, buf[..], start, end, k, more, src.rest);
      GrownBy(given, was[start..end], more[..k]);
      return true, k, err';
    }

    /** One Read into the free part of the buffer; true if it brought nothing and did not fail. */
    method ReadOnce() returns (again: bool)
      requires Valid() && err.None? && end < buf.Length
      modifies this`end, this`err, this`empties, src, buf
      ensures Valid() && start == old(start) && src.plan == Tail(old(src.plan))
      ensures again ==>
        err.None? && end == old(end) && src.rest == old(src.rest) && buf[start..end] == old(buf[start..end]) &&
        (GivesNext(old(src.plan)) ==> EmptyNext(old(src.plan)))
      ensures !again ==> err.Some? || |src.rest| < |old(src.rest)|
      ensures Grown(old(src.given), src.given, old(buf[start..end]), buf[start..end])
      ensures |src.rest| + |src.given| == old(|src.rest| + |src.given|)
      ensures !again && GivesNext(old(src.plan)) ==> Healthy() && Pending() == old(Pending())
    {
      NotGrown(src.given, buf[start..end]);
      var ok, n, e := ReadInto();
      if !ok {
        SetErr(BadReadCount);
        return false;
      }
      end := end + n;
      if e.Some? {
        SetErr(e.value);
        return false;
      }
      if n > 0 {
        empties := 0;
        return false;
      }
      return true;
    }

    /** The reads of one round: up to the first that brings something or fails. */
    method ReadSome()
      requires Valid() && err.None? && end < buf.Length
      modifies this`end, this`err, this`empties, src, buf
      ensures Valid() && start == old(start)
      ensures err.Some? || |src.rest| < |old(src.rest)|
      ensures Grown(old(src.given), src.given, old(buf[start..end]), buf[start..end])
      ensures |src.rest| + |src.given| == old(|src.rest| + |src.given|)
      ensures old(WellBehaved(src.plan, TRIES)) ==> WellBehaved(src.plan, TRIES) && Healthy() && Pending() == old(Pending())
    {
      ghost var plan := src.plan;
      ghost var given, data := src.given, buf[start..end];
      var loop: nat := 0;
      NotGrown(given, data);
      while true
        invariant Valid() && loop <= MAX_EMPTY && start == old(start) && end == old(end) && err.None?
        invariant src.rest == old(src.rest) && buf[start..end] == data && src.given == given
        invariant WellBehaved(plan, TRIES) ==> WellBehaved(src.plan, TRIES) && Tried(plan, src.plan, loop)
        decreases MAX_EMPTY - loop
      {
        ghost var now := src.plan;
        var again := ReadOnce();
        if WellBehaved(plan, TRIES) { StillWellBehaved(now, TRIES); }
        if !again { break; }
        if WellBehaved(plan, TRIES) { TriedOnce(plan, now, loop); }
        loop := loop + 1;
        if loop > MAX_EMPTY {
          assert WellBehaved(plan, TRIES) ==> LongGap(plan, 0, TRIES);
          SetErr(NoProgress);
          break;
        }
      }
    }

    /** What Scan has to do with the pending input p. */
    ghost predicate ScanOk(p: Bytes, ok: bool)
      requires Valid()
      reads this, buf, src
    {
      (Fits(p, Limit()) ==>
        if p == [] then !ok && err == Some(src.final)
        else ok && token == Some(FirstLine(p)) && Pending() == p[LineLen(p)..] && WellBehaved(src.plan, TRIES) && Healthy()) &&
      (|p| > Limit() && LF !in p[..Limit()] ==> !ok && err == Some(TooLong))
    }

    /** What Scan has done with any reader at all, when total is the data it had and what the reader gave it in the meantime. */
    ghost predicate CutOff(total: Bytes, ok: bool)
      requires Valid()
      reads this, buf
    {
      if ok then
        total != [] && token == Some(FirstLine(total)) && buf[start..end] == total[LineLen(total)..] && (LF in total || err.Some?)
      else
        err.Some? && buf[start..end] == total && (total == [] || (err == Some(TooLong) && LF !in total && |total| == Limit()))
    }

    /** What Scan returns without reading: a token from the data it has, or the end of the scan. */
    method FromBuffer() returns (found: bool, ended: bool)
      requires Valid()
      modifies this`start, this`end, this`token, this`empties
      ensures Valid() && !(found && ended)
      ensures found || ended ==> CutOff(old(buf[start..end]), found)
      ensures (found || ended) && old(WellBehaved(src.plan, TRIES) && Healthy()) ==> ScanOk(old(Pending()), found)
      ensures !found && !ended ==> err.None? && buf[start..end] == old(buf[start..end]) && LF !in buf[start..end]
    {
      ghost var data, more := buf[start..end], src.rest;
      ended := false;
      found := TryToken();
      if found {
        if Healthy() { FoundIsFirst(data, more, Limit()); }
      } else if err.Some? {
        start := 0;
        end := 0;
        assert buf[start..end] == [];
        ended := true;
      }
    }

    /** Room for more data, and reading it; false if the line in the buffer is too long. */
    method More() returns (ok: bool)
      requires Valid() && err.None? && LF !in buf[start..end]
      modifies this, src, buf
      ensures Valid() && Limit() == old(Limit()) && (buf == old(buf) || fresh(buf))
      ensures ok ==> err.Some? || |src.rest| < |old(src.rest)|
      ensures ok ==> Grown(old(src.given), src.given, old(buf[start..end]), buf[start..end])
      ensures |src.rest| + |src.given| == old(|src.rest| + |src.given|)
      ensures ok && old(WellBehaved(src.plan, TRIES)) ==> WellBehaved(src.plan, TRIES) && Healthy() && Pending() == old(Pending())
      ensures !ok ==> CutOff(old(buf[start..end]), false) && ScanOk(old(Pending()), false) && src.given == old(src.given)
    {
      ghost var data, more := buf[start..end], src.rest;
      Shift();
      if end == buf.Length {
        var room := Grow();
        if !room {
          LineDoesNotFit(data, more);
          return false;
        }
      }
      ReadSome();
      return true;
    }

    /**
     * Scan always returns. With a well-behaved reader its token is the first line
     * of the pending input, however the reader cuts that input up. With any reader
     * it is the first line of what the reader gave, and after an error no more is read.
     */
    method Scan() returns (ok: bool)
      requires Valid()
      modifies this, src, buf
      ensures Valid() && Limit() == old(Limit()) && (buf == old(buf) || fresh(buf))
      ensures old(WellBehaved(src.plan, TRIES) && Healthy()) ==> ScanOk(old(Pending()), ok)
      ensures old(src.given) <= src.given && CutOff(old(buf[start..end]) + src.given[|old(src.given)|..], ok)
      ensures old(err.Some?) ==> err == old(err) && src.given == old(src.given)
      ensures |src.rest| + |src.given| == old(|src.rest| + |src.given|)
    {
      ghost var good, p, limit := WellBehaved(src.plan, TRIES) && Healthy(), Pending(), Limit();
      ghost var given, data0 := src.given, buf[start..end];
      NotGrown(given, data0);
      while true
        invariant Valid() && Limit() == limit && (buf == old(buf) || fresh(buf))
        invariant good ==> WellBehaved(src.plan, TRIES) && Healthy() && Pending() == p
        invariant Grown(given, src.given, data0, buf[start..end])
        invariant old(err.Some?) ==> err == old(err) && src.given == given
        invariant |src.rest| + |src.given| == old(|src.rest| + |src.given|)
        decreases err.None?, |src.rest|
      {
        ghost var data, before := buf[start..end], src.given;
        var found, ended := FromBuffer();
        if found || ended { return found; }
        var room := More();
        if !room { return false; }
        GrownTwice(given, before, src.given, data0, data, buf[start..end]);
      }
    }
  }

  /** The tokens so far are the lines of done; done and what is in the buffer are what was there at first and what the reader has given since. */
  ghost predicate Progress(s: Scanner, given: Bytes, data: Bytes, done: Bytes, tokens: seq<Bytes>)
    requires s.Valid()
    reads s, s.src, s.buf
  {
    Grown(given, s.src.given, data, done + s.buf[s.start..s.end]) && tokens == Lines(done) &&
    (EndsLine(done) || (s.err.Some? && s.buf[s.start..s.end] == []))
  }

  /** tokens are the lines of read, or those before one that is longer than the limit. */
  ghost predicate LinesOf(read: Bytes, tokens: seq<Bytes>, err: Option<Error>, limit: nat)
  {
    tokens == Lines(read) ||
    (err == Some(TooLong) &&
     exists k :: 0 <= k <= |read| && tokens == Lines(read[..k]) && LF !in read[k..] && |read[k..]| == limit)
  }

  lemma LinesEnd(read: Bytes, done: Bytes, total: Bytes, tokens: seq<Bytes>, err: Option<Error>, limit: nat)
    requires read == done + total && tokens == Lines(done)
    requires total == [] || (err == Some(TooLong) && LF !in total && |total| == limit)
    ensures LinesOf(read, tokens, err, limit)
  {
    Cut(done, total);
    if total == [] {
      assert done + [] == done;
    } else {
      var k := |done|;
      assert read[..k] == done && read[k..] == total;
    }
  }

  /** One more call of Scan. */
  method NextToken(s: Scanner, tokens: seq<Bytes>, ghost given: Bytes, ghost data: Bytes, ghost done: Bytes)
    returns (ok: bool, ghost done': Bytes)
    requires s.Valid() && Progress(s, given, data, done, tokens)
    modifies s, s.src, s.buf
    ensures s.Valid() && s.Limit() == old(s.Limit()) && (s.buf == old(s.buf) || fresh(s.buf))
    ensures old(WellBehaved(s.src.plan, TRIES) && s.Healthy()) ==> s.ScanOk(old(s.Pending()), ok)
    ensures ok ==> s.token.Some? && Progress(s, given, data, done', tokens + [s.token.value])
    ensures ok ==> |s.buf[s.start..s.end]| + |s.src.rest| < old(|s.buf[s.start..s.end]| + |s.src.rest|)
    ensures !ok ==> s.err.Some? && given <= s.src.given && LinesOf(data + s.src.given[|given|..], tokens, s.err, s.Limit())
  {
    ghost var held, before := s.buf[s.start..s.end], s.src.given;
    done' := done;
    ok := s.Scan();
    ghost var total := held + s.src.given[|before|..];
    MoreRead(given, before, s.src.given, data, done, held);
    if ok {
      LineNonEmpty(total);
      OneMoreLine(done, total, total[..LineLen(total)], total[LineLen(total)..]);
      done' := done + total[..LineLen(total)];
    } else {
      LinesEnd(data + s.src.given[|given|..], done, total, tokens, s.err, s.Limit());
    }
  }

  /**
   * Scanning to the end. The tokens are the lines of all that the reader gave
   * before its first error, unless a line does not fit; and with a well-behaved
   * reader that is the whole input, whatever the size of the buffer and however
   * the reader delivers.
   */
  method AllTokens(s: Scanner) returns (tokens: seq<Bytes>)
    requires s.Valid()
    modifies s, s.src, s.buf
    ensures old(s.Healthy() && WellBehaved(s.src.plan, TRIES) && AllFit(s.Pending(), s.Limit())) ==> tokens == Lines(old(s.Pending()))
    ensures s.Valid() && s.err.Some? && old(s.src.given) <= s.src.given
    ensures LinesOf(old(s.buf[s.start..s.end]) + s.src.given[|old(s.src.given)|..], tokens, s.err, s.Limit())
  {
    tokens := [];
    ghost var input, limit := s.Pending(), s.Limit();
    ghost var good := s.Healthy() && WellBehaved(s.src.plan, TRIES) && AllFit(input, limit);
    ghost var given, data, done: Bytes := s.src.given, s.buf[s.start..s.end], [];
    NotGrown(given, data);
    assert [] + data == data;
    while true
      invariant s.Valid() && s.Limit() == limit
      invariant s.buf == old(s.buf) || fresh(s.buf)
      invariant good ==> s.Healthy() && WellBehaved(s.src.plan, TRIES) && AllFit(s.Pending(), limit) && tokens + Lines(s.Pending()) == Lines(input)
      invariant Progress(s, given, data, done, tokens)
      decreases |s.buf[s.start..s.end]| + |s.src.rest|
    {
      ghost var p := s.Pending();
      var ok;
      ok, done := NextToken(s, tokens, given, data, done);
      if !ok { break; }
      if good {
        LineNonEmpty(p);
        assert [FirstLine(p)] + Lines(s.Pending()) == Lines(p);
        Assoc(tokens, [FirstLine(p)], Lines(s.Pending()));
      }
      tokens := tokens + [s.token.value];
    }
  }
}
