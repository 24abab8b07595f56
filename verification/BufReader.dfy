/**
 * bufio.Reader (src/bufio/bufio.go): a buffer of fixed size over a reader, with
 * one byte of unread.
 */
module BufReader {
  import opened Wrappers
  import opened Text
  import opened Buffers
  import opened Stream

  /** A reader that keeps to the rules on counts and does not use ErrBufferFull, which is bufio's own. */
  ghost predicate Proper(src: Source)
    reads src
  {
    src.final != BufferFull && ProperPlan(src.plan)
  }

  ghost predicate ProperPlan(plan: seq<Reply>)
  {
    forall i :: 0 <= i < |plan| ==> plan[i].Give? || (plan[i].Glitch? && plan[i].err != BufferFull)
  }

  lemma PlanTail(plan: seq<Reply>)
    requires ProperPlan(plan)
    ensures ProperPlan(Tail(plan))
    ensures WellBehaved(plan, MAX_EMPTY) ==> GivesNext(plan) && WellBehaved(Tail(plan), MAX_EMPTY)
  {
    if WellBehaved(plan, MAX_EMPTY) { StillWellBehaved(plan, MAX_EMPTY); }
  }

  const MIN_SIZE: nat := 16

  function Min(a: nat, b: nat): nat { if a < b then a else b }

  /** lastByte after a line has been handed out. */
  function NewLast(lastByte: int, line: Bytes): int { if line == [] then lastByte else line[|line| - 1] }

  lemma PendingKept(data: Bytes, rest: Bytes, n: nat)
    requires n <= |rest|
    ensures data + rest[..n] + rest[n..] == data + rest && (n == 0 ==> data + rest[..n] == data && rest[n..] == rest)
  {
    Assoc(data, rest[..n], rest[n..]);
    assert rest[..n] + rest[n..] == rest;
  }

  class Reader {
    const rd: Source
    const buf: array<Byte>
    var r: nat
    var w: nat
    var err: Option<Error>
    var lastByte: int
    /** The bytes handed out, net of unreads. */
    ghost var out: Bytes

    /** buf[r:w] */
    ghost function Data(): Bytes
      requires r <= w <= buf.Length
      reads this, buf
    {
      buf[r..w]
    }

    /** The bytes handed out, followed by those buffered, are exactly those taken from the reader. */
    ghost predicate Valid()
      reads this, buf, rd
    {
      r <= w <= buf.Length && buf.Length >= MIN_SIZE && Proper(rd) && (err.Some? ==> err != Some(BufferFull)) &&
      out + Data() == rd.given &&
      -1 <= lastByte < 256 && (lastByte >= 0 ==> out != [] && out[|out| - 1] == lastByte)
    }

    /** Everything still to come: what is buffered and what the reader has left. */
    ghost function Pending(): Bytes
      requires r <= w <= buf.Length
      reads this, buf, rd
    {
      Data() + rd.rest
    }

    /** The reader under it behaves, and has reported nothing but its end. */
    ghost predicate Healthy()
      reads this, rd
    {
      WellBehaved(rd.plan, MAX_EMPTY) && (err.None? || (err == Some(rd.final) && rd.rest == []))
    }

    constructor (rd: Source, size: nat)
      requires Proper(rd) && rd.given == []
      ensures Valid() && this.rd == rd && out == [] && r == w == 0 && err.None? && lastByte == -1
      ensures fresh(buf) && buf.Length == if size < MIN_SIZE then MIN_SIZE else size
    {
      this.rd := rd;
      buf := new Byte[if size < MIN_SIZE then MIN_SIZE else size];
      r, w, err, lastByte, out := 0, 0, None, -1, [];
    }

    method ReadErr() returns (e: Option<Error>)
      modifies this`err
      ensures e == old(err) && err.None?
    {
      e := err;
      err := None;
    }

    /** One underlying read into the free part of the buffer. */
    method ReadChunk() returns (n: nat, e: Option<Error>)
      requires Valid() && w < buf.Length
      modifies this`w, rd, buf
      ensures Valid() && w == old(w) + n && n <= |old(rd.rest)|
      ensures Data() == old(Data()) + old(rd.rest)[..n] && rd.rest == old(rd.rest)[n..]
      ensures rd.plan == Tail(old(rd.plan))
      ensures e != Some(BufferFull)
      ensures old(WellBehaved(rd.plan, MAX_EMPTY)) ==> WellBehaved(rd.plan, MAX_EMPTY)
      ensures GivesNext(old(rd.plan)) ==>
        (e.Some? ==> e == Some(rd.final) && rd.rest == []) && (n == 0 && e.None? ==> EmptyNext(old(rd.plan)))
      ensures GlitchNext(old(rd.plan)) ==> e == Some(old(rd.plan)[0].err)
    {
      ghost var was, more := buf[..], rd.rest;
      PlanTail(rd.plan);
      var k, e' := rd.Read(buf, w);
      ChunkTaken(was, buf[..], r, w, k, more);
      Assoc(out, was[r..w], more[..k]);
      w := w + k;
      n, e := k, e';
    }

    /** Slide existing data to the beginning. */
    method Slide()
      requires Valid()
      modifies this`r, this`w, buf
      ensures Valid() && r == 0 && Data() == old(Data())
    {
      ghost var data := Data();
      if r > 0 {
        var n := w - r;
        assert data == buf[r..r + n];
        CopyDown(buf, buf, r, n);
        r, w := 0, n;
        assert Data() == buf[..n];
      }
    }

    /** fill: a new chunk into the buffer, after sliding what is there to the beginning. */
    method Fill()
      requires Valid() && w - r < buf.Length
      modifies this`r, this`w, this`err, rd, buf
      ensures Valid() && r == 0
      ensures old(Data()) <= Data() && Pending() == old(Pending())
      ensures err.Some? || (err == old(err) && |Data()| > |old(Data())|)
      ensures old(Healthy()) ==> Healthy()
    {
      ghost var data, rest, plan := Data(), rd.rest, rd.plan;
      Slide();
      var i: nat := MAX_EMPTY;
      while i > 0
        invariant Valid() && r == 0 && w < buf.Length && err == old(err) && Data() == data && rd.rest == rest && i <= MAX_EMPTY
        invariant WellBehaved(plan, MAX_EMPTY) ==> WellBehaved(rd.plan, MAX_EMPTY) && Tried(plan, rd.plan, MAX_EMPTY - i)
      {
        ghost var now := rd.plan;
        var n, e := ReadChunk();
        PendingKept(data, rest, n);
        if e.Some? {
          err := e;
          return;
        }
        if n > 0 { return; }
        if WellBehaved(plan, MAX_EMPTY) { TriedOnce(plan, now, MAX_EMPTY - i); }
        i := i - 1;
      }
      assert WellBehaved(plan, MAX_EMPTY) ==> LongGap(plan, 0, MAX_EMPTY);
      err := Some(NoProgress);
    }

    /** Peek: the bytes come out of the buffer without being handed out. */
    method Peek(n: int) returns (bytes: Bytes, e: Option<Error>)
      requires Valid()
      modifies this`r, this`w, this`err, this`lastByte, rd, buf
      ensures Valid() && Pending() == old(Pending())
      ensures n < 0 ==> bytes == [] && e == Some(NegativeCount)
      ensures n >= 0 ==> bytes <= Data() && (if n <= |Data()| then |bytes| == n else bytes == Data())
      ensures n >= 0 ==> (e.None? <==> |bytes| == n) && (n > buf.Length ==> e == Some(BufferFull)) && lastByte == -1
      ensures old(Healthy()) ==> Healthy() && (0 <= n <= buf.Length ==> bytes == if n <= |Pending()| then Pending()[..n] else Pending())
      ensures old(Healthy()) && 0 <= n <= buf.Length && e.Some? ==> e == Some(rd.final) && err.None?
      ensures n <= old(w - r) ==> rd.plan == old(rd.plan) && err == old(err)
    {
      if n < 0 { return [], Some(NegativeCount); }
      lastByte := -1;
      while w - r < n && w - r < buf.Length && err.None?
        invariant Valid() && Pending() == old(Pending()) && lastByte == -1
        invariant n <= old(w - r) ==> rd.plan == old(rd.plan) && err == old(err) && w - r == old(w - r)
        invariant old(Healthy()) ==> Healthy()
        decreases err.None?, buf.Length - (w - r)
      {
        Fill();
      }
      if n > buf.Length { return buf[r..w], Some(BufferFull); }
      var avail := w - r;
      var k := n;
      e := None;
      if avail < n {
        k := avail;
        assert old(Healthy()) ==> Pending() == Data();
        e := ReadErr();
        if e.None? { e := Some(BufferFull); }
      }
      return buf[r..r + k], e;
    }

    /** A large read past the empty buffer, straight into p. */
    method ReadDirect(p: array<Byte>) returns (n: nat, e: Option<Error>)
      requires Valid() && p != buf && r == w && err.None?
      modifies this`err, this`lastByte, this`out, rd, p
      ensures Valid() && n <= p.Length && r == w && err.None?
      ensures out == old(out) + p[..n] && p[..n] + Pending() == old(Pending())
      ensures rd.plan == Tail(old(rd.plan)) && n == |rd.given| - |old(rd.given)| && lastByte == NewLast(old(lastByte), p[..n])
      ensures p.Length > 0 && n == 0 && e.None? && GivesNext(old(rd.plan)) ==> EmptyNext(old(rd.plan))
      ensures GlitchNext(old(rd.plan)) ==> e == Some(old(rd.plan)[0].err)
      ensures old(WellBehaved(rd.plan, MAX_EMPTY)) ==> WellBehaved(rd.plan, MAX_EMPTY) && (e.Some? ==> e == Some(rd.final) && rd.rest == [])
    {
      PlanTail(rd.plan);
      ghost var more, was := rd.rest, out;
      assert Data() == [] && was + [] == was;
      var k, e' := rd.Read(p, 0);
      n := k;
      DirectTaken(p[..], n, more);
      err := e';
      out := out + p[..n];
      if n > 0 { lastByte := p[n - 1]; }
      assert Data() == [] && out + [] == out;
      e := ReadErr();
    }

    /** Take k bytes of the buffer as the caller's line, noting the last byte if there is one. */
    method HandOut(k: nat) returns (line: Bytes)
      requires Valid() && k <= w - r
      modifies this`r, this`lastByte, this`out
      ensures Valid() && line == old(Data())[..k] && Data() == old(Data())[k..] && r == old(r) + k
      ensures out == old(out) + line && line + Pending() == old(Pending()) && lastByte == NewLast(old(lastByte), line)
    {
      ghost var was, data := out, Data();
      Front(buf[..], r, w, k);
      line := buf[r..r + k];
      r := r + k;
      assert line + Data() == data;
      if |line| > 0 { lastByte := line[|line| - 1]; }
      out := out + line;
      Assoc(was, line, Data());
      Assoc(line, Data(), rd.rest);
    }

    /** Hand out as much of the buffered data as p can take. */
    method CopyOut(p: array<Byte>) returns (n: nat)
      requires Valid() && p != buf && r < w && p.Length > 0
      modifies this`r, this`lastByte, this`out, p
      ensures Valid() && n == Min(p.Length, old(w - r)) && r > 0 && lastByte == p[n - 1]
      ensures out == old(out) + p[..n] && p[..n] + Pending() == old(Pending())
    {
      n := if w - r < p.Length then w - r else p.Length;
      ghost var data := Data();
      Front(buf[..], r, w, n);
      CopyDown(p, buf, r, n);
      assert p[..n] == data[..n] && Data() == data;
      var line := HandOut(n);
      assert p[n - 1] == p[..n][n - 1] == line[n - 1];
    }

    /** One underlying read into the empty buffer. */
    method Refill() returns (n: nat)
      requires Valid() && r == w && err.None?
      modifies this`r, this`w, this`err, rd, buf
      ensures Valid() && n == w - r && Pending() == old(Pending())
      ensures rd.plan == Tail(old(rd.plan)) && n == |rd.given| - |old(rd.given)|
      ensures n == 0 && err.None? && GivesNext(old(rd.plan)) ==> EmptyNext(old(rd.plan))
      ensures GlitchNext(old(rd.plan)) ==> err == Some(old(rd.plan)[0].err)
      ensures old(Healthy()) ==> Healthy()
    {
      assert Data() == [];
      r, w := 0, 0;
      assert Data() == [];
      ghost var more := rd.rest;
      var e: Option<Error>;
      n, e := ReadChunk();
      assert [] + more[..n] + more[n..] == [] + more;
      err := e;
    }

    /** What one Read that has to ask the reader under it does with the answer: with the error too if p took it all or there is nothing else. */
    twostate predicate Asked(p: array<Byte>, n: nat, new e: Option<Error>)
      reads this, rd, p
    {
      var direct := p.Length >= buf.Length;
      rd.plan == Tail(old(rd.plan)) && |old(rd.given)| <= |rd.given| &&
      n == Min(p.Length, |rd.given| - |old(rd.given)|) &&
      (direct || n == 0 ==> err.None?) && (!direct && n > 0 ==> e.None?) &&
      (n == 0 && e.None? && GivesNext(old(rd.plan)) ==> EmptyNext(old(rd.plan))) &&
      (GlitchNext(old(rd.plan)) ==> (if direct || n == 0 then e else err) == Some(old(rd.plan)[0].err))
    }

    /**
     * Read into the whole of p, which is not the reader's own buffer. It hands out
     * as much as p takes of what is buffered; if nothing is, the error that has
     * been kept, or what one underlying read brings.
     */
    method Read(p: array<Byte>) returns (n: nat, e: Option<Error>)
      requires Valid() && p != buf
      modifies this, rd, buf, p
      ensures Valid() && n <= p.Length
      ensures out == old(out) + p[..n] && p[..n] + Pending() == old(Pending())
      ensures p.Length == 0 || old(r < w || err.Some?) ==> rd.plan == old(rd.plan) && rd.given == old(rd.given)
      ensures p.Length == 0 ==> e == (if old(r < w) then None else old(err)) && err == (if old(r < w) then old(err) else None)
      ensures p.Length > 0 && old(r < w) ==> n == Min(p.Length, old(w - r)) && e.None? && err == old(err)
      ensures p.Length > 0 && old(r == w && err.Some?) ==> n == 0 && e == old(err) && err.None?
      ensures p.Length > 0 && old(r == w && err.None?) ==> Asked(p, n, e)
      ensures n > 0 ==> lastByte == p[n - 1] && (r > 0 || w == 0)
      ensures n == 0 ==> lastByte == old(lastByte)
      ensures old(Healthy()) ==> Healthy() && (n == 0 && p.Length > 0 && e.Some? ==> Pending() == [] && e == Some(rd.final))
      ensures old(Healthy() && Pending() != []) && p.Length > 0 && n == 0 && e.None? ==> EmptyNext(old(rd.plan))
    {
      n, e := 0, None;
      Nothing(out, p[..0], Pending());
      if p.Length == 0 {
        if w - r > 0 { return; }
        e := ReadErr();
        return;
      }
      if r == w {
        assert Data() == [];
        if err.Some? {
          e := ReadErr();
          return;
        }
        var done;
        done, n, e := Ask(p);
        if done { return; }
      }
      n := CopyOut(p);
    }

    /** The one underlying read: straight into p if that is large, else into the buffer, from which there may be something to copy. */
    method Ask(p: array<Byte>) returns (done: bool, n: nat, e: Option<Error>)
      requires Valid() && p != buf && p.Length > 0 && r == w && err.None?
      modifies this, rd, buf, p
      ensures Valid() && n <= p.Length && out == old(out) + p[..n] && p[..n] + Pending() == old(Pending())
      ensures done ==> Asked(p, n, e) && lastByte == NewLast(old(lastByte), p[..n]) && r == w
      ensures !done ==>
        n == 0 && e.None? && r < w && w - r == |rd.given| - |old(rd.given)| && lastByte == old(lastByte) && p.Length < buf.Length &&
        rd.plan == Tail(old(rd.plan)) && (GlitchNext(old(rd.plan)) ==> err == Some(old(rd.plan)[0].err))
      ensures old(Healthy()) ==> Healthy() && (n == 0 && e.Some? ==> Pending() == [] && e == Some(rd.final))
    {
      done, e := true, None;
      if p.Length >= buf.Length {
        n, e := ReadDirect(p);
        return;
      }
      n := Refill();
      Nothing(out, p[..0], Pending());
      if n == 0 {
        assert Data() == [];
        e := ReadErr();
        return;
      }
      return false, 0, None;
    }

    method ReadByte() returns (c: Byte, e: Option<Error>)
      requires Valid()
      modifies this`r, this`w, this`err, this`lastByte, this`out, rd, buf
      ensures Valid()
      ensures e.None? ==> out == old(out) + [c] && [c] + Pending() == old(Pending()) && lastByte == c && r > 0
      ensures e.Some? ==> out == old(out) && Data() == [] && Pending() == old(Pending()) && lastByte == old(lastByte) && err.None?
      ensures old(r < w) ==> e.None? && rd.plan == old(rd.plan) && err == old(err)
      ensures old(r == w && err.Some?) ==> e == old(err) && rd.plan == old(rd.plan)
      ensures old(Healthy()) ==> Healthy() && (e.Some? <==> old(Pending()) == []) && (e.Some? ==> e == Some(rd.final))
    {
      while r == w
        invariant Valid() && Pending() == old(Pending()) && out == old(out) && lastByte == old(lastByte)
        invariant old(r < w || err.Some?) ==> r == old(r) && w == old(w) && rd.plan == old(rd.plan) && err == old(err)
        invariant old(Healthy()) ==> Healthy()
        decreases err.None?, r == w
      {
        if err.Some? {
          assert Data() == [];
          e := ReadErr();
          return 0, e;
        }
        Fill();
      }
      ghost var data := Data();
      c := buf[r];
      r := r + 1;
      lastByte := c;
      assert data == [c] + Data();
      Assoc(out, [c], Data());
      Assoc([c], Data(), rd.rest);
      out := out + [c];
      e := None;
    }

    method UnreadByte() returns (e: Option<Error>)
      requires Valid()
      modifies this`r, this`w, this`lastByte, this`out, buf
      ensures Valid() && lastByte == if e.None? then -1 else old(lastByte)
      ensures e.Some? <==> old(lastByte) < 0 || (old(r) == 0 && old(w) > 0)
      ensures e.None? ==> old(out) != [] && out == old(out)[..|old(out)| - 1] && Data() == [old(out)[|old(out)| - 1]] + old(Data())
      ensures e.Some? ==> out == old(out) && Data() == old(Data()) && e == Some(InvalidUnread)
    {
      if lastByte < 0 || (r == 0 && w > 0) { return Some(InvalidUnread); }
      ghost var data := Data();
      if r > 0 {
        r := r - 1;
      } else {
        w := 1;
      }
      buf[r] := lastByte;
      assert Data() == [buf[r]] + data;
      out := out[..|out| - 1];
      assert old(out) == out + [buf[r]];
      Assoc(out, [buf[r]], data);
      lastByte := -1;
      e := None;
    }

    /** Search the data from s on, what is before having been searched already. */
    method Find(delim: Byte, s: nat) returns (i: int)
      requires Valid() && s <= w - r && delim !in Data()[..s]
      ensures i == -1 ==> delim !in Data()
      ensures i != -1 ==> 0 <= i < w - r && Data()[i] == delim && delim !in Data()[..i]
    {
      i := Index(buf[r + s..w], [delim]);
      assert buf[r + s..w] == Data()[s..];
      SearchRest(Data(), s, delim);
      if i >= 0 { i := i + s; }
    }

    /** ReadSlice's loop: how many of the buffered bytes to hand out, and with what error. */
    method Decide(delim: Byte) returns (k: nat, e: Option<Error>)
      requires Valid()
      modifies this`r, this`w, this`err, rd, buf
      ensures Valid() && Pending() == old(Pending()) && k <= w - r && Ends(Data()[..k], delim, e)
      ensures e.Some? ==> k == w - r && if e == Some(BufferFull) then k == buf.Length else err.None?
      ensures delim in old(Data()) ==> e.None? && rd.plan == old(rd.plan) && err == old(err)
      ensures old(Healthy()) ==> Healthy() && (e.Some? && e != Some(BufferFull) ==> rd.rest == [] && e == Some(rd.final))
    {
      var s: nat := 0;
      while true
        invariant Valid() && Pending() == old(Pending())
        invariant s <= w - r && delim !in Data()[..s]
        invariant delim in old(Data()) ==> Data() == old(Data()) && rd.plan == old(rd.plan) && err == old(err)
        invariant old(Healthy()) ==> Healthy()
        decreases err.None?, buf.Length - (w - r)
      {
        var i := Find(delim, s);
        if i >= 0 {
          assert Data()[..i + 1][..i] == Data()[..i];
          return i + 1, None;
        }
        assert Data()[..w - r] == Data();
        if err.Some? {
          e := ReadErr();
          return w - r, e;
        }
        if w - r >= buf.Length { return w - r, Some(BufferFull); }
        ghost var data := Data();
        s := w - r;
        Fill();
        assert Data()[..s] == data;
      }
    }

    /** ReadSlice: through the first delim, or all that is buffered with the reason why there is no more. */
    method ReadSlice(delim: Byte) returns (line: Bytes, e: Option<Error>)
      requires Valid()
      modifies this`r, this`w, this`err, this`lastByte, this`out, rd, buf
      ensures Valid() && out == old(out) + line && line + Pending() == old(Pending()) && Ends(line, delim, e)
      ensures e.Some? ==> Data() == [] && if e == Some(BufferFull) then |line| == buf.Length else err.None?
      ensures lastByte == NewLast(old(lastByte), line) && (line != [] ==> r > 0)
      ensures delim in old(Data()) ==> e.None? && rd.plan == old(rd.plan) && err == old(err)
      ensures old(Healthy()) ==> Healthy() && (e.Some? && e != Some(BufferFull) ==> Pending() == [] && e == Some(rd.final))
    {
      var k;
      k, e := Decide(delim);
      line := HandOut(k);
    }

    /** collectFragments: the full buffers before the last piece, and that piece. */
    method CollectFragments(delim: Byte) returns (fullBuffers: seq<Bytes>, finalFragment: Bytes, totalLen: nat, e: Option<Error>)
      requires Valid()
      modifies this`r, this`w, this`err, this`lastByte, this`out, rd, buf
      ensures var line := Concat(fullBuffers) + finalFragment;
              Valid() && |line| == totalLen && out == old(out) + line && line + Pending() == old(Pending()) &&
              Ends(line, delim, e) && (e.Some? ==> Data() == [] && e != Some(BufferFull) && err.None?) &&
              lastByte == NewLast(old(lastByte), line) &&
              (old(Healthy()) ==> Healthy() && (e.Some? ==> Pending() == [] && e == Some(rd.final)))
    {
      fullBuffers, totalLen := [], 0;
      Nothing(out, Concat([]), Pending());
      while true
        invariant Valid() && totalLen == |Concat(fullBuffers)| && delim !in Concat(fullBuffers)
        invariant out == old(out) + Concat(fullBuffers) && Concat(fullBuffers) + Pending() == old(Pending())
        invariant lastByte == NewLast(old(lastByte), Concat(fullBuffers))
        invariant old(Healthy()) ==> Healthy()
        decreases |Pending()|
      {
        ghost var before := Concat(fullBuffers);
        finalFragment, e := ReadSlice(delim);
        Assoc(old(out), before, finalFragment);
        Assoc(before, finalFragment, Pending());
        EndsLater(before, finalFragment, delim, e);
        if e != Some(BufferFull) { break; }
        ConcatAppend(fullBuffers, finalFragment);
        fullBuffers := fullBuffers + [finalFragment];
        totalLen := totalLen + |finalFragment|;
      }
      totalLen := totalLen + |finalFragment|;
    }

    /**
     * ReadBytes: the stream through the first delim, whatever the size of the
     * buffer and however the reader delivers; or all of it, and the reason it ended.
     */
    method ReadBytes(delim: Byte) returns (line: Bytes, e: Option<Error>)
      requires Valid()
      modifies this`r, this`w, this`err, this`lastByte, this`out, rd, buf
      ensures Valid() && out == old(out) + line && line + Pending() == old(Pending())
      ensures Ends(line, delim, e) && (e.Some? ==> Data() == [] && e != Some(BufferFull) && err.None?)
      ensures lastByte == NewLast(old(lastByte), line)
      ensures old(Healthy()) ==> Healthy() && (line, e) == ThroughFirst(old(Pending()), delim, rd.final)
    {
      var full, frag, n;
      full, frag, n, e := CollectFragments(delim);
      line := Paste(full, frag, n);
      if old(Healthy()) { IsThroughFirst(line, Pending(), delim, e, rd.final); }
    }

  }

  /** The first n of the buffered bytes and the others. */
  lemma Front(all: Bytes, r: nat, w: nat, n: nat)
    requires r + n <= w <= |all|
    ensures all[r..r + n] == all[r..w][..n] && all[r + n..w] == all[r..w][n..]
    ensures all[r..r + n] + all[r + n..w] == all[r..w]
    ensures n > 0 ==> all[r..r + n][n - 1] == all[r + n - 1]
  {
  }

  lemma DirectTaken(p: Bytes, n: nat, more: Bytes)
    requires n <= |p| && n <= |more| && p[0..0 + n] == more[..n]
    ensures p[..n] == more[..n] && p[..n] + ([] + more[n..]) == [] + more
  {
    assert p[0..0 + n] == p[..n];
    assert [] + more[n..] == more[n..] && [] + more == more && more[..n] + more[n..] == more;
  }

  /** Searching what has not been searched before finds the first delim of all the data. */
  lemma SearchRest(data: Bytes, s: nat, delim: Byte)
    requires s <= |data| && delim !in data[..s]
    ensures var i := Index(data[s..], [delim]);
            if i == -1 then delim !in data else s + i < |data| && data[s + i] == delim && delim !in data[..s + i]
  {
    var rest := data[s..];
    var i := Index(rest, [delim]);
    ByteIndex(rest, delim);
    assert data == data[..s] + rest;
    if i != -1 {
      assert rest[i..i + 1][0] == rest[i];
      assert data[..s + i] == data[..s] + rest[..i];
    }
  }

  /** err == nil if and only if the line ends in delim, its only one. */
  ghost predicate Ends(line: Bytes, delim: Byte, e: Option<Error>)
  {
    if e.None? then line != [] && line[|line| - 1] == delim && delim !in line[..|line| - 1] else delim !in line
  }

  lemma EndsLater(before: Bytes, frag: Bytes, delim: Byte, e: Option<Error>)
    requires delim !in before && Ends(frag, delim, e)
    ensures Ends(before + frag, delim, e)
  {
    if e.None? { assert (before + frag)[..|before + frag| - 1] == before + frag[..|frag| - 1]; }
  }

  /** The stream p through its first delim, or all of it with the final error. */
  function ThroughFirst(p: Bytes, delim: Byte, final: Error): (Bytes, Option<Error>)
  {
    var i := Index(p, [delim]);
    if i == -1 then (p, Some(final)) else (p[..i + 1], None)
  }

  lemma IsThroughFirst(line: Bytes, rest: Bytes, delim: Byte, e: Option<Error>, final: Error)
    requires Ends(line, delim, e) && (e.Some? ==> rest == [] && e == Some(final))
    ensures ThroughFirst(line + rest, delim, final) == (line, e)
  {
    if e.Some? {
      assert line + rest == line;
      ByteIndex(line, delim);
    } else {
      var head := line[..|line| - 1];
      assert line == head + [delim];
      Assoc(head, [delim], rest);
      IndexAfter(head, [delim], rest);
    }
  }

  /** Copy full pieces and fragment into one new buffer of n bytes. */
  method Paste(full: seq<Bytes>, frag: Bytes, total: nat) returns (bytes: Bytes)
    requires total == |Concat(full) + frag|
    ensures bytes == Concat(full) + frag
  {
    var buf := new Byte[total];
    var n: nat := 0;
    assert full[..0] == [] && full[..|full|] == full;
    for i := 0 to |full|
      invariant n <= total && buf[..n] == Concat(full[..i]) && n + |Concat(full[i..])| + |frag| == total
    {
      assert full[i..] == [full[i]] + full[i + 1..];
      assert full[..i + 1] == full[..i] + [full[i]];
      ConcatAppend(full[..i], full[i]);
      n := Copy(buf, n, full[i]);
    }
    assert full[|full|..] == [];
    n := Copy(buf, n, frag);
    assert buf[..n] == buf[..];
    return buf[..];
  }

  datatype Op = ReadOp(size: nat) | ReadByteOp | UnreadByteOp | PeekOp(n: int) | ReadSliceOp(delim: Byte) | ReadBytesOp(delim: Byte)

  /**
   * Any sequence of operations: the bytes that the calls returned, less those
   * unread, followed by what is buffered, are exactly the bytes taken from the
   * reader.
   */
  method Drive(b: Reader, ops: seq<Op>) returns (net: Bytes)
    requires b.Valid() && b.out == []
    modifies b, b.rd, b.buf
    ensures b.Valid() && net + b.Data() == b.rd.given
  {
    net := [];
    for i := 0 to |ops|
      invariant b.Valid() && net == b.out
    {
      match ops[i]
      case ReadOp(size) =>
        var p := new Byte[size];
        var n, e := b.Read(p);
        net := net + p[..n];
      case ReadByteOp =>
        var c, e := b.ReadByte();
        if e.None? { net := net + [c]; }
      case UnreadByteOp =>
        var e := b.UnreadByte();
        if e.None? { net := net[..|net| - 1]; }
      case PeekOp(n) =>
        var bytes, e := b.Peek(n);
      case ReadSliceOp(delim) =>
        var line, e := b.ReadSlice(delim);
        net := net + line;
      case ReadBytesOp(delim) =>
        var line, e := b.ReadBytes(delim);
        net := net + line;
    }
  }

  lemma Nothing(a: Bytes, none: Bytes, b: Bytes)
    requires none == []
    ensures a + none == a && none + b == b
  {
  }
}
