/** The last writer wins: what a file holds after a run is what its history says. */
module History {
  import opened Base
  import opened FileModel
  import opened VfsModel
  import opened VfsRuns

  /** What happened to a file: a successful write, or a truncate call. */
  datatype Event = Written(offset: nat, data: seq<byte>) | Cut(size: int)

  /** The event, if any, that a call causes for the file `id`. */
  ghost function EventOf<H>(env: Env, w: World<H>, op: Op<H>, id: nat): seq<Event>
    requires Consistent(w) && Enabled(w, op)
  {
    if !Through(w, op, id) then []
    else
      match op
      case Write(h, data, amt, ofst) =>
        if 0 <= ofst && 0 <= amt && Step(env, w, op).1.rc == SQLITE_OK then [Written(ofst, data[..amt])] else []
      case Truncate(h, size) => [Cut(size)]
      case _ => []
  }

  ghost function Events<H>(env: Env, w: World<H>, ops: seq<Op<H>>, id: nat): seq<Event>
    requires Consistent(w) && Runnable(env, w, ops)
    decreases |ops|
  {
    if ops == [] then []
    else
      StepConsistent(env, w, ops[0]);
      EventOf(env, w, ops[0], id) + Events(env, Step(env, w, ops[0]).0, ops[1..], id)
  }

  predicate Covers(e: Event, p: nat) {
    e.Written? && e.offset <= p < e.offset + |e.data|
  }

  /** The byte of the most recent write that covers position p. */
  function LastByte(events: seq<Event>, p: nat): Option<byte> {
    if events == [] then None
    else
      var e := events[|events| - 1];
      if Covers(e, p) then Some(e.data[p - e.offset]) else LastByte(events[..|events| - 1], p)
  }

  /** The length: a write sets it to its end, a truncate only lowers it. */
  function LengthAfter(len: int, events: seq<Event>): int {
    if events == [] then len
    else
      var before := LengthAfter(len, events[..|events| - 1]);
      match events[|events| - 1]
      case Written(offset, data) => offset + |data|
      case Cut(size) => if size < before then size else before
  }

  /** `g` is what the history `events` makes of the file `f`. */
  ghost predicate Follows(f: File, events: seq<Event>, g: File) {
    && g.len == LengthAfter(f.len, events)
    && |f.buf| <= |g.buf|
    && (forall p: nat :: LastByte(events, p).Some? ==> p < |g.buf| && g.buf[p] == LastByte(events, p).value)
    && (forall p: nat :: LastByte(events, p) == None && p < |f.buf| ==> g.buf[p] == f.buf[p])
  }

  lemma {:induction false} LastByteConcat(a: seq<Event>, b: seq<Event>, p: nat)
    ensures LastByte(a + b, p) == if LastByte(b, p).Some? then LastByte(b, p) else LastByte(a, p)
  {
    if b == [] {
      assert a + b == a;
    } else {
      assert (a + b)[..|a + b| - 1] == a + b[..|b| - 1];
      LastByteConcat(a, b[..|b| - 1], p);
    }
  }

  lemma {:induction false} LengthConcat(len: int, a: seq<Event>, b: seq<Event>)
    ensures LengthAfter(len, a + b) == LengthAfter(LengthAfter(len, a), b)
  {
    if b == [] {
      assert a + b == a;
    } else {
      assert (a + b)[..|a + b| - 1] == a + b[..|b| - 1];
      LengthConcat(len, a, b[..|b| - 1]);
    }
  }

  lemma FollowsTrans(f: File, a: seq<Event>, g: File, b: seq<Event>, h: File)
    requires Follows(f, a, g) && Follows(g, b, h)
    ensures Follows(f, a + b, h)
  {
    LengthConcat(f.len, a, b);
    forall p: nat
      ensures LastByte(a + b, p).Some? ==> p < |h.buf| && h.buf[p] == LastByte(a + b, p).value
      ensures LastByte(a + b, p) == None && p < |f.buf| ==> h.buf[p] == f.buf[p]
    {
      LastByteConcat(a, b, p);
    }
  }

  lemma StepFollows<H>(env: Env, w: World<H>, op: Op<H>, id: nat)
    requires Consistent(w) && Enabled(w, op)
    requires Linked(w.fs, id) && Linked(Step(env, w, op).0.fs, id)
    ensures Follows(Get(w.fs, id), EventOf(env, w, op, id), Get(Step(env, w, op).0.fs, id))
  {
    StepContent(env, w, op, id);
    if IsInput(op) && Through(w, op, id) {
      InputContent(env, w, op, id);
      match op
      case Write(h, data, amt, ofst) => WriteFollows(env, w.fs, id, ofst, amt, data);
      case FileControl(h, _, arg) => HintFollows(env, w.fs, Loc(w.fs.files, id), arg);
      case _ =>
    }
  }

  lemma WriteFollows(env: Env, s: State, id: nat, offset: int, len: int, data: seq<byte>)
    requires Linked(s, id) && len <= |data|
    ensures var (t, n) := WriteFile(env, s, id, offset, len, data);
      var k := Loc(s.files, id);
      && k < |t.files|
      && Follows(s.files[k], if 0 <= offset && 0 <= len && n == len then [Written(offset, data[..len])] else [], t.files[k])
  {
    var (t, n) := WriteFile(env, s, id, offset, len, data);
    WriteEffect(env, s, id, offset, len, data);
    if n != -1 {
      WrittenFollows(Get(s, id), Written(offset, data[..len]), t.files[Loc(s.files, id)]);
    }
  }

  lemma HintFollows(env: Env, s: State, k: nat, sz: int)
    requires k < |s.files|
    ensures var t := Grow(env, s, k, sz).0; k < |t.files| && Follows(s.files[k], [], t.files[k])
  {
    GrowEffect(env, s, k, sz);
  }

  lemma WrittenFollows(f: File, e: Event, g: File)
    requires e.Written? && g.len == e.offset + |e.data| <= |g.buf| && |f.buf| <= |g.buf|
    requires forall p :: e.offset <= p < e.offset + |e.data| ==> g.buf[p] == e.data[p - e.offset]
    requires forall p :: 0 <= p < |f.buf| && !(e.offset <= p < e.offset + |e.data|) ==> g.buf[p] == f.buf[p]
    ensures Follows(f, [e], g)
  {
  }

  /** After any run of calls, on any number of handles and files, with any pattern of
      allocation failures, a file's bytes and length are the ones its history determines:
      the last successful write wins, growing and hinting move no byte, and truncation
      touches no byte. */
  lemma {:induction false} RunFollows<H>(env: Env, w: World<H>, ops: seq<Op<H>>, id: nat)
    requires Consistent(w) && Runnable(env, w, ops)
    requires Linked(w.fs, id) && Linked(Run(env, w, ops).0.fs, id)
    ensures Follows(Get(w.fs, id), Events(env, w, ops, id), Get(Run(env, w, ops).0.fs, id))
    decreases |ops|
  {
    if ops != [] {
      StepConsistent(env, w, ops[0]);
      var v := Step(env, w, ops[0]).0;
      StepContent(env, w, ops[0], id);
      if !Linked(v.fs, id) {
        var i := Loc(w.fs.files, id);
        assert w.fs.files[i].id < w.fs.nextId;
        GoneForGood(env, v, ops[1..], id);
      }
      StepFollows(env, w, ops[0], id);
      RunFollows(env, v, ops[1..], id);
      FollowsTrans(Get(w.fs, id), EventOf(env, w, ops[0], id), Get(v.fs, id),
                   Events(env, v, ops[1..], id), Get(Run(env, w, ops).0.fs, id));
    }
  }

  /** A file's length and written bytes, from its creation on. */
  lemma FollowsSinceCreation<H>(env: Env, w: World<H>, h: H, name: seq<byte>, flags: bv32, ops: seq<Op<H>>)
    requires Consistent(w) && Runnable(env, w, [Open(h, name, flags)] + ops) && Find(w.fs.files, name) == |w.fs.files|
    requires Step(env, w, Open(h, name, flags)).1.rc == SQLITE_OK
    requires Linked(Run(env, w, [Open(h, name, flags)] + ops).0.fs, w.fs.nextId)
    ensures var run, id := [Open(h, name, flags)] + ops, w.fs.nextId;
      var f, events := Get(Run(env, w, run).0.fs, id), Events(env, w, run, id);
      && f.len == LengthAfter(0, events)
      && forall p: nat :: LastByte(events, p).Some? ==> p < |f.buf| && f.buf[p] == LastByte(events, p).value
  {
    var op, id := Open(h, name, flags), w.fs.nextId;
    var run := [op] + ops;
    assert run[1..] == ops && run[0] == op;
    Created(env, w, h, name, flags);
    var v := Step(env, w, op).0;
    RunFollows(env, v, ops, id);
    assert Events(env, w, run, id) == Events(env, v, ops, id);
  }

  /** No write follows the write at position j. */
  predicate LastWrite(events: seq<Event>, j: nat) {
    j < |events| && events[j].Written? && forall i :: j < i < |events| ==> events[i].Cut?
  }

  function End(e: Event): int
    requires e.Written?
  {
    e.offset + |e.data|
  }

  /** The length is the least of the last write's end and all later truncate sizes. */
  lemma {:induction false} LengthIsLeast(len: int, events: seq<Event>, j: nat)
    requires LastWrite(events, j)
    ensures var r := LengthAfter(len, events);
      && r <= End(events[j]) && (forall i :: j < i < |events| ==> r <= events[i].size)
      && (r == End(events[j]) || exists i :: j < i < |events| && r == events[i].size)
  {
    if j < |events| - 1 {
      var init := events[..|events| - 1];
      assert events[|events| - 1].Cut?;
      LengthIsLeast(len, init, j);
      var r := LengthAfter(len, init);
      if r != End(events[j]) {
        var i :| j < i < |init| && r == init[i].size;
        assert events[i] == init[i];
      }
    }
  }

  /** What `cRead` stores for an offset inside the file: the file's bytes, then zeros. */
  lemma ReadIsSlice(f: File, amt: nat, ofst: nat)
    requires f.len <= |f.buf| && amt <= INT_MAX && ofst <= f.len
    ensures ReadInBuffer(f, amt, ofst)
    ensures var r := ReadReply(f, amt, ofst);
      && r == Bytes(if ofst + amt <= f.len then SQLITE_OK else SQLITE_IOERR_SHORT_READ, r.data)
      && |r.data| == amt
      && forall i :: 0 <= i < amt ==> r.data[i] == if ofst + i < f.len then f.buf[ofst + i] else 0
  {
    CountInside(f.len, ofst, amt);
  }

  /** The narrowed count of `fs_read`, by the distance from the end of the file. */
  lemma CountPastEnd(size: int, ofst: nat, amt: nat)
    requires size < ofst && amt <= INT_MAX
    ensures var n, d := Count(size, ofst, amt), (ofst - size) % 0x1_0000_0000;
      && (n == 0 <==> d == 0) && (n == -1 <==> d == 1)
      && (n < -1 <==> 2 <= d <= 0x8000_0000) && n == if d <= 0x8000_0000 then -d else 0x1_0000_0000 - d
  {
  }

  /** `cRead` stays inside the caller's buffer and the file's exactly for negative arguments, for
      offsets up to one past the end, and for those that far past it that the narrowing to an
      `int` makes the count 0, -1 or one that both buffers have room for. The last case needs a
      file that was truncated to a negative length. */
  lemma ReadInBufferExactly(f: File, amt: int, ofst: int)
    requires f.len <= |f.buf| <= INT_MAX && amt <= INT_MAX
    ensures var d := (ofst - f.len) % 0x1_0000_0000;
      && (ReadInBuffer(f, amt, ofst) <==>
            || amt < 0 || ofst < 0 || ofst <= f.len || d <= 1
            || (0x8000_0000 < d && 0x1_0000_0000 - d <= amt && ofst + 0x1_0000_0000 - d <= |f.buf|))
      && (0 <= f.len ==> (ReadInBuffer(f, amt, ofst) <==> amt < 0 || ofst < 0 || ofst <= f.len || d <= 1))
  {
    if 0 <= amt && 0 <= ofst {
      if ofst <= f.len {
        CountInside(f.len, ofst, amt);
      } else {
        CountPastEnd(f.len, ofst, amt);
        if 0 <= f.len && 0x8000_0000 < (ofst - f.len) % 0x1_0000_0000 {
          FarPastEnd(f.len, ofst);
        }
      }
    }
  }

  /** A distance that wraps around to a positive count is longer than any buffer. */
  lemma FarPastEnd(size: nat, ofst: int)
    requires size < ofst && 0x8000_0000 < (ofst - size) % 0x1_0000_0000
    ensures INT_MAX < ofst
  {
  }

  /** A read that stays inside the buffers returns bytes exactly for arguments that are not
      negative and an offset that is not one past the end, modulo 2^32: there `cRead` reports an
      error instead of the short read that SQLite expects. */
  lemma ReadRepliesExactly(f: File, amt: int, ofst: int)
    requires amt <= INT_MAX && ReadInBuffer(f, amt, ofst)
    ensures ReadReply(f, amt, ofst).Bytes? <==>
      0 <= amt && 0 <= ofst && (ofst <= f.len || (ofst - f.len) % 0x1_0000_0000 != 1)
  {
    if 0 <= amt && 0 <= ofst {
      if ofst <= f.len {
        CountInside(f.len, ofst, amt);
      } else {
        CountPastEnd(f.len, ofst, amt);
      }
    }
  }

  /** The bytes of a reply: as many of the file as the count says, from the offset on, then
      zeros; it is a short read exactly when the count is below the amount. */
  lemma ReplyExactly(f: File, amt: int, ofst: int)
    requires ReadInBuffer(f, amt, ofst) && ReadReply(f, amt, ofst).Bytes? && amt <= INT_MAX
    ensures var n := ToInt32((if ofst + amt > f.len then f.len else ofst + amt) - ofst);
      var r := ReadReply(f, amt, ofst);
      && 0 <= n <= amt == |r.data| && r.rc == (if n < amt then 522 else 0)
      && forall i :: 0 <= i < amt ==> r.data[i] == if i < n then f.buf[ofst + i] else 0
  {
  }

  /** A read after any run gives back, at each position inside the file that some write of
      the run covered, the byte of the last successful write that covered it. */
  lemma ReadReturnsLastWrite<H>(env: Env, w: World<H>, ops: seq<Op<H>>, h: H, amt: nat, ofst: nat, i: nat)
    requires Consistent(w) && Runnable(env, w, ops)
    requires var v := Run(env, w, ops).0;
      && Enabled(v, Read(h, amt, ofst)) && Linked(w.fs, v.handles[h])
      && i < amt && ofst + i < FileOf(v, h).len
      && LastByte(Events(env, w, ops, v.handles[h]), ofst + i).Some?
    ensures var v := Run(env, w, ops).0;
      var reply := (RunConsistent(env, w, ops); Step(env, v, Read(h, amt, ofst)).1);
      && reply.Bytes? && |reply.data| == amt
      && reply.data[i] == LastByte(Events(env, w, ops, v.handles[h]), ofst + i).value
  {
    var v := Run(env, w, ops).0;
    RunFollows(env, w, ops, v.handles[h]);
    RunConsistent(env, w, ops);
    ReadIsSlice(FileOf(v, h), amt, ofst);
  }

  /** The file after a successful write, seen through any handle on it. */
  lemma WriteLands<H>(env: Env, w: World<H>, h: H, data: seq<byte>, amt: nat, ofst: nat, g: H)
    requires Consistent(w) && Enabled(w, Write(h, data, amt, ofst))
    requires g in w.handles && w.handles[g] == w.handles[h]
    requires Step(env, w, Write(h, data, amt, ofst)).1.rc == SQLITE_OK
    ensures var v := Step(env, w, Write(h, data, amt, ofst)).0;
      && Consistent(v) && IsOpen(v, g)
      && var f := FileOf(v, g);
      f.len == ofst + amt <= |f.buf| <= INT_MAX && f.buf[ofst..ofst + amt] == data[..amt]
  {
    var id := w.handles[h];
    var k := Loc(w.fs.files, id);
    var (t, n) := WriteFile(env, w.fs, id, ofst, amt, data);
    WriteStepAt(env, w, h, data, amt, ofst, t, n);
    WriteEffect(env, w.fs, id, ofst, amt, data);
    LocIs(t, k, id);
    assert FileOk(t.files[k]);
  }

  /** A successful write is read back, through any handle on the same file. */
  lemma WriteThenRead<H>(env: Env, w: World<H>, h: H, data: seq<byte>, amt: nat, ofst: nat, g: H)
    requires Consistent(w) && Enabled(w, Write(h, data, amt, ofst))
    requires g in w.handles && w.handles[g] == w.handles[h]
    requires Step(env, w, Write(h, data, amt, ofst)).1.rc == SQLITE_OK
    ensures var v := Step(env, w, Write(h, data, amt, ofst)).0;
      && Consistent(v) && Enabled(v, Read(g, amt, ofst))
      && Step(env, v, Read(g, amt, ofst)) == (v, Bytes(SQLITE_OK, data[..amt]))
  {
    WriteLands(env, w, h, data, amt, ofst, g);
    var f := FileOf(Step(env, w, Write(h, data, amt, ofst)).0, g);
    ReadIsSlice(f, amt, ofst);
    assert ReadReply(f, amt, ofst).data == f.buf[ofst..ofst + amt];
  }

  /** A successful write leaves every byte of the file readable exactly when it does not end
      before the file does: the length becomes the end of the write. */
  lemma WriteShortensExactly<H>(env: Env, w: World<H>, h: H, data: seq<byte>, amt: nat, ofst: nat)
    requires Consistent(w) && Enabled(w, Write(h, data, amt, ofst))
    requires Step(env, w, Write(h, data, amt, ofst)).1.rc == SQLITE_OK
    ensures var v := Step(env, w, Write(h, data, amt, ofst)).0;
      && IsOpen(v, h) && (FileOf(v, h).len >= FileOf(w, h).len <==> ofst + amt >= FileOf(w, h).len)
  {
    var op, id := Write(h, data, amt, ofst), w.handles[h];
    InputContent(env, w, op, id);
    InputStep(env, w, op);
    StepFollows(env, w, op, id);
    assert EventOf(env, w, op, id) == [Written(ofst, data[..amt])];
  }
}
