/** Amortised cost of buffer growth over runs. */
module Growth {
  import opened Base
  import opened FileModel
  import opened VfsModel
  import opened VfsRuns

  /** The room a call asks for in the file `id`. */
  function Request<H>(w: World<H>, op: Op<H>, id: nat): int {
    if !Through(w, op, id) then 0
    else
      match op
      case Write(_, _, amt, ofst) => if 0 <= amt && 0 <= ofst then ofst + amt else 0
      case FileControl(_, code, arg) => if code == SQLITE_FCNTL_SIZE_HINT then arg else 0
      case _ => 0
  }

  /** The bytes that the allocator copies in a call through a handle on the file. */
  ghost function CopiedBy<H>(env: Env, w: World<H>, op: Op<H>, id: nat): int
    requires Consistent(w) && Enabled(w, op)
  {
    if Through(w, op, id) then Step(env, w, op).0.fs.copied - w.fs.copied else 0
  }

  /** All bytes copied for the file. */
  ghost function Copied<H>(env: Env, w: World<H>, ops: seq<Op<H>>, id: nat): int
    requires Consistent(w) && Runnable(env, w, ops)
    decreases |ops|
  {
    if ops == [] then 0
    else
      StepConsistent(env, w, ops[0]);
      CopiedBy(env, w, ops[0], id) + Copied(env, Step(env, w, ops[0]).0, ops[1..], id)
  }

  lemma OpenCopiesNothing<H>(env: Env, w: World<H>, h: H, name: seq<byte>, flags: bv32)
    ensures OpenStep(env, w, h, name, flags).0.fs.copied == w.fs.copied
  {
    var (t, k) := FindOrAlloc(env, w.fs, name);
    if k.Some? {
      OpenAt(env, w.fs, name, t, k.value);
    }
  }

  /** Nothing is copied but for the file behind the handle of the call. */
  lemma CopiesForOne<H>(env: Env, w: World<H>, op: Op<H>)
    requires Consistent(w) && Enabled(w, op)
    ensures var v := Step(env, w, op).0;
      && w.fs.copied <= v.fs.copied
      && (w.fs.copied < v.fs.copied ==>
            (op.Write? || op.FileControl?) && v.fs.copied - w.fs.copied == |Get(w.fs, w.handles[op.h]).buf|)
  {
    match op
    case Open(h, name, flags) => OpenCopiesNothing(env, w, h, name, flags);
    case Write(h, data, amt, ofst) => WriteEffect(env, w.fs, w.handles[h], ofst, amt, data);
    case FileControl(h, _, arg) => GrowEffect(env, w.fs, Loc(w.fs.files, w.handles[h]), arg);
    case _ =>
  }

  ghost function LargestRequest<H>(env: Env, w: World<H>, ops: seq<Op<H>>, id: nat): int
    requires Consistent(w) && Runnable(env, w, ops)
    decreases |ops|
  {
    if ops == [] then 0
    else
      StepConsistent(env, w, ops[0]);
      Max(Request(w, ops[0], id), LargestRequest(env, Step(env, w, ops[0]).0, ops[1..], id))
  }

  /** A growing call at least doubles the capacity, and exceeds twice the request never. */
  lemma StepGrowth<H>(env: Env, w: World<H>, op: Op<H>, id: nat)
    requires Consistent(w) && Enabled(w, op) && Linked(w.fs, id) && Linked(Step(env, w, op).0.fs, id)
    ensures var b, c := Get(w.fs, id).buf, Get(Step(env, w, op).0.fs, id).buf;
      && 0 <= CopiedBy(env, w, op, id) && |b| + CopiedBy(env, w, op, id) <= |c|
      && (|c| == |b| || |c| <= 2 * Request(w, op, id))
  {
    CopiesForOne(env, w, op);
    if IsInput(op) && Through(w, op, id) {
      InputGrowth(env, w, op, id);
    } else {
      StepContent(env, w, op, id);
    }
  }

  lemma InputGrowth<H>(env: Env, w: World<H>, op: Op<H>, id: nat)
    requires Consistent(w) && Enabled(w, op) && Linked(w.fs, id) && IsInput(op) && Through(w, op, id)
    ensures var b := Get(w.fs, id).buf;
      Linked(Step(env, w, op).0.fs, id) &&
      var c := Get(Step(env, w, op).0.fs, id).buf;
      var moved := Step(env, w, op).0.fs.copied - w.fs.copied;
      (|c| == |b| && moved == 0) || (2 * |b| <= |c| <= 2 * Request(w, op, id) && moved == |b|)
  {
    InputContent(env, w, op, id);
    match op
    case Write(h, data, amt, ofst) => WriteEffect(env, w.fs, id, ofst, amt, data);
    case FileControl(h, _, arg) => GrowEffect(env, w.fs, Loc(w.fs.files, id), arg);
    case _ =>
  }

  /** A size hint gives the file the larger of twice its room and the hint, unless it has the
      room or the one request is refused; it changes no byte, no length and no handle. */
  lemma HintExactly<H>(env: Env, w: World<H>, h: H, arg: int)
    requires Consistent(w) && Enabled(w, FileControl(h, 5, arg))
    ensures var (v, r) := Step(env, w, FileControl(h, 5, arg));
      && r == Code(0) && IsOpen(v, h) && v.handles == w.handles
      && var f, g := FileOf(w, h), FileOf(v, h);
      && |g.buf| == (if arg <= |f.buf| || !env.grants(w.fs.calls) then |f.buf| else Max(2 * |f.buf|, arg))
      && v.fs.calls == (if arg <= |f.buf| then w.fs.calls else w.fs.calls + 1)
      && g.buf[..|f.buf|] == f.buf && g == f.(buf := g.buf)
  {
    var op, id := FileControl(h, 5, arg), w.handles[h];
    InputContent(env, w, op, id);
    GrowEffect(env, w.fs, Loc(w.fs.files, id), arg);
  }

  /** After a hint that was granted, a write inside the hinted size needs no memory: it succeeds
      whatever is granted then. */
  lemma HintThenWrite<H>(env: Env, w: World<H>, h: H, arg: int, later: Env, data: seq<byte>, amt: nat, ofst: nat)
    requires Consistent(w) && Enabled(w, FileControl(h, 5, arg)) && env.grants(w.fs.calls)
    requires amt <= |data| && ofst + amt <= arg
    ensures var v := Step(env, w, FileControl(h, 5, arg)).0;
      && Consistent(v) && Enabled(v, Write(h, data, amt, ofst))
      && Step(later, v, Write(h, data, amt, ofst)).1 == Code(0)
  {
    HintExactly(env, w, h, arg);
    StepConsistent(env, w, FileControl(h, 5, arg));
    var v := Step(env, w, FileControl(h, 5, arg)).0;
    WriteEffect(later, v.fs, v.handles[h], ofst, amt, data);
  }

  /** A write leaves the room it found if that suffices or none is granted, and else the larger
      of twice that and its end. */
  lemma WriteRoomExactly<H>(env: Env, w: World<H>, h: H, data: seq<byte>, amt: int, ofst: int)
    requires Consistent(w) && Enabled(w, Write(h, data, amt, ofst))
    ensures var v := Step(env, w, Write(h, data, amt, ofst)).0;
      && IsOpen(v, h)
      && var b := |FileOf(w, h).buf|;
      |FileOf(v, h).buf| == if amt < 0 || ofst < 0 || ofst + amt <= b || !env.grants(w.fs.calls) then b
                            else Max(2 * b, ofst + amt)
  {
    var op, id := Write(h, data, amt, ofst), w.handles[h];
    InputContent(env, w, op, id);
    WriteEffect(env, w.fs, id, ofst, amt, data);
  }

  /** Over any run: the bytes ever copied are paid for by the growth of the capacity, and the
      capacity is at most twice the largest request. */
  lemma {:induction false} RunGrowth<H>(env: Env, w: World<H>, ops: seq<Op<H>>, id: nat)
    requires Consistent(w) && Runnable(env, w, ops)
    requires Linked(w.fs, id) && Linked(Run(env, w, ops).0.fs, id)
    ensures var b, c := Get(w.fs, id).buf, Get(Run(env, w, ops).0.fs, id).buf;
      && |b| + Copied(env, w, ops, id) <= |c|
      && |c| <= Max(|b|, 2 * LargestRequest(env, w, ops, id))
    decreases |ops|
  {
    if ops != [] {
      StepConsistent(env, w, ops[0]);
      var v := Step(env, w, ops[0]).0;
      StepContent(env, w, ops[0], id);
      if !Linked(v.fs, id) {
        var i := Loc(w.fs.files, id);
        assert w.fs.files[i].id < w.fs.nextId;
        GoneForGood(env, v, ops[1..], id);
      }
      StepGrowth(env, w, ops[0], id);
      RunGrowth(env, v, ops[1..], id);
    }
  }

  /** For a file from its creation on: everything ever copied for it, plus the initial size,
      fits in its capacity, and so does its length. */
  lemma GrowthSinceCreation<H>(env: Env, w: World<H>, h: H, name: seq<byte>, flags: bv32, ops: seq<Op<H>>)
    requires Consistent(w) && Runnable(env, w, [Open(h, name, flags)] + ops) && Find(w.fs.files, name) == |w.fs.files|
    requires Step(env, w, Open(h, name, flags)).1.rc == SQLITE_OK
    requires Linked(Run(env, w, [Open(h, name, flags)] + ops).0.fs, w.fs.nextId)
    ensures var run, id := [Open(h, name, flags)] + ops, w.fs.nextId;
      var f := Get(Run(env, w, run).0.fs, id);
      && INITIAL_BUF_DATA_SIZE + Copied(env, w, run, id) <= |f.buf|
      && |f.buf| <= Max(INITIAL_BUF_DATA_SIZE, 2 * LargestRequest(env, w, run, id))
      && f.len <= |f.buf|
  {
    var op, id := Open(h, name, flags), w.fs.nextId;
    var run := [op] + ops;
    assert run[1..] == ops && run[0] == op;
    RunConsistent(env, w, run);
    Created(env, w, h, name, flags);
    RunGrowth(env, Step(env, w, op).0, ops, id);
  }
}
