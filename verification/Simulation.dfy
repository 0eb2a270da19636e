/** The heap follows the model over whole runs: performing a list of calls on the linked list
    of nodes gives the world and the replies of the model's run. */
module Simulation {
  import opened Base
  import opened CStrings
  import opened FileModel
  import opened VfsModel
  import opened VfsRuns
  import opened Accounting
  import opened Memory
  import opened FileSystem
  import opened Vfs
  import opened TempFile
  import opened Footprint

  /** The objects a call may change, besides those of the file system. */
  ghost function Handles(ops: seq<Op<CFile>>): set<CFile> {
    set op <- ops | !op.Delete? && !op.Access? :: op.h
  }

  lemma Terminated(name: seq<byte>)
    requires 0 !in name
    ensures 0 in name + [0] && Str(name + [0]) == name
  {
    var z := name + [0];
    assert z[|name|] == 0 && z[..|name|] == name;
    StrIs(z, |name|);
  }

  /** `cRead` into a buffer of its own. */
  method PerformRead(v: CompositeVfs, h: CFile, amt: int, ofst: int) returns (reply: Reply)
    requires v.Valid() && Enabled(v.World(), Read(h, amt, ofst))
    ensures v.Valid() && (v.World(), reply) == Step(v.files.mem.env, old(v.World()), Read(h, amt, ofst))
  {
    var buf := new byte[if amt > 0 then amt else 0];
    var rc;
    ghost var r;
    rc, r := v.CRead(h, buf, amt, ofst);
    reply := if rc == SQLITE_IOERR_READ then Code(rc) else Reply.Bytes(rc, buf[..]);
    assert r.Bytes? ==> buf[..] == r.data;
  }

  /** `cWrite` of the given data. */
  method PerformWrite(v: CompositeVfs, h: CFile, data: seq<byte>, amt: int, ofst: int)
      returns (reply: Reply, ghost made: set<object>)
    requires v.Valid() && Enabled(v.World(), Write(h, data, amt, ofst))
    modifies v`handles, v.files`shape, v.files.mem, v.files.shape.spine.repr
    ensures v.Valid() && fresh(made) && v.files.shape.spine.repr == old(v.files.shape.spine.repr) + made
    ensures (v.World(), reply) == Step(v.files.mem.env, old(v.World()), Write(h, data, amt, ofst))
  {
    var buf := new byte[|data|](i requires 0 <= i < |data| => data[i]);
    assert buf[..] == data;
    var rc;
    rc, made := v.CWrite(h, buf, amt, ofst);
    reply := Code(rc);
  }

  /** The calls that take a name. */
  method PerformNamed(v: CompositeVfs, op: Op<CFile>) returns (reply: Reply, ghost made: set<object>)
    requires v.Valid() && Enabled(v.World(), op) && (op.Open? || op.Delete? || op.Access?)
    requires op.Open? ==> op.h !in v.files.shape.spine.repr
    modifies v`handles, v.files`shape, v.files.mem, v.files.shape.spine.repr, Handles([op])
    ensures v.Valid() && fresh(made) && v.files.shape.spine.repr == old(v.files.shape.spine.repr) + made
    ensures (v.World(), reply) == Step(v.files.mem.env, old(v.World()), op)
  {
    made := {};
    Terminated(op.name);
    match op
    case Open(h, name, flags) =>
      var rc, outFlags;
      rc, outFlags, made := v.COpen(name + [0], h, flags);
      reply := Code(rc);
    case Delete(name) =>
      var rc := v.CDelete(name + [0]);
      reply := Code(rc);
    case Access(name) =>
      var rc, res := v.CAccess(name + [0]);
      reply := Value(rc, res);
  }

  /** The calls that move bytes. */
  method PerformTransfer(v: CompositeVfs, op: Op<CFile>) returns (reply: Reply, ghost made: set<object>)
    requires v.Valid() && Enabled(v.World(), op) && (op.Read? || op.Write?)
    modifies v`handles, v.files`shape, v.files.mem, v.files.shape.spine.repr
    ensures v.Valid() && fresh(made) && v.files.shape.spine.repr == old(v.files.shape.spine.repr) + made
    ensures (v.World(), reply) == Step(v.files.mem.env, old(v.World()), op)
  {
    made := {};
    match op
    case Read(h, amt, ofst) => reply := PerformRead(v, h, amt, ofst);
    case Write(h, data, amt, ofst) => reply, made := PerformWrite(v, h, data, amt, ofst);
  }

  /** `cTruncate`. */
  method PerformTruncate(v: CompositeVfs, h: CFile, size: int) returns (reply: Reply, ghost made: set<object>)
    requires v.Valid() && Enabled(v.World(), Truncate(h, size))
    modifies v`handles, v.files`shape, v.files.mem, v.files.shape.spine.repr
    ensures v.Valid() && fresh(made) && v.files.shape.spine.repr == old(v.files.shape.spine.repr) + made
    ensures (v.World(), reply) == Step(v.files.mem.env, old(v.World()), Truncate(h, size))
  {
    made := {};
    var rc := v.CTruncate(h, size);
    reply := Code(rc);
  }

  /** `cFileControl`. */
  method PerformControl(v: CompositeVfs, h: CFile, code: int, arg: int) returns (reply: Reply, ghost made: set<object>)
    requires v.Valid() && Enabled(v.World(), FileControl(h, code, arg))
    modifies v`handles, v.files`shape, v.files.mem, v.files.shape.spine.repr
    ensures v.Valid() && fresh(made) && v.files.shape.spine.repr == old(v.files.shape.spine.repr) + made
    ensures (v.World(), reply) == Step(v.files.mem.env, old(v.World()), FileControl(h, code, arg))
  {
    var rc;
    rc, made := v.CFileControl(h, code, arg);
    reply := Code(rc);
  }

  /** The calls that ask for or change a size. */
  method PerformSize(v: CompositeVfs, op: Op<CFile>) returns (reply: Reply, ghost made: set<object>)
    requires v.Valid() && Enabled(v.World(), op) && (op.Truncate? || op.FileSize? || op.FileControl?)
    modifies v`handles, v.files`shape, v.files.mem, v.files.shape.spine.repr
    ensures v.Valid() && fresh(made) && v.files.shape.spine.repr == old(v.files.shape.spine.repr) + made
    ensures (v.World(), reply) == Step(v.files.mem.env, old(v.World()), op)
  {
    made := {};
    match op
    case Truncate(h, size) => reply, made := PerformTruncate(v, h, size);
    case FileSize(h) =>
      var rc, size := v.CFileSize(h);
      reply := Value(rc, size);
    case FileControl(h, code, arg) => reply, made := PerformControl(v, h, code, arg);
  }

  /** `cClose`. */
  method PerformClose(v: CompositeVfs, h: CFile) returns (reply: Reply, ghost made: set<object>)
    requires v.Valid() && Enabled(v.World(), Close(h))
    modifies v`handles, v.files`shape, v.files.mem, v.files.shape.spine.repr, h
    ensures v.Valid() && fresh(made) && v.files.shape.spine.repr == old(v.files.shape.spine.repr) + made
    ensures (v.World(), reply) == Step(v.files.mem.env, old(v.World()), Close(h))
  {
    made := {};
    var rc := v.CClose(h);
    reply := Code(rc);
  }

  /** One call. */
  method Perform(v: CompositeVfs, op: Op<CFile>) returns (reply: Reply, ghost made: set<object>)
    requires v.Valid() && Enabled(v.World(), op)
    requires op.Open? ==> op.h !in v.files.shape.spine.repr
    modifies v`handles, v.files`shape, v.files.mem, v.files.shape.spine.repr, Handles([op])
    ensures v.Valid() && fresh(made) && v.files.shape.spine.repr == old(v.files.shape.spine.repr) + made
    ensures (v.World(), reply) == Step(v.files.mem.env, old(v.World()), op)
  {
    if op.Close? {
      reply, made := PerformClose(v, op.h);
    } else if op.Open? || op.Delete? || op.Access? {
      reply, made := PerformNamed(v, op);
    } else if op.Read? || op.Write? {
      reply, made := PerformTransfer(v, op);
    } else {
      reply, made := PerformSize(v, op);
    }
  }

  /** A run of calls, from any valid state. */
  method PerformAll(v: CompositeVfs, ops: seq<Op<CFile>>) returns (replies: seq<Reply>, ghost made: set<object>)
    requires v.Valid() && Runnable(v.files.mem.env, v.World(), ops)
    requires Handles(ops) !! v.files.shape.spine.repr
    modifies v`handles, v.files`shape, v.files.mem, v.files.shape.spine.repr, Handles(ops)
    ensures v.Valid() && fresh(made) && v.files.shape.spine.repr == old(v.files.shape.spine.repr) + made
    ensures (v.World(), replies) == Run(v.files.mem.env, old(v.World()), ops)
    decreases |ops|
  {
    if ops == [] {
      return [], {};
    }
    assert Handles(ops) == Handles([ops[0]]) + Handles(ops[1..]);
    StepConsistent(v.files.mem.env, v.World(), ops[0]);
    var reply, rest;
    ghost var more;
    reply, made := Perform(v, ops[0]);
    rest, more := PerformAll(v, ops[1..]);
    replies, made := [reply] + rest, made + more;
  }

  /** Blocks are conserved: a run changes the number of live regions by three for each file
      that it adds or removes, whatever was refused, grown or freed on the way. And
      `outstanding_memory` moves with what the files were ever charged (`Footprint.Total`), which
      no close and no delete lowers. */
  method PerformCounted(v: CompositeVfs, ops: seq<Op<CFile>>) returns (replies: seq<Reply>)
    requires v.Valid() && Runnable(v.files.mem.env, v.World(), ops)
    requires Handles(ops) !! v.files.shape.spine.repr
    modifies v`handles, v.files`shape, v.files.mem, v.files.shape.spine.repr, Handles(ops)
    ensures v.Valid() && (v.World(), replies) == Run(v.files.mem.env, old(v.World()), ops)
    ensures |v.files.mem.live| == old(|v.files.mem.live|) + 3 * (|v.World().fs.files| - |old(v.World()).fs.files|)
    ensures v.files.mem.outstanding - old(v.files.mem.outstanding) == Total(v.World().fs) - Total(old(v.World()).fs)
  {
    ghost var made;
    v.files.LiveCount();
    v.files.Charged();
    replies, made := PerformAll(v, ops);
    v.files.LiveCount();
    v.files.Charged();
  }

  /** `fs_init`, before any call. */
  method Start(mem: Mem) returns (v: CompositeVfs)
    requires mem.Valid() && mem.env.grants(mem.calls)
    modifies mem
    ensures fresh(v) && fresh(v.files) && fresh(v.files.shape.spine.repr) && v.files.mem == mem
    ensures v.Valid() && v.World() == World(State([], 0, old(mem.calls) + 1, old(mem.copied), old(mem.leaked)), map[])
    ensures v.files.foreign == old(mem.live)
    ensures old(mem.outstanding) == ChargeOf(old(mem.live)) + old(mem.leaked)
  {
    mem.Charged();
    var files := new Files(mem);
    files.FsInit();
    v := new CompositeVfs(files);
  }

  /** Any calls, then `fs_deinit`. Before the end the live regions are one for the sentinel
      and three for each linked file, whatever was refused; then none is left. */
  method Conclude(v: CompositeVfs, ops: seq<Op<CFile>>) returns (replies: seq<Reply>, ghost held: nat)
    requires v.Valid() && Runnable(v.files.mem.env, v.World(), ops)
    requires Handles(ops) !! v.files.shape.spine.repr
    modifies v`handles, v.files, v.files.mem, v.files.shape.spine.repr, Handles(ops)
    ensures var (w, r) := Run(v.files.mem.env, old(v.World()), ops);
      replies == r && held == |old(v.files.foreign)| + 1 + 3 * |w.fs.files|
    ensures v.files.mem.Valid() && v.files.mem.live == old(v.files.foreign)
    ensures var w := Run(v.files.mem.env, old(v.World()), ops).0;
      v.files.mem.outstanding == ChargeOf(old(v.files.foreign)) + 52 + Total(w.fs) && Total(old(v.World()).fs) <= Total(w.fs)
  {
    ghost var made;
    RunTotal(v.files.mem.env, v.World(), ops);
    replies, made := PerformAll(v, ops);
    v.files.LiveCount();
    v.files.Charged();
    held := |v.files.mem.live|;
    v.files.FsDeinit();
  }

  /** A whole session: `fs_init`, any calls, `fs_deinit`. The replies are those of the model's
      run on an empty list, and every region that was granted is given back. The counter
      `outstanding_memory` never comes back to where it was: it stays at what the sentinel, the
      files still linked and all those freed before were charged. */
  method Session(mem: Mem, ops: seq<Op<CFile>>) returns (replies: seq<Reply>, ghost held: nat)
    requires mem.Valid() && mem.env.grants(mem.calls)
    requires Runnable(mem.env, World(State([], 0, mem.calls + 1, mem.copied, mem.leaked), map[]), ops)
    modifies mem, Handles(ops)
    ensures var (w, r) := Run(mem.env, World(State([], 0, old(mem.calls) + 1, old(mem.copied), old(mem.leaked)), map[]), ops);
      replies == r && held == |old(mem.live)| + 1 + 3 * |w.fs.files|
    ensures mem.Valid() && mem.live == old(mem.live)
    ensures var w := Run(mem.env, World(State([], 0, old(mem.calls) + 1, old(mem.copied), old(mem.leaked)), map[]), ops).0;
      mem.outstanding == old(mem.outstanding) + 52 + Total(w.fs) - old(mem.leaked) >= old(mem.outstanding) + 52
  {
    var v := Start(mem);
    replies, held := Conclude(v, ops);
  }

  /** The calls on a temporary file, and how many files and regions they leave. */
  method TempCalls(v: CompositeVfs, h: CFile, name: seq<byte>, flags: bv32, ops: seq<Op<CFile>>)
    requires v.Valid() && flags & 0x08 != 0
    requires Find(v.World().fs.files, name) == |v.World().fs.files|
    requires forall i :: 0 <= i < |ops| ==> IsInput(ops[i]) && ops[i].h == h
    requires Runnable(v.files.mem.env, v.World(), [Open(h, name, flags)] + (ops + [Close(h)]))
    requires Step(v.files.mem.env, v.World(), Open(h, name, flags)).1.rc == SQLITE_OK
    requires h !in v.files.shape.spine.repr
    modifies v`handles, v.files`shape, v.files.mem, v.files.shape.spine.repr, h
    ensures v.Valid() && v.World().handles == old(v.World().handles)
    ensures v.World().fs.files == old(v.World().fs.files) <==> |name| < MAX_PATHNAME
    ensures |v.files.mem.live| == old(|v.files.mem.live|) <==> |name| < MAX_PATHNAME
  {
    var run := [Open(h, name, flags)] + (ops + [Close(h)]);
    assert Handles(run) <= {h};
    TempRoundTrip(v.files.mem.env, v.World(), h, name, flags, ops);
    var replies := PerformCounted(v, run);
  }

  /** A temporary file on the heap: opened under an absent name, used and closed. The nodes, in
      their order, all their blocks and the live regions are those before, exactly when its
      name is shorter than MAX_PATHNAME. */
  method PerformTemp(v: CompositeVfs, h: CFile, name: seq<byte>, flags: bv32, ops: seq<Op<CFile>>)
    requires v.Valid() && flags & 0x08 != 0
    requires Find(v.World().fs.files, name) == |v.World().fs.files|
    requires forall i :: 0 <= i < |ops| ==> IsInput(ops[i]) && ops[i].h == h
    requires Runnable(v.files.mem.env, v.World(), [Open(h, name, flags)] + (ops + [Close(h)]))
    requires Step(v.files.mem.env, v.World(), Open(h, name, flags)).1.rc == SQLITE_OK
    requires h !in v.files.shape.spine.repr
    modifies v`handles, v.files`shape, v.files`pinned, v.files.mem, v.files.shape.spine.repr, h
    ensures v.Valid() && v.World().handles == old(v.World().handles)
    ensures v.World().fs.files == old(v.World().fs.files) <==> |name| < MAX_PATHNAME
    ensures v.files.shape.spine.slots == old(v.files.shape.spine.slots) <==> |name| < MAX_PATHNAME
    ensures v.files.mem.live == old(v.files.mem.live) <==> |name| < MAX_PATHNAME
  {
    ghost var files := v.World().fs.files;
    v.files.Pin();
    TempCalls(v, h, name, flags, ops);
    assert v.World().fs.files == files <==> |name| < MAX_PATHNAME;
    if |name| < MAX_PATHNAME {
      v.files.Unmoved();
    }
  }
}
