/** Runs of VFS calls, and what every run keeps. */
module VfsRuns {
  import opened Base
  import opened CStrings
  import opened FileModel
  import opened VfsModel

  /** Every call of the run is one that C defines in the state it meets. */
  ghost predicate Runnable<H>(env: Env, w: World<H>, ops: seq<Op<H>>)
    requires Consistent(w)
    decreases |ops|
  {
    ops == [] ||
    (Enabled(w, ops[0]) && (StepConsistent(env, w, ops[0]); Runnable(env, Step(env, w, ops[0]).0, ops[1..])))
  }

  ghost function Run<H>(env: Env, w: World<H>, ops: seq<Op<H>>): (World<H>, seq<Reply>)
    requires Consistent(w) && Runnable(env, w, ops)
    decreases |ops|
  {
    if ops == [] then (w, [])
    else
      StepConsistent(env, w, ops[0]);
      var (v, reply) := Step(env, w, ops[0]);
      var (u, replies) := Run(env, v, ops[1..]);
      (u, [reply] + replies)
  }

  /** In every reachable state, reference counts are handle counts, every handle's file is
      linked, names are found uniquely, and a file waiting for deletion is open. */
  lemma {:induction false} RunConsistent<H>(env: Env, w: World<H>, ops: seq<Op<H>>)
    requires Consistent(w) && Runnable(env, w, ops)
    ensures Consistent(Run(env, w, ops).0)
    decreases |ops|
  {
    if ops != [] {
      StepConsistent(env, w, ops[0]);
      RunConsistent(env, Step(env, w, ops[0]).0, ops[1..]);
    }
  }

  /** One call in front of a run. */
  lemma RunFirst<H>(env: Env, w: World<H>, a: Op<H>, rest: seq<Op<H>>, u: World<H>)
    requires Consistent(w) && Enabled(w, a) && Step(env, w, a).0 == u
    requires Consistent(u) && Runnable(env, u, rest)
    ensures Runnable(env, w, [a] + rest) && Run(env, w, [a] + rest).0 == Run(env, u, rest).0
  {
    assert ([a] + rest)[0] == a && ([a] + rest)[1..] == rest;
  }

  lemma {:induction false} RunConcat<H>(env: Env, w: World<H>, a: seq<Op<H>>, b: seq<Op<H>>)
    requires Consistent(w) && Runnable(env, w, a + b)
    ensures Runnable(env, w, a) && Consistent(Run(env, w, a).0) && Runnable(env, Run(env, w, a).0, b)
    ensures Run(env, w, a + b).0 == Run(env, Run(env, w, a).0, b).0
    decreases |a|
  {
    if a == [] {
      assert a + b == b;
    } else {
      assert (a + b)[1..] == a[1..] + b && (a + b)[0] == a[0];
      StepConsistent(env, w, a[0]);
      RunConcat(env, Step(env, w, a[0]).0, a[1..], b);
    }
  }

  lemma LocIs(s: State, k: nat, id: nat)
    requires WellFormed(s) && k < |s.files| && s.files[k].id == id
    ensures Linked(s, id) && Loc(s.files, id) == k && Get(s, id) == s.files[k]
  {
    LocAt(s, k);
  }

  /** The handle a call works through. */
  predicate Through<H>(w: World<H>, op: Op<H>, id: nat) {
    match op
    case Close(h) => h in w.handles && w.handles[h] == id
    case Read(h, _, _) => h in w.handles && w.handles[h] == id
    case Write(h, _, _, _) => h in w.handles && w.handles[h] == id
    case Truncate(h, _) => h in w.handles && w.handles[h] == id
    case FileSize(h) => h in w.handles && w.handles[h] == id
    case FileControl(h, _, _) => h in w.handles && w.handles[h] == id
    case _ => false
  }

  /** The calls on an open handle that leave it open. */
  predicate IsInput<H>(op: Op<H>) {
    op.Read? || op.Write? || op.Truncate? || op.FileSize? || op.FileControl?
  }

  /** What growing does: without a need for room, nothing; else one request and, if that is
      granted, the larger of twice the old room and the request, with the bytes that were
      there in front and whatever fresh memory holds behind. */
  lemma GrowEffect(env: Env, s: State, k: nat, sz: int)
    requires k < |s.files|
    ensures var (t, ok) := Grow(env, s, k, sz);
      && k < |t.files| && t.files == s.files[k := t.files[k]]
      && t == s.(files := t.files, calls := t.calls, copied := t.copied)
      && t.files[k] == s.files[k].(buf := t.files[k].buf)
      && var b, c := s.files[k].buf, t.files[k].buf;
      && (ok <==> sz <= |b| || env.grants(s.calls))
      && t.calls == (if sz <= |b| then s.calls else s.calls + 1)
      && |c| == (if sz <= |b| || !env.grants(s.calls) then |b| else Max(2 * |b|, sz))
      && |b| <= |c| && c[..|b|] == b
      && (forall p :: |b| <= p < |c| ==> c[p] == env.junk(s.calls, p))
      && (|c| == |b| ==> t.files == s.files)
      && t.copied == s.copied + if |c| == |b| then 0 else |b|
  {
  }

  /** What a write does: nothing but a refused request, or the data at its place, the length at
      its end and the room that this needs. */
  lemma WriteEffect(env: Env, s: State, id: nat, offset: int, len: int, data: seq<byte>)
    requires Linked(s, id) && len <= |data|
    ensures var (t, n) := WriteFile(env, s, id, offset, len, data);
      var k := Loc(s.files, id);
      && k < |t.files| && t.files == s.files[k := t.files[k]]
      && t == s.(files := t.files, calls := t.calls, copied := t.copied)
      && t.files[k] == s.files[k].(buf := t.files[k].buf, len := t.files[k].len)
      && var b, c := s.files[k].buf, t.files[k].buf;
      && (n == if 0 <= offset && 0 <= len && (offset + len <= |b| || env.grants(s.calls)) then len else -1)
      && t.calls == (if 0 <= offset && 0 <= len && |b| < offset + len then s.calls + 1 else s.calls)
      && |c| == (if n == -1 || offset + len <= |b| then |b| else Max(2 * |b|, offset + len))
      && (n == -1 ==> t.files == s.files)
      && (n != -1 ==>
            && t.files[k].len == offset + len <= |c| && |b| <= |c|
            && (forall p :: offset <= p < offset + len ==> c[p] == data[p - offset])
            && (forall p :: 0 <= p < |b| && !(offset <= p < offset + len) ==> c[p] == b[p])
            && (forall p :: |b| <= p < |c| && !(offset <= p < offset + len) ==> c[p] == env.junk(s.calls, p)))
      && t.copied == s.copied + if |c| == |b| then 0 else |b|
  {
    if 0 <= offset && 0 <= len {
      var k := Loc(s.files, id);
      var (t, ok) := Grow(env, s, k, offset + len);
      GrowEffect(env, s, k, offset + len);
      WriteAt(env, s, id, offset, len, data, t, ok);
    }
  }

  /** Calls through an open handle change at most the bytes, the length and the capacity of
      the file at its position, and no handle. */
  lemma InputStep<H>(env: Env, w: World<H>, op: Op<H>)
    requires Consistent(w) && Enabled(w, op) && IsInput(op)
    ensures var v := Step(env, w, op).0;
      var k := Loc(w.fs.files, w.handles[op.h]);
      && k < |w.fs.files| == |v.fs.files| && v.handles == w.handles && v.fs.nextId == w.fs.nextId
      && v.fs.files == w.fs.files[k := v.fs.files[k]]
      && v.fs.files[k] == w.fs.files[k].(buf := v.fs.files[k].buf, len := v.fs.files[k].len)
  {
    match op
    case Write(h, data, amt, ofst) => WriteEffect(env, w.fs, w.handles[h], ofst, amt, data);
    case FileControl(h, _, arg) => GrowEffect(env, w.fs, Loc(w.fs.files, w.handles[h]), arg);
    case _ =>
  }

  /** The same file, bytes and length; a flag that is set stays set. */
  predicate SameContent(f: File, g: File) {
    f.id == g.id && f.name == g.name && f.buf == g.buf && f.len == g.len && (f.deleteOnClose ==> g.deleteOnClose)
  }

  predicate KeepsContent(s: State, t: State, id: nat) {
    Linked(s, id) && Linked(t, id) ==> SameContent(Get(s, id), Get(t, id))
  }

  lemma UpdateContent(s: State, k: nat, f: File, id: nat)
    requires WellFormed(s) && k < |s.files| && FileOk(f) && SameContent(s.files[k], f)
    ensures KeepsContent(s, Update(s, k, f), id) && (Linked(s, id) <==> Linked(Update(s, k, f), id))
    ensures Linked(s, id) && id != f.id ==> Get(Update(s, k, f), id) == Get(s, id)
  {
    var t := Update(s, k, f);
    UpdateWellFormed(s, k, f);
    if Linked(s, id) {
      LocIs(t, Loc(s.files, id), id);
    }
  }

  lemma WithoutContent(s: State, k: nat, id: nat)
    requires WellFormed(s) && k < |s.files|
    ensures var t := Discarded(s, k);
      && KeepsContent(s, t, id) && (Linked(t, id) <==> Linked(s, id) && id != s.files[k].id)
      && (Linked(t, id) ==> Get(t, id) == Get(s, id))
  {
    var t := Discarded(s, k);
    WithoutOk(s.files, s.nextId, k);
    if Linked(s, id) && id != s.files[k].id {
      var i := Loc(s.files, id);
      assert i != k && t.files[if i < k then i else i - 1] == s.files[i];
      LocIs(t, if i < k then i else i - 1, id);
    }
    if Linked(t, id) {
      var j := Loc(t.files, id);
      var i := if j < k then j else j + 1;
      assert t.files[j] == s.files[i] && (Before(i, k) || Before(k, i));
      LocIs(s, i, id);
    }
  }

  lemma AllocContent(env: Env, s: State, name: seq<byte>, id: nat)
    requires WellFormed(s) && 0 !in name && Find(s.files, name) == |s.files|
    ensures var (t, ok) := Alloc(env, s, name);
      && WellFormed(t) && KeepsContent(s, t, id)
      && (Linked(t, id) <==> Linked(s, id) || (ok && id == s.nextId))
      && (Linked(s, id) ==> Get(t, id) == Get(s, id))
  {
    AllocWellFormed(env, s, name);
    var (t, ok) := Alloc(env, s, name);
    if ok {
      if Linked(s, id) {
        assert t.files[Loc(s.files, id) + 1] == s.files[Loc(s.files, id)];
        LocIs(t, Loc(s.files, id) + 1, id);
      }
      if id == s.nextId {
        LocIs(t, 0, id);
      }
      if Linked(t, id) && Loc(t.files, id) > 0 {
        assert t.files[Loc(t.files, id)] == s.files[Loc(t.files, id) - 1];
        LocIs(s, Loc(t.files, id) - 1, id);
      }
    }
  }

  /** `fs_open` links at most the file it returns, and changes no content. */
  lemma OpenContent(env: Env, s: State, name: seq<byte>, id: nat)
    requires WellFormed(s) && 0 !in name
    ensures var (t, r) := OpenFile(env, s, name);
      && WellFormed(t) && KeepsContent(s, t, id)
      && (Linked(t, id) <==> Linked(s, id) || (r == Some(id) && id == s.nextId))
  {
    var (t, k) := FindOrAlloc(env, s, name);
    if Find(s.files, name) == |s.files| {
      AllocContent(env, s, name, id);
    }
    if k.Some? {
      var f := t.files[k.value];
      UpdateContent(t, k.value, f.(ref := f.ref + 1), id);
      UpdateWellFormed(t, k.value, f.(ref := f.ref + 1));
    }
  }

  /** `fs_delete` unlinks at most the file found, and changes no content. */
  lemma DeleteContent(s: State, name: seq<byte>, id: nat)
    requires WellFormed(s)
    ensures var t, k := DeleteFile(s, name), Find(s.files, name);
      && KeepsContent(s, t, id)
      && (Linked(t, id) <==> Linked(s, id) && !(k < |s.files| && s.files[k].id == id && s.files[k].ref == 0))
  {
    var k := Find(s.files, name);
    if k < |s.files| {
      if s.files[k].ref == 0 {
        WithoutContent(s, k, id);
      } else {
        UpdateContent(s, k, s.files[k].(deleteOnClose := true), id);
      }
    }
  }

  /** `fs_close` unlinks exactly a doomed file whose last reference goes. */
  lemma CloseContent(s: State, closed: nat, id: nat)
    requires WellFormed(s) && Linked(s, closed)
    ensures var t, f := CloseFile(s, closed), Get(s, closed);
      && KeepsContent(s, t, id)
      && (Linked(t, id) <==> Linked(s, id) && !(id == closed && f.ref == 1 && f.deleteOnClose))
  {
    var k := Loc(s.files, closed);
    var f := s.files[k];
    if f.ref == 1 && f.deleteOnClose {
      WithoutContent(s, k, id);
    } else {
      UpdateContent(s, k, f.(ref := f.ref - 1), id);
    }
  }

  lemma OpenStepContent<H>(env: Env, w: World<H>, h: H, name: seq<byte>, flags: bv32, id: nat)
    requires WellFormed(w.fs) && 0 !in name
    ensures var v := OpenStep(env, w, h, name, flags).0;
      && w.fs.nextId <= v.fs.nextId && KeepsContent(w.fs, v.fs, id)
      && (Linked(v.fs, id) ==> Linked(w.fs, id) || id == w.fs.nextId < v.fs.nextId)
  {
    var (t, r) := OpenFile(env, w.fs, name);
    OpenContent(env, w.fs, name, id);
    DeleteContent(t, name, id);
    OpenIds(env, w.fs, name);
  }

  lemma OpenIds(env: Env, s: State, name: seq<byte>)
    ensures var (t, r) := OpenFile(env, s, name);
      && s.nextId <= t.nextId && (r == Some(s.nextId) && Find(s.files, name) == |s.files| ==> s.nextId < t.nextId)
      && DeleteFile(t, name).nextId == t.nextId
  {
  }

  /** One call links at most one file, under the next id, and changes the content of no file
      but the one whose handle it works through. */
  lemma StepContent<H>(env: Env, w: World<H>, op: Op<H>, id: nat)
    requires Consistent(w) && Enabled(w, op)
    ensures var v := Step(env, w, op).0;
      && w.fs.nextId <= v.fs.nextId
      && (Linked(v.fs, id) ==> Linked(w.fs, id) || id == w.fs.nextId < v.fs.nextId)
      && (!(IsInput(op) && Through(w, op, id)) ==> KeepsContent(w.fs, v.fs, id))
      && (IsInput(op) ==> (Linked(v.fs, id) <==> Linked(w.fs, id)))
  {
    match op
    case Open(h, name, flags) => OpenStepContent(env, w, h, name, flags, id);
    case Close(h) => CloseContent(w.fs, w.handles[h], id);
    case Delete(name) => DeleteContent(w.fs, name, id);
    case Access(_) =>
    case _ => InputContent(env, w, op, id);
  }

  lemma InputContent<H>(env: Env, w: World<H>, op: Op<H>, id: nat)
    requires Consistent(w) && Enabled(w, op) && IsInput(op)
    ensures var v := Step(env, w, op).0;
      && (Linked(v.fs, id) <==> Linked(w.fs, id))
      && (!Through(w, op, id) ==> Linked(w.fs, id) ==> Get(v.fs, id) == Get(w.fs, id))
      && Loc(v.fs.files, id) == Loc(w.fs.files, id) && v.fs.nextId == w.fs.nextId
  {
    var v := Step(env, w, op).0;
    InputStep(env, w, op);
    StepConsistent(env, w, op);
    if Linked(w.fs, id) {
      LocIs(v.fs, Loc(w.fs.files, id), id);
    }
    if Linked(v.fs, id) {
      LocIs(w.fs, Loc(v.fs.files, id), id);
    }
  }

  /** A file that is gone never comes back: ids are not used twice. */
  lemma {:induction false} GoneForGood<H>(env: Env, w: World<H>, ops: seq<Op<H>>, id: nat)
    requires Consistent(w) && Runnable(env, w, ops) && id < w.fs.nextId && !Linked(w.fs, id)
    ensures !Linked(Run(env, w, ops).0.fs, id)
    decreases |ops|
  {
    if ops != [] {
      StepConsistent(env, w, ops[0]);
      StepContent(env, w, ops[0], id);
      GoneForGood(env, Step(env, w, ops[0]).0, ops[1..], id);
    }
  }

  /** Opening an absent name, when it succeeds, links one file in front of the others: empty,
      with the initial buffer as fresh memory has it, the first MAX_PATHNAME characters of its
      name, one reference and a new id. It waits for deletion exactly when the bit of
      DELETEONCLOSE is set and the name is short enough to be found. */
  lemma Created<H>(env: Env, w: World<H>, h: H, name: seq<byte>, flags: bv32)
    requires Consistent(w) && Enabled(w, Open(h, name, flags)) && Find(w.fs.files, name) == |w.fs.files|
    requires Step(env, w, Open(h, name, flags)).1.rc == SQLITE_OK
    ensures var v, id := Step(env, w, Open(h, name, flags)).0, w.fs.nextId;
      && Consistent(v) && v.handles == w.handles[h := id] && !Linked(w.fs, id) && Linked(v.fs, id)
      && var f := Get(v.fs, id);
      && v.fs.files == [f] + w.fs.files && f.len == 0 && f.ref == 1
      && (f.deleteOnClose <==> flags & 0x08 != 0 && |name| < MAX_PATHNAME)
      && |f.buf| == INITIAL_BUF_DATA_SIZE && (forall p :: 0 <= p < |f.buf| ==> f.buf[p] == env.junk(w.fs.calls + 1, p))
      && |f.name| == (if |name| < MAX_PATHNAME then |name| else MAX_PATHNAME)
      && forall i :: 0 <= i < |f.name| ==> f.name[i] == name[i]
  {
    var (t, r) := OpenFile(env, w.fs, name);
    OpenStepAt(env, w, h, name, flags, t, r);
    OpenAbsent(env, w.fs, name);
    DoomFirst(t, name);
    var v := Step(env, w, Open(h, name, flags)).0;
    StepConsistent(env, w, Open(h, name, flags));
    LocIs(v.fs, 0, w.fs.nextId);
  }
}
