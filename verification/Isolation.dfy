/** What a call leaves alone: other files, and everything when it fails. */
module Isolation {
  import opened Base
  import opened FileModel
  import opened VfsModel
  import opened VfsRuns

  /** The call neither works through a handle on the file nor opens or deletes its name. */
  predicate Avoids<H>(w: World<H>, op: Op<H>, id: nat)
    requires Linked(w.fs, id)
  {
    && !Through(w, op, id)
    && (op.Open? || op.Delete? ==> op.name != Get(w.fs, id).name)
  }

  ghost predicate AllAvoid<H>(env: Env, w: World<H>, ops: seq<Op<H>>, id: nat)
    requires Consistent(w) && Runnable(env, w, ops)
    decreases |ops|
  {
    ops == [] ||
    (Linked(w.fs, id) && Avoids(w, ops[0], id)
     && (StepConsistent(env, w, ops[0]); AllAvoid(env, Step(env, w, ops[0]).0, ops[1..], id)))
  }

  predicate SameHolders<H>(w: World<H>, v: World<H>, id: nat) {
    (set g <- v.handles | v.handles[g] == id) == (set g <- w.handles | w.handles[g] == id)
  }

  lemma OpenElsewhere<H>(env: Env, w: World<H>, h: H, name: seq<byte>, flags: bv32, id: nat)
    requires Consistent(w) && 0 !in name && h !in w.handles
    requires Linked(w.fs, id) && Get(w.fs, id).name != name
    ensures var v := OpenStep(env, w, h, name, flags).0;
      Linked(v.fs, id) && Get(v.fs, id) == Get(w.fs, id) && SameHolders(w, v, id)
  {
    var (t, r) := OpenFile(env, w.fs, name);
    OpenFileElsewhere(env, w.fs, name, id);
    if r.Some? {
      DeleteElsewhere(t, name, id);
    }
  }

  lemma OpenFileElsewhere(env: Env, s: State, name: seq<byte>, id: nat)
    requires WellFormed(s) && 0 !in name && Linked(s, id) && Get(s, id).name != name
    ensures var (t, r) := OpenFile(env, s, name);
      WellFormed(t) && Linked(t, id) && Get(t, id) == Get(s, id) && r != Some(id)
  {
    var (t, k) := FindOrAlloc(env, s, name);
    FindElsewhere(env, s, name, id);
    if k.Some? {
      var f := t.files[k.value];
      OpenAt(env, s, name, t, k.value);
      UpdateContent(t, k.value, f.(ref := f.ref + 1), id);
      UpdateWellFormed(t, k.value, f.(ref := f.ref + 1));
    }
  }

  lemma FindElsewhere(env: Env, s: State, name: seq<byte>, id: nat)
    requires WellFormed(s) && 0 !in name && Linked(s, id) && Get(s, id).name != name
    ensures var (t, k) := FindOrAlloc(env, s, name);
      && WellFormed(t) && Linked(t, id) && Get(t, id) == Get(s, id)
      && (k.Some? ==> t.files[k.value].id != id && FileOk(t.files[k.value]))
  {
    if Find(s.files, name) == |s.files| {
      AllocContent(env, s, name, id);
      assert s.files[Loc(s.files, id)].id < s.nextId;
    } else {
      FoundHasName(s, name, id);
    }
  }

  lemma FoundHasName(s: State, name: seq<byte>, id: nat)
    requires WellFormed(s) && Linked(s, id) && Get(s, id).name != name && Find(s.files, name) < |s.files|
    ensures s.files[Find(s.files, name)].id != id
  {
    LocAt(s, Find(s.files, name));
  }

  lemma DeleteElsewhere(s: State, name: seq<byte>, id: nat)
    requires WellFormed(s) && Linked(s, id) && Get(s, id).name != name
    ensures Linked(DeleteFile(s, name), id) && Get(DeleteFile(s, name), id) == Get(s, id)
  {
    var k := Find(s.files, name);
    if k < |s.files| {
      FoundHasName(s, name, id);
      if s.files[k].ref == 0 {
        WithoutContent(s, k, id);
      } else {
        UpdateContent(s, k, s.files[k].(deleteOnClose := true), id);
      }
    }
  }

  lemma CloseElsewhere(s: State, closed: nat, id: nat)
    requires WellFormed(s) && Linked(s, closed) && Linked(s, id) && id != closed
    ensures Linked(CloseFile(s, closed), id) && Get(CloseFile(s, closed), id) == Get(s, id)
  {
    var k := Loc(s.files, closed);
    WithoutContent(s, k, id);
    UpdateContent(s, k, s.files[k].(ref := s.files[k].ref - 1), id);
  }

  /** A call that avoids a file changes nothing of it: not its name, bytes, length, capacity,
      count or flag, and none of its handles. */
  lemma StepElsewhere<H>(env: Env, w: World<H>, op: Op<H>, id: nat)
    requires Consistent(w) && Enabled(w, op) && Linked(w.fs, id) && Avoids(w, op, id)
    ensures var v := Step(env, w, op).0;
      && Linked(v.fs, id) && Get(v.fs, id) == Get(w.fs, id)
      && SameHolders(w, v, id)
  {
    match op
    case Open(h, name, flags) => OpenElsewhere(env, w, h, name, flags, id);
    case Close(h) => CloseElsewhere(w.fs, w.handles[h], id);
    case Delete(name) => DeleteElsewhere(w.fs, name, id);
    case Access(_) =>
    case _ =>
      InputContent(env, w, op, id);
      InputStep(env, w, op);
  }

  /** A whole run on other files leaves a file and its handles alone, so every read of it
      gives the same reply as before the run. */
  lemma {:induction false} RunElsewhere<H>(env: Env, w: World<H>, ops: seq<Op<H>>, id: nat)
    requires Consistent(w) && Runnable(env, w, ops) && Linked(w.fs, id) && AllAvoid(env, w, ops, id)
    ensures var v := Run(env, w, ops).0;
      && Linked(v.fs, id) && Get(v.fs, id) == Get(w.fs, id)
      && SameHolders(w, v, id)
    decreases |ops|
  {
    if ops != [] {
      StepConsistent(env, w, ops[0]);
      StepElsewhere(env, w, ops[0], id);
      RunElsewhere(env, Step(env, w, ops[0]).0, ops[1..], id);
    }
  }

  /** A call that reports an error leaves files, their order and handles as they were; a
      partial allocation leaves nothing behind. */
  lemma FailureIsAtomic<H>(env: Env, w: World<H>, op: Op<H>)
    requires Consistent(w) && Enabled(w, op)
    requires var rc := Step(env, w, op).1.rc; rc != SQLITE_OK && rc != SQLITE_IOERR_SHORT_READ
    ensures var v := Step(env, w, op).0; v == World(w.fs.(calls := v.fs.calls, leaked := v.fs.leaked), w.handles)
  {
    match op
    case Open(h, name, flags) =>
      var (t, k) := FindOrAlloc(env, w.fs, name);
      if k.Some? {
        OpenAt(env, w.fs, name, t, k.value);
      }
    case Write(h, data, amt, ofst) => WriteEffect(env, w.fs, w.handles[h], ofst, amt, data);
    case _ =>
  }

  /** `cOpen` succeeds exactly when an existing name is not refused, for which the bits of
      CREATE and EXCLUSIVE must both be set, and a new one gets its three blocks. */
  lemma OpenSucceedsExactly<H>(env: Env, w: World<H>, h: H, name: seq<byte>, flags: bv32)
    requires Consistent(w) && Enabled(w, Open(h, name, flags))
    ensures var n := w.fs.calls;
      Step(env, w, Open(h, name, flags)).1.rc == SQLITE_OK <==>
        if Find(w.fs.files, name) < |w.fs.files|
        then flags & 0x04 == 0 || flags & 0x10 == 0
        else env.grants(n) && env.grants(n + 1) && env.grants(n + 2)
  {
  }

  /** `cWrite` succeeds exactly when the data fit or the buffer can grow; a count of -1 is
      reported as success, although nothing is written. */
  lemma WriteSucceedsExactly<H>(env: Env, w: World<H>, h: H, data: seq<byte>, amt: int, ofst: int)
    requires Consistent(w) && Enabled(w, Write(h, data, amt, ofst))
    ensures Step(env, w, Write(h, data, amt, ofst)).1.rc == SQLITE_OK <==>
      amt == -1 || (0 <= amt && 0 <= ofst && (ofst + amt <= |FileOf(w, h).buf| || env.grants(w.fs.calls)))
  {
  }

  /** `cAccess` says exactly whether a file of that name is linked that can be found; names of
      MAX_PATHNAME or more characters never can. */
  lemma AccessIsExact<H>(env: Env, w: World<H>, name: seq<byte>)
    requires Consistent(w) && Enabled(w, Access(name))
    ensures var r := Step(env, w, Access(name)).1;
      && r == Value(SQLITE_OK, r.value) && (r.value == 0 || r.value == 1)
      && (r.value == 1 <==> |name| < MAX_PATHNAME && exists i :: 0 <= i < |w.fs.files| && w.fs.files[i].name == name)
  {
    var k := Find(w.fs.files, name);
    if |name| < MAX_PATHNAME && exists i :: 0 <= i < |w.fs.files| && w.fs.files[i].name == name {
      var i :| 0 <= i < |w.fs.files| && w.fs.files[i].name == name;
      assert Matches(w.fs.files[i], name);
    }
  }
}
