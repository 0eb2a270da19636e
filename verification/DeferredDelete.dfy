/** Deferred deletion over runs: a file deleted while it is open stays until its last handle
    is closed, and no longer. */
module DeferredDelete {
  import opened Base
  import opened FileModel
  import opened VfsModel
  import opened VfsRuns

  /** The file waits for its last handle to be closed. */
  predicate Doomed(s: State, id: nat) {
    Linked(s, id) && Get(s, id).deleteOnClose
  }

  /** `fs_delete` on an open file dooms it, and unlinks nothing. */
  lemma DeleteDooms<H>(w: World<H>, name: seq<byte>, id: nat)
    requires Consistent(w) && Linked(w.fs, id) && id in w.handles.Values
    requires Find(w.fs.files, name) == Loc(w.fs.files, id)
    ensures Doomed(DeleteFile(w.fs, name), id)
  {
    var k := Loc(w.fs.files, id);
    var h :| h in w.handles && w.handles[h] == id;
    RefCountPositive(w.handles, h);
    assert FileConsistent(w.handles, w.fs.files[k]);
    UpdateWellFormed(w.fs, k, w.fs.files[k].(deleteOnClose := true));
    LocIs(DeleteFile(w.fs, name), k, id);
  }

  /** No call takes the flag back, and only the close of the last handle unlinks the file. */
  lemma DoomedStep<H>(env: Env, w: World<H>, op: Op<H>, id: nat)
    requires Consistent(w) && Enabled(w, op) && Doomed(w.fs, id)
    ensures var v := Step(env, w, op).0;
      && (Linked(v.fs, id) ==> Doomed(v.fs, id))
      && (Linked(v.fs, id) <==> !(op.Close? && w.handles[op.h] == id && RefCount(w.handles, id) == 1))
  {
    var k := Loc(w.fs.files, id);
    assert FileConsistent(w.handles, w.fs.files[k]);
    StepContent(env, w, op, id);
    match op
    case Open(h, name, flags) => DoomedOpen(env, w, h, name, flags, id);
    case Close(h) => CloseContent(w.fs, w.handles[h], id);
    case Delete(name) => DeleteContent(w.fs, name, id);
    case Access(_) =>
    case _ =>
      InputContent(env, w, op, id);
      InputStep(env, w, op);
  }

  lemma DoomedOpen<H>(env: Env, w: World<H>, h: H, name: seq<byte>, flags: bv32, id: nat)
    requires Consistent(w) && h !in w.handles && 0 !in name && Doomed(w.fs, id)
    ensures Linked(OpenStep(env, w, h, name, flags).0.fs, id)
  {
    var (t, r) := OpenFile(env, w.fs, name);
    OpenContent(env, w.fs, name, id);
    OpenConsistent(env, w, h, name);
    var m := if r.Some? then w.handles[h := r.value] else w.handles;
    assert FileConsistent(m, t.files[Loc(t.files, id)]);
    DeleteContent(t, name, id);
    var k := Find(t.files, name);
    if k < |t.files| && t.files[k].id == id {
      LocIsFound(t, name, id);
    }
  }

  lemma LocIsFound(s: State, name: seq<byte>, id: nat)
    requires WellFormed(s) && Find(s.files, name) < |s.files| && s.files[Find(s.files, name)].id == id
    ensures Loc(s.files, id) == Find(s.files, name)
  {
    LocAt(s, Find(s.files, name));
  }

  /** Once doomed, a file is linked exactly as long as some handle on it is open: in every
      state of every run, whatever is opened, written or deleted in between. */
  lemma {:induction false} DoomedRun<H>(env: Env, w: World<H>, ops: seq<Op<H>>, id: nat)
    requires Consistent(w) && Runnable(env, w, ops) && Doomed(w.fs, id)
    ensures var v := Run(env, w, ops).0;
      && (Linked(v.fs, id) ==> Doomed(v.fs, id))
      && (Linked(v.fs, id) <==> id in v.handles.Values)
    decreases |ops|
  {
    if ops == [] {
      DoomedHeld(w, id);
    } else {
      StepConsistent(env, w, ops[0]);
      var v := Step(env, w, ops[0]).0;
      DoomedStep(env, w, ops[0], id);
      if Linked(v.fs, id) {
        DoomedRun(env, v, ops[1..], id);
      } else {
        var k := Loc(w.fs.files, id);
        assert w.fs.files[k].id < w.fs.nextId;
        StepContent(env, w, ops[0], id);
        GoneForGood(env, v, ops[1..], id);
        RunConsistent(env, v, ops[1..]);
        Unheld(Run(env, v, ops[1..]).0, id);
      }
    }
  }

  lemma DoomedHeld<H>(w: World<H>, id: nat)
    requires Consistent(w) && Doomed(w.fs, id)
    ensures id in w.handles.Values
  {
    assert FileConsistent(w.handles, w.fs.files[Loc(w.fs.files, id)]);
    var holders := set h <- w.handles | w.handles[h] == id;
    assert RefCount(w.handles, id) == |holders|;
    var h :| h in holders;
  }

  lemma Unheld<H>(w: World<H>, id: nat)
    requires Consistent(w) && !Linked(w.fs, id)
    ensures id !in w.handles.Values
  {
    forall h <- w.handles ensures w.handles[h] != id {
      assert IsOpen(w, h);
    }
  }

  lemma FindIs(s: State, k: nat)
    requires WellFormed(s) && k < |s.files| && |s.files[k].name| < MAX_PATHNAME
    ensures Find(s.files, s.files[k].name) == k
  {
    assert Before(Find(s.files, s.files[k].name), k) || Find(s.files, s.files[k].name) == k;
  }

  /** The close of its last handle unlinks a doomed file, keeps the order of all others, and
      leaves its name free. */
  lemma DoomedEnds<H>(env: Env, w: World<H>, h: H, id: nat)
    requires Consistent(w) && Enabled(w, Close(h)) && Doomed(w.fs, id)
    requires w.handles[h] == id && RefCount(w.handles, id) == 1
    ensures var v, k := Step(env, w, Close(h)).0, Loc(w.fs.files, id);
      && v == World(w.fs.(files := w.fs.files[..k] + w.fs.files[k + 1..], leaked := v.fs.leaked), w.handles - {h})
      && !Linked(v.fs, id) && Find(v.fs.files, w.fs.files[k].name) == |v.fs.files|
  {
    var v, k := Step(env, w, Close(h)).0, Loc(w.fs.files, id);
    assert FileConsistent(w.handles, w.fs.files[k]);
    CloseContent(w.fs, id, id);
    forall j | 0 <= j < |v.fs.files| ensures !Matches(v.fs.files[j], w.fs.files[k].name) {
      var i := if j < k then j else j + 1;
      assert v.fs.files[j] == w.fs.files[i] && (Before(i, k) || Before(k, i));
    }
  }

  /** Opening the name of a doomed file reaches the same file, with its bytes. */
  lemma DoomedShared<H>(env: Env, w: World<H>, h: H, flags: bv32, id: nat)
    requires Consistent(w) && Doomed(w.fs, id) && |Get(w.fs, id).name| < MAX_PATHNAME
    requires Enabled(w, Open(h, Get(w.fs, id).name, flags))
    requires flags & 0x04 == 0 || flags & 0x10 == 0
    ensures var (v, r) := Step(env, w, Open(h, Get(w.fs, id).name, flags));
      && r == Code(SQLITE_OK) && v.handles == w.handles[h := id]
      && Doomed(v.fs, id) && SameContent(Get(w.fs, id), Get(v.fs, id))
  {
    var name := Get(w.fs, id).name;
    FindIs(w.fs, Loc(w.fs.files, id));
    DoomedStep(env, w, Open(h, name, flags), id);
    StepContent(env, w, Open(h, name, flags), id);
  }
}
