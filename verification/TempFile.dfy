/** Temporary files: open with DELETEONCLOSE, use, close. */
module TempFile {
  import opened Base
  import opened CStrings
  import opened FileModel
  import opened VfsModel
  import opened VfsRuns

  /** The world `w` with one more file in front and one handle on it. */
  ghost predicate Extra<H>(w: World<H>, h: H, doomed: bool, v: World<H>) {
    && |v.fs.files| > 0 && v.fs.files[1..] == w.fs.files
    && v.fs.files[0].ref == 1 && v.fs.files[0].deleteOnClose == doomed
    && v.handles == w.handles[h := v.fs.files[0].id]
  }

  /** Opening an absent name creates the file; the flag finds it again only if the name is
      shorter than MAX_PATHNAME. */
  lemma TempOpen<H>(env: Env, w: World<H>, h: H, name: seq<byte>, flags: bv32)
    requires Consistent(w) && Enabled(w, Open(h, name, flags)) && flags & 0x08 != 0
    requires Find(w.fs.files, name) == |w.fs.files|
    requires Step(env, w, Open(h, name, flags)).1.rc == SQLITE_OK
    ensures Extra(w, h, |name| < MAX_PATHNAME, Step(env, w, Open(h, name, flags)).0)
  {
    var (t, r) := OpenFile(env, w.fs, name);
    OpenStepAt(env, w, h, name, flags, t, r);
    OpenAbsent(env, w.fs, name);
    DoomFirst(t, name);
  }

  lemma {:induction false} TempUse<H>(env: Env, w: World<H>, h: H, doomed: bool, v: World<H>, ops: seq<Op<H>>)
    requires Consistent(v) && Runnable(env, v, ops) && Extra(w, h, doomed, v)
    requires forall i :: 0 <= i < |ops| ==> IsInput(ops[i]) && ops[i].h == h
    ensures Extra(w, h, doomed, Run(env, v, ops).0)
    decreases |ops|
  {
    if ops != [] {
      assert Enabled(v, ops[0]);
      StepConsistent(env, v, ops[0]);
      InputStep(env, v, ops[0]);
      LocIs(v.fs, 0, v.fs.files[0].id);
      TempUse(env, w, h, doomed, Step(env, v, ops[0]).0, ops[1..]);
    }
  }

  lemma TempClose<H>(env: Env, w: World<H>, h: H, doomed: bool, v: World<H>)
    requires Consistent(v) && h !in w.handles && Extra(w, h, doomed, v)
    ensures Enabled(v, Close(h))
    ensures var u := Step(env, v, Close(h)).0;
      && u.handles == w.handles && (u.fs.files == w.fs.files <==> doomed)
      && |u.fs.files| == |w.fs.files| + if doomed then 0 else 1
  {
    LocIs(v.fs, 0, v.fs.files[0].id);
    assert Without(v.fs.files, 0) == v.fs.files[1..];
    assert v.handles - {h} == w.handles;
  }

  /** Open an absent name with DELETEONCLOSE, use the file through the handle in any way, and
      close it: handles are as before, and the list of files, with all names, bytes, lengths,
      counts, flags and their order, is as before exactly when the name is shorter than
      MAX_PATHNAME. A longer name leaves its file behind. */
  lemma TempRoundTrip<H>(env: Env, w: World<H>, h: H, name: seq<byte>, flags: bv32, ops: seq<Op<H>>)
    requires Consistent(w) && flags & 0x08 != 0
    requires Find(w.fs.files, name) == |w.fs.files|
    requires forall i :: 0 <= i < |ops| ==> IsInput(ops[i]) && ops[i].h == h
    requires Runnable(env, w, [Open(h, name, flags)] + (ops + [Close(h)]))
    requires Step(env, w, Open(h, name, flags)).1.rc == SQLITE_OK
    ensures var u := Run(env, w, [Open(h, name, flags)] + (ops + [Close(h)])).0;
      && u.handles == w.handles && (u.fs.files == w.fs.files <==> |name| < MAX_PATHNAME)
      && |u.fs.files| == |w.fs.files| + if |name| < MAX_PATHNAME then 0 else 1
  {
    var rest := ops + [Close(h)];
    assert ([Open(h, name, flags)] + rest)[1..] == rest;
    StepConsistent(env, w, Open(h, name, flags));
    TempOpen(env, w, h, name, flags);
    TempRest(env, w, h, |name| < MAX_PATHNAME, Step(env, w, Open(h, name, flags)).0, ops);
  }

  lemma TempRest<H>(env: Env, w: World<H>, h: H, doomed: bool, v: World<H>, ops: seq<Op<H>>)
    requires Consistent(v) && h !in w.handles && Extra(w, h, doomed, v) && Runnable(env, v, ops + [Close(h)])
    requires forall i :: 0 <= i < |ops| ==> IsInput(ops[i]) && ops[i].h == h
    ensures var u := Run(env, v, ops + [Close(h)]).0;
      && u.handles == w.handles && (u.fs.files == w.fs.files <==> doomed)
      && |u.fs.files| == |w.fs.files| + if doomed then 0 else 1
  {
    RunConcat(env, v, ops, [Close(h)]);
    var x := Run(env, v, ops).0;
    TempUse(env, w, h, doomed, v, ops);
    TempClose(env, w, h, doomed, x);
    StepConsistent(env, x, Close(h));
    assert Run(env, x, [Close(h)]).0 == Step(env, x, Close(h)).0;
  }
}
