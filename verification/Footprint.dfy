/** What the file system's files are charged in `outstanding_memory`, over runs: plain frees take
    nothing back, so the total never falls. */
module Footprint {
  import opened Base
  import opened FileModel
  import opened VfsModel
  import opened VfsRuns

  /** The linked files and all that was freed before. */
  function Total(s: State): nat {
    Charges(s.files) + s.leaked
  }

  /** Unlinking and freeing a file keeps the total. */
  lemma DiscardTotal(s: State, k: nat)
    requires k < |s.files|
    ensures Total(Discarded(s, k)) == Total(s)
  {
    ChargesWithout(s.files, k);
  }

  lemma UpdateTotal(s: State, k: nat, f: File)
    requires k < |s.files| && FileCharge(f) == FileCharge(s.files[k])
    ensures Total(Update(s, k, f)) == Total(s)
  {
    ChargesUpdate(s.files, k, f);
  }

  lemma CloseTotal(s: State, id: nat)
    requires Linked(s, id)
    ensures Total(CloseFile(s, id)) == Total(s)
  {
    var k := Loc(s.files, id);
    DiscardTotal(s, k);
    UpdateTotal(s, k, s.files[k].(ref := s.files[k].ref - 1));
  }

  lemma DeleteTotal(s: State, name: seq<byte>)
    ensures Total(DeleteFile(s, name)) == Total(s)
  {
    var k := Find(s.files, name);
    if k < |s.files| {
      DiscardTotal(s, k);
      UpdateTotal(s, k, s.files[k].(deleteOnClose := true));
    }
  }

  /** Opening a file that exists charges nothing. */
  lemma FoundTotal(env: Env, s: State, name: seq<byte>, k: nat)
    requires k == Find(s.files, name) < |s.files|
    ensures Total(OpenFile(env, s, name).0) == Total(s)
  {
    OpenAt(env, s, name, s, k);
    UpdateTotal(s, k, s.files[k].(ref := s.files[k].ref + 1));
  }

  /** An open that is refused memory leaves charged what was granted before and freed again. */
  lemma RefusedTotal(env: Env, s: State, name: seq<byte>)
    requires WellFormed(s) && 0 !in name && Find(s.files, name) == |s.files|
    requires !(env.grants(s.calls) && env.grants(s.calls + 1) && env.grants(s.calls + 2))
    ensures Total(OpenFile(env, s, name).0) == Total(s) +
      if !env.grants(s.calls) then 0 else if !env.grants(s.calls + 1) then 52 else 52 + 8196
  {
    AllocWellFormed(env, s, name);
  }

  /** A new file is charged for its node, its buffer and its name, with a header each. */
  lemma NewTotal(env: Env, s: State, name: seq<byte>)
    requires WellFormed(s) && 0 !in name && Find(s.files, name) == |s.files|
    requires env.grants(s.calls) && env.grants(s.calls + 1) && env.grants(s.calls + 2)
    ensures Total(OpenFile(env, s, name).0) == Total(s) + 52 + 8196 + 5 + if |name| < 512 then |name| else 512
  {
    AllocWellFormed(env, s, name);
    OpenAt(env, s, name, Alloc(env, s, name).0, 0);
    OpenAbsent(env, s, name);
    var f := NewFile(env, s, name).(ref := 1);
    assert ([f] + s.files)[1..] == s.files;
  }

  /** A change of one file moves the total by the change of its capacity. */
  lemma ChangeTotal(s: State, t: State, k: nat)
    requires k < |s.files| && k < |t.files| && t.files == s.files[k := t.files[k]] && t.leaked == s.leaked
    requires t.files[k].name == s.files[k].name
    ensures Total(t) == Total(s) + |t.files[k].buf| - |s.files[k].buf|
  {
    ChargesUpdate(s.files, k, t.files[k]);
  }

  /** Closing, deleting, and every call that only looks or cuts, leaves the total alone; a write
      or a hint adds the room it gains. */
  lemma StepTotal<H>(env: Env, w: World<H>, op: Op<H>)
    requires Consistent(w) && Enabled(w, op)
    ensures var v := Step(env, w, op).0;
      && (op.Close? || op.Delete? || op.Access? || op.Read? || op.Truncate? || op.FileSize? ==> Total(v.fs) == Total(w.fs))
      && (op.Open? && Step(env, w, op).1.rc == SQLITE_OK && Find(w.fs.files, op.name) < |w.fs.files| ==>
            Total(v.fs) == Total(w.fs))
      && Total(w.fs) <= Total(v.fs)
  {
    match op
    case Open(h, name, flags) => OpenStepTotal(env, w, h, name, flags);
    case Close(h) => CloseTotal(w.fs, w.handles[h]);
    case Delete(name) => DeleteTotal(w.fs, name);
    case Access(_) =>
    case Read(_, _, _) =>
    case FileSize(_) =>
    case Truncate(h, size) => ChangeTotal(w.fs, TruncateFile(w.fs, w.handles[h], size), Loc(w.fs.files, w.handles[h]));
    case Write(h, data, amt, ofst) =>
      WriteEffect(env, w.fs, w.handles[h], ofst, amt, data);
      ChangeTotal(w.fs, WriteFile(env, w.fs, w.handles[h], ofst, amt, data).0, Loc(w.fs.files, w.handles[h]));
    case FileControl(h, _, arg) =>
      GrowEffect(env, w.fs, Loc(w.fs.files, w.handles[h]), arg);
      ChangeTotal(w.fs, SizeHint(env, w.fs, w.handles[h], arg), Loc(w.fs.files, w.handles[h]));
  }

  /** A call through a handle charges exactly the room that its file gains. */
  lemma InputTotal<H>(env: Env, w: World<H>, op: Op<H>)
    requires Consistent(w) && Enabled(w, op) && IsInput(op)
    ensures var v := Step(env, w, op).0;
      IsOpen(v, op.h) && Total(v.fs) == Total(w.fs) + |FileOf(v, op.h).buf| - |FileOf(w, op.h).buf|
  {
    var v, id := Step(env, w, op).0, w.handles[op.h];
    InputContent(env, w, op, id);
    InputStep(env, w, op);
    match op {
      case Write(h, data, amt, ofst) => WriteEffect(env, w.fs, id, ofst, amt, data);
      case FileControl(h, _, arg) => GrowEffect(env, w.fs, Loc(w.fs.files, id), arg);
      case _ =>
    }
    ChangeTotal(w.fs, v.fs, Loc(w.fs.files, id));
  }

  lemma OpenStepTotal<H>(env: Env, w: World<H>, h: H, name: seq<byte>, flags: bv32)
    requires Consistent(w) && 0 !in name
    ensures var v := OpenStep(env, w, h, name, flags).0;
      && Total(w.fs) <= Total(v.fs)
      && (Find(w.fs.files, name) < |w.fs.files| ==> Total(v.fs) == Total(w.fs))
  {
    var (t, id) := OpenFile(env, w.fs, name);
    var n, k := w.fs.calls, Find(w.fs.files, name);
    if k < |w.fs.files| {
      FoundTotal(env, w.fs, name, k);
    } else if env.grants(n) && env.grants(n + 1) && env.grants(n + 2) {
      NewTotal(env, w.fs, name);
    } else {
      RefusedTotal(env, w.fs, name);
    }
    DeleteTotal(t, name);
  }

  /** Over any run the total never falls: no close and no delete lowers `outstanding_memory`. */
  lemma {:induction false} RunTotal<H>(env: Env, w: World<H>, ops: seq<Op<H>>)
    requires Consistent(w) && Runnable(env, w, ops)
    ensures Total(w.fs) <= Total(Run(env, w, ops).0.fs)
    decreases |ops|
  {
    if ops != [] {
      StepConsistent(env, w, ops[0]);
      StepTotal(env, w, ops[0]);
      RunTotal(env, Step(env, w, ops[0]).0, ops[1..]);
    }
  }
}
