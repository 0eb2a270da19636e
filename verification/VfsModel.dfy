/** The VFS layer of os_composite_vfs.c over the file system model: open handles, one pure
    step per call, and runs of calls. `H` is the address of a `struct cFile`. */
module VfsModel {
  import opened Base
  import opened FileModel

  /** `handles` gives every open handle the id of the file its `fd` points to. */
  datatype World<H(==)> = World(fs: State, handles: map<H, nat>)

  datatype Op<H> =
    | Open(h: H, name: seq<byte>, flags: bv32)
    | Close(h: H)
    | Read(h: H, amt: int, ofst: int)
    | Write(h: H, data: seq<byte>, amt: int, ofst: int)
    | Truncate(h: H, size: int)
    | FileSize(h: H)
    | FileControl(h: H, code: int, arg: int)
    | Delete(name: seq<byte>)
    | Access(name: seq<byte>)

  /** What the caller sees: a result code, and what was stored through an out pointer. */
  datatype Reply = Code(rc: int) | Bytes(rc: int, data: seq<byte>) | Value(rc: int, value: int)

  function RefCount<H>(handles: map<H, nat>, id: nat): nat {
    |set h <- handles | handles[h] == id|
  }

  /** The handles and the file list agree: every handle's file is linked, every reference
      count is the number of handles, and a file waiting for deletion is still open. */
  ghost predicate Consistent<H>(w: World<H>) {
    match w
    case World(fs, handles) =>
      && WellFormed(fs)
      && (forall h <- handles :: IsOpen(w, h))
      && (forall i :: 0 <= i < |fs.files| ==> FileConsistent(handles, fs.files[i]))
  }

  predicate FileConsistent<H>(handles: map<H, nat>, f: File) {
    f.ref == RefCount(handles, f.id) && (f.deleteOnClose ==> f.ref > 0)
  }

  predicate IsOpen<H>(w: World<H>, h: H) {
    h in w.handles && Linked(w.fs, w.handles[h])
  }

  function FileOf<H>(w: World<H>, h: H): File
    requires IsOpen(w, h)
  {
    Get(w.fs, w.handles[h])
  }

  /** The reads of `cRead` whose zero fill does not start in front of the caller's buffer and
      whose copy stays inside both buffers. */
  predicate ReadInBuffer(f: File, amt: int, ofst: int) {
    -1 <= ReadCount(f, ofst, amt) && CopyInside(f, ofst, amt)
  }

  predicate InInt32(x: int) {
    INT_MIN <= x <= INT_MAX
  }

  predicate InInt64(x: int) {
    INT64_MIN <= x <= INT64_MAX
  }

  /** The calls that C defines: open handles, terminated names, no arithmetic overflow, and
      no access outside the caller's buffers. */
  predicate Enabled<H>(w: World<H>, op: Op<H>) {
    match op
    case Open(h, name, _) => h !in w.handles && 0 !in name
    case Close(h) => IsOpen(w, h)
    case Read(h, amt, ofst) =>
      && IsOpen(w, h) && InInt32(amt) && InInt64(ofst)
      && ReadDefined(FileOf(w, h), ofst, amt) && ReadInBuffer(FileOf(w, h), amt, ofst)
    case Write(h, data, amt, ofst) =>
      IsOpen(w, h) && InInt32(amt) && InInt64(ofst) && amt <= |data| && WriteDefined(FileOf(w, h), ofst, amt)
    case Truncate(h, size) => IsOpen(w, h) && InInt64(size)
    case FileSize(h) => IsOpen(w, h)
    case FileControl(h, code, arg) =>
      IsOpen(w, h) && (code == SQLITE_FCNTL_SIZE_HINT ==> InInt32(arg) && GrowthDefined(|FileOf(w, h).buf|, arg))
    case Delete(name) => 0 !in name
    case Access(name) => 0 !in name
  }

  predicate HasFlag(flags: bv32, flag: bv32) {
    flags & flag != 0
  }

  /** `cOpen`. */
  function OpenStep<H>(env: Env, w: World<H>, h: H, name: seq<byte>, flags: bv32): (World<H>, Reply) {
    if HasFlag(flags, SQLITE_OPEN_CREATE) && HasFlag(flags, SQLITE_OPEN_EXCLUSIVE)
       && Find(w.fs.files, name) < |w.fs.files| then
      (w, Code(SQLITE_IOERR))
    else
      var (t, id) := OpenFile(env, w.fs, name);
      if id == None then (w.(fs := t), Code(SQLITE_IOERR))
      else
        var u := if HasFlag(flags, SQLITE_OPEN_DELETEONCLOSE) then DeleteFile(t, name) else t;
        (World(u, w.handles[h := id.value]), Code(SQLITE_OK))
  }

  lemma OpenStepAt<H>(env: Env, w: World<H>, h: H, name: seq<byte>, flags: bv32, t: State, id: Option<nat>)
    requires OpenFile(env, w.fs, name) == (t, id)
    requires !(HasFlag(flags, SQLITE_OPEN_CREATE) && HasFlag(flags, SQLITE_OPEN_EXCLUSIVE)
               && Find(w.fs.files, name) < |w.fs.files|)
    ensures id == None ==> OpenStep(env, w, h, name, flags) == (w.(fs := t), Code(SQLITE_IOERR))
    ensures id.Some? ==>
      var u := if HasFlag(flags, SQLITE_OPEN_DELETEONCLOSE) then DeleteFile(t, name) else t;
      OpenStep(env, w, h, name, flags) == (World(u, w.handles[h := id.value]), Code(SQLITE_OK))
  {
  }

  /** `cRead`: a read that stops short is filled up with zeros. */
  function ReadReply(f: File, amt: int, ofst: int): (r: Reply)
    requires ReadInBuffer(f, amt, ofst)
    ensures r == Code(SQLITE_IOERR_READ) ||
      (r.Bytes? && (r.rc == SQLITE_OK || r.rc == SQLITE_IOERR_SHORT_READ) && |r.data| == amt)
  {
    var n := ReadCount(f, ofst, amt);
    if n == -1 then Code(SQLITE_IOERR_READ)
    else
      var bytes := if n == 0 then [] else f.buf[ofst..ofst + n];
      if n < amt then Bytes(SQLITE_IOERR_SHORT_READ, bytes + seq(amt - n, _ => 0)) else Bytes(SQLITE_OK, bytes)
  }

  ghost function Step<H>(env: Env, w: World<H>, op: Op<H>): (World<H>, Reply)
    requires Enabled(w, op) && Consistent(w)
  {
    match op
    case Open(h, name, flags) => OpenStep(env, w, h, name, flags)
    case Close(h) => (World(CloseFile(w.fs, w.handles[h]), w.handles - {h}), Code(SQLITE_OK))
    case Read(h, amt, ofst) => (w, ReadReply(FileOf(w, h), amt, ofst))
    case Write(h, data, amt, ofst) =>
      var (t, n) := WriteFile(env, w.fs, w.handles[h], ofst, amt, data);
      (w.(fs := t), Code(if n == amt then SQLITE_OK else SQLITE_IOERR_WRITE))
    case Truncate(h, size) => (w.(fs := TruncateFile(w.fs, w.handles[h], size)), Code(SQLITE_OK))
    case FileSize(h) => (w, Value(SQLITE_OK, FileOf(w, h).len))
    case FileControl(h, code, arg) =>
      if code != SQLITE_FCNTL_SIZE_HINT then (w, Code(SQLITE_NOTFOUND))
      else (w.(fs := SizeHint(env, w.fs, w.handles[h], arg)), Code(SQLITE_OK))
    case Delete(name) => (w.(fs := DeleteFile(w.fs, name)), Code(SQLITE_OK))
    case Access(name) => (w, Value(SQLITE_OK, if Find(w.fs.files, name) < |w.fs.files| then 1 else 0))
  }

  lemma RefCountAdd<H>(handles: map<H, nat>, h: H, id: nat, k: nat)
    requires h !in handles
    ensures RefCount(handles[h := id], k) == RefCount(handles, k) + if k == id then 1 else 0
  {
    var m := handles[h := id];
    var a, b := set g <- handles | handles[g] == k, set g <- m | m[g] == k;
    assert RefCount(m, k) == |b|;
    if k == id {
      assert b == a + {h};
    } else {
      assert b == a;
    }
  }

  lemma RefCountRemove<H>(handles: map<H, nat>, h: H, k: nat)
    requires h in handles
    ensures RefCount(handles - {h}, k) == RefCount(handles, k) - if k == handles[h] then 1 else 0
  {
    var m := handles - {h};
    var a, b := set g <- handles | handles[g] == k, set g <- m | m[g] == k;
    if k == handles[h] {
      assert a == b + {h};
    } else {
      assert a == b;
    }
  }

  lemma RefCountPositive<H>(handles: map<H, nat>, h: H)
    requires h in handles
    ensures RefCount(handles, handles[h]) > 0
  {
    var s := set g <- handles | handles[g] == handles[h];
    assert h in s && RefCount(handles, handles[h]) == |s|;
  }

  lemma LinkedAt(s: State, j: nat)
    requires j < |s.files|
    ensures Linked(s, s.files[j].id)
  {
  }

  /** A change of bytes, length or capacity, and nothing else, keeps the handles right. */
  lemma ContentConsistent<H>(w: World<H>, t: State, k: nat, f: File)
    requires Consistent(w) && k < |w.fs.files| && FileOk(f)
    requires var g := w.fs.files[k]; f == g.(buf := f.buf, len := f.len)
    requires t.files == w.fs.files[k := f] && t.nextId == w.fs.nextId
    ensures Consistent(World(t, w.handles))
  {
    UpdateWellFormed(w.fs, k, f);
    KeepsOpen(w, t, w.handles);
  }

  /** Handles stay open when every linked file stays linked. */
  lemma KeepsOpen<H>(w: World<H>, t: State, handles: map<H, nat>)
    requires forall h <- handles :: h in w.handles && handles[h] == w.handles[h] && IsOpen(w, h)
    requires |t.files| == |w.fs.files| && forall i :: 0 <= i < |t.files| ==> t.files[i].id == w.fs.files[i].id
    ensures forall h <- handles :: IsOpen(World(t, handles), h)
  {
    forall h <- handles ensures IsOpen(World(t, handles), h) {
      LinkedAt(t, Loc(w.fs.files, w.handles[h]));
    }
  }

  lemma DeleteConsistent<H>(w: World<H>, name: seq<byte>)
    requires Consistent(w)
    ensures Consistent(World(DeleteFile(w.fs, name), w.handles))
  {
    var k := Find(w.fs.files, name);
    if k < |w.fs.files| {
      var f, t := w.fs.files[k], DeleteFile(w.fs, name);
      assert FileConsistent(w.handles, f);
      if f.ref == 0 {
        WithoutConsistent(w, k);
      } else {
        UpdateWellFormed(w.fs, k, f.(deleteOnClose := true));
        KeepsOpen(w, t, w.handles);
      }
    }
  }

  /** A file without handles can go. */
  lemma WithoutConsistent<H>(w: World<H>, k: nat)
    requires Consistent(w) && k < |w.fs.files| && w.fs.files[k].ref == 0
    ensures Consistent(World(Discarded(w.fs, k), w.handles))
  {
    var s, t := w.fs, Discarded(w.fs, k);
    WithoutOk(s.files, s.nextId, k);
    assert FileConsistent(w.handles, s.files[k]);
    forall h <- w.handles ensures IsOpen(World(t, w.handles), h) {
      RefCountPositive(w.handles, h);
      assert IsOpen(w, h);
      var i := Loc(s.files, w.handles[h]);
      assert i != k;
      LinkedAt(t, if i < k then i else i - 1);
    }
    assert forall i :: 0 <= i < |t.files| ==> t.files[i] == s.files[if i < k then i else i + 1];
  }

  /** One more reference for one more handle. */
  lemma GrabConsistent<H>(w: World<H>, k: nat, h: H)
    requires Consistent(w) && k < |w.fs.files| && h !in w.handles
    ensures var f := w.fs.files[k];
      Consistent(World(Update(w.fs, k, f.(ref := f.ref + 1)), w.handles[h := f.id]))
  {
    var f := w.fs.files[k];
    var t, m := Update(w.fs, k, f.(ref := f.ref + 1)), w.handles[h := f.id];
    UpdateWellFormed(w.fs, k, f.(ref := f.ref + 1));
    GrabOpen(w, k, h, t);
    forall i | 0 <= i < |t.files| ensures FileConsistent(m, t.files[i]) {
      GrabCounted(w, k, h, i);
    }
  }

  lemma GrabOpen<H>(w: World<H>, k: nat, h: H, t: State)
    requires Consistent(w) && k < |w.fs.files| == |t.files|
    requires forall i :: 0 <= i < |t.files| ==> t.files[i].id == w.fs.files[i].id
    ensures var m := w.handles[h := w.fs.files[k].id];
      forall g <- m :: IsOpen(World(t, m), g)
  {
    var m := w.handles[h := w.fs.files[k].id];
    KeepsOpen(w, t, w.handles);
    LinkedAt(t, k);
    forall g <- m ensures IsOpen(World(t, m), g) {
      assert g != h ==> IsOpen(World(t, w.handles), g);
    }
  }

  lemma GrabCounted<H>(w: World<H>, k: nat, h: H, i: nat)
    requires Consistent(w) && k < |w.fs.files| && i < |w.fs.files| && h !in w.handles
    ensures var f, g := w.fs.files[k], w.fs.files[i];
      FileConsistent(w.handles[h := f.id], if i == k then g.(ref := g.ref + 1) else g)
  {
    RefCountAdd(w.handles, h, w.fs.files[k].id, w.fs.files[i].id);
    assert FileConsistent(w.handles, w.fs.files[i]);
    assert i != k ==> Before(i, k) || Before(k, i);
  }

  /** One reference less for one handle less. */
  lemma DropConsistent<H>(w: World<H>, k: nat, h: H)
    requires Consistent(w) && k < |w.fs.files| && h in w.handles && w.handles[h] == w.fs.files[k].id
    requires !(w.fs.files[k].ref == 1 && w.fs.files[k].deleteOnClose)
    ensures var f := w.fs.files[k];
      Consistent(World(Update(w.fs, k, f.(ref := f.ref - 1)), w.handles - {h}))
  {
    var f := w.fs.files[k];
    var t, m := Update(w.fs, k, f.(ref := f.ref - 1)), w.handles - {h};
    UpdateWellFormed(w.fs, k, f.(ref := f.ref - 1));
    KeepsOpen(w, t, m);
    forall i | 0 <= i < |t.files| ensures FileConsistent(m, t.files[i]) {
      RefCountRemove(w.handles, h, t.files[i].id);
      assert FileConsistent(w.handles, w.fs.files[i]);
      assert i != k ==> Before(i, k) || Before(k, i);
    }
  }

  lemma AllocConsistent<H>(env: Env, w: World<H>, name: seq<byte>)
    requires Consistent(w) && 0 !in name && Find(w.fs.files, name) == |w.fs.files|
    ensures Consistent(World(Alloc(env, w.fs, name).0, w.handles))
  {
    AllocWellFormed(env, w.fs, name);
    var (t, ok) := Alloc(env, w.fs, name);
    var s := w.fs;
    forall h <- w.handles ensures IsOpen(World(t, w.handles), h) {
      assert IsOpen(w, h);
      var i := Loc(s.files, w.handles[h]);
      LinkedAt(t, if ok then i + 1 else i);
    }
    if ok {
      assert RefCount(w.handles, s.nextId) == 0 by {
        forall h <- w.handles ensures w.handles[h] != s.nextId {
          assert IsOpen(w, h);
        }
        assert (set h <- w.handles | w.handles[h] == s.nextId) == {};
      }
      forall i | 0 <= i < |t.files| ensures FileConsistent(w.handles, t.files[i]) {
        if i > 0 {
          assert t.files[i] == s.files[i - 1];
        }
      }
    }
  }

  lemma OpenConsistent<H>(env: Env, w: World<H>, h: H, name: seq<byte>)
    requires Consistent(w) && 0 !in name && h !in w.handles
    ensures var (t, id) := OpenFile(env, w.fs, name);
      Consistent(World(t, if id.Some? then w.handles[h := id.value] else w.handles))
  {
    var (t, k) := FindOrAlloc(env, w.fs, name);
    if Find(w.fs.files, name) == |w.fs.files| {
      AllocConsistent(env, w, name);
    }
    if k.Some? {
      GrabConsistent(World(t, w.handles), k.value, h);
    }
  }

  lemma CloseConsistent<H>(w: World<H>, h: H)
    requires Consistent(w) && h in w.handles
    ensures Consistent(World(CloseFile(w.fs, w.handles[h]), w.handles - {h}))
  {
    assert IsOpen(w, h);
    var k := Loc(w.fs.files, w.handles[h]);
    var f := w.fs.files[k];
    if f.ref == 1 && f.deleteOnClose {
      CloseLast(w, k, h);
    } else {
      DropConsistent(w, k, h);
    }
  }

  /** The last handle of a file goes, and the file with it. */
  lemma CloseLast<H>(w: World<H>, k: nat, h: H)
    requires Consistent(w) && k < |w.fs.files| && h in w.handles && w.handles[h] == w.fs.files[k].id
    requires w.fs.files[k].ref == 1
    ensures Consistent(World(Discarded(w.fs, k), w.handles - {h}))
  {
    var s, t, m := w.fs, Discarded(w.fs, k), w.handles - {h};
    WithoutOk(s.files, s.nextId, k);
    RefCountRemove(w.handles, h, s.files[k].id);
    assert FileConsistent(w.handles, s.files[k]);
    forall g <- m ensures IsOpen(World(t, m), g) {
      RefCountPositive(m, g);
      assert IsOpen(w, g);
      var i := Loc(s.files, m[g]);
      LinkedAt(t, if i < k then i else i - 1);
    }
    forall i | 0 <= i < |t.files| ensures FileConsistent(m, t.files[i]) {
      var j := if i < k then i else i + 1;
      assert t.files[i] == s.files[j];
      OtherConsistent(w, k, h, j);
    }
  }

  /** Closing a handle of the file at position k leaves the counts of other files right. */
  lemma OtherConsistent<H>(w: World<H>, k: nat, h: H, j: nat)
    requires Consistent(w) && k < |w.fs.files| && j < |w.fs.files| && j != k
    requires h in w.handles && w.handles[h] == w.fs.files[k].id
    ensures FileConsistent(w.handles - {h}, w.fs.files[j])
  {
    assert Before(j, k) || Before(k, j);
    assert FileConsistent(w.handles, w.fs.files[j]);
    RefCountRemove(w.handles, h, w.fs.files[j].id);
  }

  lemma GrowConsistent<H>(env: Env, w: World<H>, k: nat, sz: int, t: State)
    requires Consistent(w) && k < |w.fs.files| && t == Grow(env, w.fs, k, sz).0
    requires GrowthDefined(|w.fs.files[k].buf|, sz)
    ensures k < |t.files| && FileOk(t.files[k]) && Consistent(World(t, w.handles))
  {
    ContentConsistent(w, t, k, t.files[k]);
  }

  lemma WriteConsistent<H>(env: Env, w: World<H>, id: nat, offset: int, len: int, data: seq<byte>)
    requires Consistent(w) && Linked(w.fs, id) && len <= |data| && WriteDefined(Get(w.fs, id), offset, len)
    ensures Consistent(World(WriteFile(env, w.fs, id, offset, len, data).0, w.handles))
  {
    if 0 <= offset && 0 <= len {
      var k := Loc(w.fs.files, id);
      var (t, ok) := Grow(env, w.fs, k, offset + len);
      GrowConsistent(env, w, k, offset + len, t);
      WriteAt(env, w.fs, id, offset, len, data, t, ok);
      if ok {
        var f := t.files[k];
        var g := f.(buf := Overlay(f.buf, offset, data[..len]), len := offset + len);
        ContentConsistent(World(t, w.handles), Update(t, k, g), k, g);
      }
    }
  }

  lemma TruncateConsistent<H>(w: World<H>, id: nat, size: int)
    requires Consistent(w) && Linked(w.fs, id) && InInt64(size)
    ensures Consistent(World(TruncateFile(w.fs, id, size), w.handles))
  {
    var k := Loc(w.fs.files, id);
    var t := TruncateFile(w.fs, id, size);
    ContentConsistent(w, t, k, t.files[k]);
  }

  /** Every call keeps handles, reference counts, names and flags in agreement. */
  lemma StepConsistent<H>(env: Env, w: World<H>, op: Op<H>)
    requires Consistent(w) && Enabled(w, op)
    ensures Consistent(Step(env, w, op).0)
  {
    match op
    case Open(h, name, flags) =>
      OpenConsistent(env, w, h, name);
      var (t, id) := OpenFile(env, w.fs, name);
      if id.Some? {
        DeleteConsistent(World(t, w.handles[h := id.value]), name);
      }
    case Close(h) => CloseConsistent(w, h);
    case Write(h, data, amt, ofst) => WriteConsistent(env, w, w.handles[h], ofst, amt, data);
    case Truncate(h, size) => TruncateConsistent(w, w.handles[h], size);
    case FileControl(h, code, arg) =>
      if code == SQLITE_FCNTL_SIZE_HINT {
        GrowConsistent(env, w, Loc(w.fs.files, w.handles[h]), arg, SizeHint(env, w.fs, w.handles[h], arg));
      }
    case Delete(name) => DeleteConsistent(w, name);
    case _ =>
  }

  lemma WriteStepAt<H>(env: Env, w: World<H>, h: H, data: seq<byte>, amt: int, ofst: int, t: State, n: int)
    requires Consistent(w) && Enabled(w, Write(h, data, amt, ofst))
    requires WriteFile(env, w.fs, w.handles[h], ofst, amt, data) == (t, n)
    ensures Consistent(World(t, w.handles))
    ensures Step(env, w, Write(h, data, amt, ofst))
         == (World(t, w.handles), Code(if n == amt then SQLITE_OK else SQLITE_IOERR_WRITE))
  {
    WriteConsistent(env, w, w.handles[h], ofst, amt, data);
  }

  lemma TruncateStepAt<H>(env: Env, w: World<H>, h: H, size: int, t: State)
    requires Consistent(w) && Enabled(w, Truncate(h, size)) && TruncateFile(w.fs, w.handles[h], size) == t
    ensures Consistent(World(t, w.handles))
    ensures Step(env, w, Truncate(h, size)) == (World(t, w.handles), Code(SQLITE_OK))
  {
    TruncateConsistent(w, w.handles[h], size);
  }

  lemma HintStepAt<H>(env: Env, w: World<H>, h: H, arg: int, t: State)
    requires Consistent(w) && Enabled(w, FileControl(h, SQLITE_FCNTL_SIZE_HINT, arg))
    requires SizeHint(env, w.fs, w.handles[h], arg) == t
    ensures Consistent(World(t, w.handles))
    ensures Step(env, w, FileControl(h, SQLITE_FCNTL_SIZE_HINT, arg)) == (World(t, w.handles), Code(SQLITE_OK))
  {
    GrowConsistent(env, w, Loc(w.fs.files, w.handles[h]), arg, t);
  }
}
