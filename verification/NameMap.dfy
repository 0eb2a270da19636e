/** The simple form of the file layer: a map from names to what was last written there. The
    linked list of buffered nodes is proved to refine it, call by call and over whole runs. */
module NameMap {
  import opened Base
  import opened FileModel
  import opened VfsModel
  import opened VfsRuns

  /** `written` holds the last byte written at each position that was ever written. */
  datatype Content = Content(written: map<nat, byte>, len: int, ref: int, pending: bool)

  datatype MapWorld<H(==)> = MapWorld(files: map<seq<byte>, Content>, handles: map<H, seq<byte>>)

  /** A reply in which a byte nobody wrote is left open. */
  datatype MapReply = Status(rc: int) | Slice(rc: int, data: seq<Option<byte>>) | Number(rc: int, value: int)

  predicate Bound<H>(m: MapWorld<H>, h: H) {
    h in m.handles && m.handles[h] in m.files
  }

  predicate MapEnabled<H>(m: MapWorld<H>, op: Op<H>) {
    match op
    case Open(_, _, _) => true
    case Delete(_) => true
    case Access(_) => true
    case Close(h) => Bound(m, h)
    case Read(h, amt, ofst) => Bound(m, h) && -1 <= Count(m.files[m.handles[h]].len, ofst, amt) <= Max(amt, 0)
    case Write(h, data, amt, _) => Bound(m, h) && amt <= |data|
    case Truncate(h, _) => Bound(m, h)
    case FileSize(h) => Bound(m, h)
    case FileControl(h, _, _) => Bound(m, h)
  }

  function MapDelete(files: map<seq<byte>, Content>, name: seq<byte>): map<seq<byte>, Content> {
    if name !in files then files
    else if files[name].ref == 0 then files - {name}
    else files[name := files[name].(pending := true)]
  }

  function Opened(files: map<seq<byte>, Content>, name: seq<byte>): map<seq<byte>, Content> {
    var c := if name in files then files[name] else Content(map[], 0, 0, false);
    files[name := c.(ref := c.ref + 1)]
  }

  function MapOpen<H>(m: MapWorld<H>, h: H, name: seq<byte>, flags: bv32, granted: bool): (MapWorld<H>, MapReply) {
    if flags & 0x04 != 0 && flags & 0x10 != 0 && name in m.files then
      (m, Status(SQLITE_IOERR))
    else if name !in m.files && !granted then (m, Status(SQLITE_IOERR))
    else
      var files := Opened(m.files, name);
      (MapWorld(if flags & 0x08 != 0 then MapDelete(files, name) else files,
                m.handles[h := name]), Status(SQLITE_OK))
  }

  function MapClose<H>(m: MapWorld<H>, h: H): MapWorld<H>
    requires Bound(m, h)
  {
    var name := m.handles[h];
    var c := m.files[name].(ref := m.files[name].ref - 1);
    MapWorld(if c.ref == 0 && c.pending then m.files - {name} else m.files[name := c], m.handles - {h})
  }

  function WrittenAt(c: Content, p: int): Option<byte> {
    if p >= 0 && p in c.written then Some(c.written[p]) else None
  }

  function MapRead(c: Content, amt: int, ofst: int): MapReply {
    var n := Count(c.len, ofst, amt);
    if amt < 0 || n < 0 then Status(SQLITE_IOERR_READ)
    else
      Slice(if n < amt then SQLITE_IOERR_SHORT_READ else SQLITE_OK,
            seq(amt, i requires 0 <= i => if i < n then WrittenAt(c, ofst + i) else Some(0)))
  }

  /** The map after writing `data` from `offset` on. */
  function Put(written: map<nat, byte>, offset: nat, data: seq<byte>): (r: map<nat, byte>)
    ensures forall p: nat :: p in r <==> p in written || offset <= p < offset + |data|
    ensures forall p <- r :: r[p] == if offset <= p < offset + |data| then data[p - offset] else written[p]
  {
    if data == [] then written
    else
      var n := |data| - 1;
      Put(written, offset, data[..n])[offset + n := data[n]]
  }

  function MapWrite(c: Content, data: seq<byte>, amt: int, ofst: int, granted: bool): (Content, MapReply)
    requires amt <= |data|
  {
    if amt == -1 then (c, Status(SQLITE_OK))
    else if amt < 0 || ofst < 0 || !granted then (c, Status(SQLITE_IOERR_WRITE))
    else
      (c.(written := Put(c.written, ofst, data[..amt]), len := ofst + amt), Status(SQLITE_OK))
  }

  /** One call on the map. `granted` says whether the memory it may need is available. */
  function MapStep<H>(m: MapWorld<H>, op: Op<H>, granted: bool): (MapWorld<H>, MapReply)
    requires MapEnabled(m, op)
  {
    match op
    case Open(h, name, flags) => MapOpen(m, h, name, flags, granted)
    case Close(h) => (MapClose(m, h), Status(SQLITE_OK))
    case Read(h, amt, ofst) => (m, MapRead(m.files[m.handles[h]], amt, ofst))
    case Write(h, data, amt, ofst) =>
      var (c, r) := MapWrite(m.files[m.handles[h]], data, amt, ofst, granted);
      (m.(files := m.files[m.handles[h] := c]), r)
    case Truncate(h, size) =>
      var c := m.files[m.handles[h]];
      (m.(files := m.files[m.handles[h] := c.(len := if size < c.len then size else c.len)]), Status(SQLITE_OK))
    case FileSize(h) => (m, Number(SQLITE_OK, m.files[m.handles[h]].len))
    case FileControl(_, code, _) => (m, Status(if code == SQLITE_FCNTL_SIZE_HINT then SQLITE_OK else SQLITE_NOTFOUND))
    case Delete(name) => (m.(files := MapDelete(m.files, name)), Status(SQLITE_OK))
    case Access(name) => (m, Number(SQLITE_OK, if name in m.files then 1 else 0))
  }

  // ---- The relation ----

  predicate Represents(f: File, c: Content) {
    && f.len == c.len && f.ref == c.ref && f.deleteOnClose == c.pending
    && forall p <- c.written :: p < |f.buf| && f.buf[p] == c.written[p]
  }

  function Names(files: seq<File>): set<seq<byte>> {
    if files == [] then {} else {files[0].name} + Names(files[1..])
  }

  lemma {:induction false} NamesAt(files: seq<File>, k: nat)
    requires k < |files|
    ensures files[k].name in Names(files)
  {
    if k > 0 {
      NamesAt(files[1..], k - 1);
    }
  }

  lemma {:induction false} NamedBy(files: seq<File>, name: seq<byte>) returns (k: nat)
    requires name in Names(files)
    ensures k < |files| && files[k].name == name
  {
    if files[0].name == name {
      k := 0;
    } else {
      k := NamedBy(files[1..], name);
      k := k + 1;
    }
  }

  lemma {:induction false} NotNamed(files: seq<File>, name: seq<byte>)
    requires forall i :: 0 <= i < |files| ==> files[i].name != name
    ensures name !in Names(files)
  {
    if files != [] {
      NotNamed(files[1..], name);
    }
  }

  lemma {:induction false} NamesUpdate(files: seq<File>, k: nat, f: File)
    requires k < |files| && f.name == files[k].name
    ensures Names(files[k := f]) == Names(files)
  {
    if k == 0 {
      assert files[k := f][1..] == files[1..];
    } else {
      NamesUpdate(files[1..], k - 1, f);
      assert files[k := f][1..] == files[1..][k - 1 := f];
    }
  }

  lemma {:induction false} NamesWithout(files: seq<File>, k: nat)
    requires k < |files|
    requires forall i :: 0 <= i < |files| && i != k ==> files[i].name != files[k].name
    ensures Names(Without(files, k)) == Names(files) - {files[k].name}
  {
    if k == 0 {
      assert Without(files, k) == files[1..];
      NotNamed(files[1..], files[0].name);
    } else {
      NamesWithout(files[1..], k - 1);
      assert Without(files, k) == [files[0]] + Without(files[1..], k - 1);
    }
  }

  /** The list and the map hold the same names, all of them short enough to be found. */
  ghost predicate SameFiles(files: seq<File>, m: map<seq<byte>, Content>) {
    && (forall i :: 0 <= i < |files| ==>
          |files[i].name| < MAX_PATHNAME && files[i].name in m && Represents(files[i], m[files[i].name]))
    && m.Keys == Names(files)
  }

  ghost predicate Refines<H>(w: World<H>, m: MapWorld<H>) {
    && SameFiles(w.fs.files, m.files)
    && m.handles.Keys == w.handles.Keys
    && (forall h <- w.handles :: IsOpen(w, h) && m.handles[h] == FileOf(w, h).name)
  }

  /** The replies agree, except for bytes that the map leaves open. */
  predicate SameReply(r: Reply, s: MapReply) {
    match s
    case Status(rc) => r == Code(rc)
    case Number(rc, value) => r == Value(rc, value)
    case Slice(rc, data) =>
      r.Bytes? && r.rc == rc && |r.data| == |data| && forall i :: 0 <= i < |data| && data[i].Some? ==> r.data[i] == data[i].value
  }

  /** Whether the memory that a call may need is granted. */
  predicate Granted<H>(env: Env, w: World<H>, op: Op<H>) {
    match op
    case Open(_, _, _) => env.grants(w.fs.calls) && env.grants(w.fs.calls + 1) && env.grants(w.fs.calls + 2)
    case Write(h, _, amt, ofst) => IsOpen(w, h) && (ofst + amt <= |FileOf(w, h).buf| || env.grants(w.fs.calls))
    case _ => true
  }

  predicate ShortName<H>(op: Op<H>) {
    op.Open? || op.Delete? || op.Access? ==> |op.name| < MAX_PATHNAME
  }

  lemma FindInMap(files: seq<File>, m: map<seq<byte>, Content>, name: seq<byte>)
    requires SameFiles(files, m)
    ensures Find(files, name) < |files| <==> name in m
  {
    if name in m {
      var i := NamedBy(files, name);
      assert Matches(files[i], name);
    }
  }

  lemma UpdateSame(files: seq<File>, nextId: nat, m: map<seq<byte>, Content>, k: nat, f: File, c: Content)
    requires FilesOk(files, nextId) && SameFiles(files, m) && k < |files|
    requires f.name == files[k].name && Represents(f, c)
    ensures SameFiles(files[k := f], m[f.name := c])
  {
    var gs, n := files[k := f], m[f.name := c];
    NamesUpdate(files, k, f);
    NamesAt(files, k);
    forall i | 0 <= i < |gs| ensures gs[i].name in n && Represents(gs[i], n[gs[i].name]) {
      assert i != k ==> Before(i, k) || Before(k, i);
    }
  }

  lemma WithoutSame(files: seq<File>, nextId: nat, m: map<seq<byte>, Content>, k: nat)
    requires FilesOk(files, nextId) && SameFiles(files, m) && k < |files|
    ensures SameFiles(Without(files, k), m - {files[k].name})
  {
    var gs, n := Without(files, k), m - {files[k].name};
    forall i | 0 <= i < |files| && i != k ensures files[i].name != files[k].name {
      assert Before(i, k) || Before(k, i);
    }
    NamesWithout(files, k);
    forall i | 0 <= i < |gs|
      ensures |gs[i].name| < MAX_PATHNAME && gs[i].name in n && Represents(gs[i], n[gs[i].name])
    {
      assert gs[i] == files[if i < k then i else i + 1];
    }
  }

  lemma PrependSame(files: seq<File>, m: map<seq<byte>, Content>, f: File, c: Content)
    requires SameFiles(files, m) && |f.name| < MAX_PATHNAME && f.name !in m && Represents(f, c)
    ensures SameFiles([f] + files, m[f.name := c])
  {
    var gs, n := [f] + files, m[f.name := c];
    forall i | 0 <= i < |gs|
      ensures |gs[i].name| < MAX_PATHNAME && gs[i].name in n && Represents(gs[i], n[gs[i].name])
    {
      if i > 0 {
        assert gs[i] == files[i - 1];
      }
    }
    assert gs[1..] == files;
  }

  predicate AllOpen<H>(w: World<H>) {
    forall h <- w.handles :: IsOpen(w, h)
  }

  /** Handles still agree after a call that keeps names: those that were open, and at most
      one new one. */
  lemma HandlesKept<H>(w: World<H>, m: MapWorld<H>, v: World<H>, n: MapWorld<H>)
    requires Refines(w, m) && AllOpen(v) && SameFiles(v.fs.files, n.files)
    requires n.handles.Keys == v.handles.Keys
    requires forall h <- v.handles ::
      if h in w.handles && v.handles[h] == w.handles[h]
      then n.handles[h] == m.handles[h] && KeepsContent(w.fs, v.fs, w.handles[h])
      else IsOpen(v, h) && n.handles[h] == FileOf(v, h).name
    ensures Refines(v, n)
  {
    forall h <- v.handles ensures IsOpen(v, h) && n.handles[h] == FileOf(v, h).name {
      assert IsOpen(v, h);
      if h in w.handles && v.handles[h] == w.handles[h] {
        assert IsOpen(w, h);
      }
    }
  }

  lemma DeleteSame(s: State, m: map<seq<byte>, Content>, name: seq<byte>)
    requires WellFormed(s) && SameFiles(s.files, m)
    ensures SameFiles(DeleteFile(s, name).files, MapDelete(m, name))
  {
    FindInMap(s.files, m, name);
    var k := Find(s.files, name);
    if k < |s.files| {
      if s.files[k].ref == 0 {
        WithoutSame(s.files, s.nextId, m, k);
      } else {
        UpdateSame(s.files, s.nextId, m, k, s.files[k].(deleteOnClose := true), m[name].(pending := true));
      }
    }
  }

  lemma OpenSame(env: Env, s: State, m: map<seq<byte>, Content>, name: seq<byte>)
    requires WellFormed(s) && SameFiles(s.files, m) && 0 !in name && |name| < MAX_PATHNAME
    ensures var (t, r) := OpenFile(env, s, name);
      && (r.Some? <==> name in m || (env.grants(s.calls) && env.grants(s.calls + 1) && env.grants(s.calls + 2)))
      && (r == None ==> t.files == s.files)
      && (r.Some? ==>
            && WellFormed(t) && SameFiles(t.files, Opened(m, name))
            && Linked(t, r.value) && Get(t, r.value).name == name)
  {
    FindInMap(s.files, m, name);
    OpenWellFormed(env, s, name);
    if name in m {
      OpenFound(env, s, m, name);
    } else if OpenFile(env, s, name).1.Some? {
      OpenNew(env, s, m, name);
    }
  }

  lemma OpenFound(env: Env, s: State, m: map<seq<byte>, Content>, name: seq<byte>)
    requires WellFormed(s) && SameFiles(s.files, m) && Find(s.files, name) < |s.files|
    ensures var (t, r) := OpenFile(env, s, name);
      r.Some? && SameFiles(t.files, Opened(m, name)) && Linked(t, r.value) && Get(t, r.value).name == name
  {
    var k := Find(s.files, name);
    var f := s.files[k];
    var t := Update(s, k, f.(ref := f.ref + 1));
    OpenAt(env, s, name, s, k);
    UpdateSame(s.files, s.nextId, m, k, f.(ref := f.ref + 1), m[name].(ref := f.ref + 1));
    UpdateWellFormed(s, k, f.(ref := f.ref + 1));
    LocIs(t, k, f.id);
  }

  lemma OpenNew(env: Env, s: State, m: map<seq<byte>, Content>, name: seq<byte>)
    requires WellFormed(s) && SameFiles(s.files, m) && 0 !in name && |name| < MAX_PATHNAME
    requires name !in m && Find(s.files, name) == |s.files| && OpenFile(env, s, name).1.Some?
    ensures var (t, r) := OpenFile(env, s, name);
      SameFiles(t.files, Opened(m, name)) && Linked(t, r.value) && Get(t, r.value).name == name
  {
    var f := NewFile(env, s, name).(ref := 1);
    OpenAbsent(env, s, name);
    OpenWellFormed(env, s, name);
    PrependSame(s.files, m, f, Content(map[], 0, 1, false));
    LocIs(OpenFile(env, s, name).0, 0, f.id);
  }

  lemma OpenWellFormed(env: Env, s: State, name: seq<byte>)
    requires WellFormed(s) && 0 !in name
    ensures WellFormed(OpenFile(env, s, name).0)
  {
    OpenContent(env, s, name, 0);
  }

  lemma CloseSame(s: State, m: map<seq<byte>, Content>, id: nat)
    requires WellFormed(s) && SameFiles(s.files, m) && Linked(s, id)
    ensures var f := Get(s, id);
      var c := m[f.name].(ref := m[f.name].ref - 1);
      SameFiles(CloseFile(s, id).files, if c.ref == 0 && c.pending then m - {f.name} else m[f.name := c])
  {
    var k := Loc(s.files, id);
    var f := s.files[k];
    WithoutSame(s.files, s.nextId, m, k);
    UpdateSame(s.files, s.nextId, m, k, f.(ref := f.ref - 1), m[f.name].(ref := f.ref - 1));
  }

  lemma WriteSame(env: Env, s: State, m: map<seq<byte>, Content>, id: nat, ofst: int, amt: int, data: seq<byte>)
    requires WellFormed(s) && SameFiles(s.files, m) && Linked(s, id) && amt <= |data|
    ensures var (t, n) := WriteFile(env, s, id, ofst, amt, data);
      var f := Get(s, id);
      var granted := ofst + amt <= |f.buf| || env.grants(s.calls);
      var (c, r) := MapWrite(m[f.name], data, amt, ofst, granted);
      && SameFiles(t.files, m[f.name := c])
      && r == Status(if n == amt then SQLITE_OK else SQLITE_IOERR_WRITE)
  {
    var k := Loc(s.files, id);
    var f := s.files[k];
    var (t, n) := WriteFile(env, s, id, ofst, amt, data);
    WriteEffect(env, s, id, ofst, amt, data);
    var granted := ofst + amt <= |f.buf| || env.grants(s.calls);
    var (c, r) := MapWrite(m[f.name], data, amt, ofst, granted);
    assert (n == -1) == (amt < 0 || ofst < 0 || !granted);
    if n == -1 {
      assert c == m[f.name] && m[f.name := c] == m;
    } else {
      PutRepresented(f, t.files[k], m[f.name], ofst, data[..amt]);
      UpdateSame(s.files, s.nextId, m, k, t.files[k], c);
    }
  }

  /** The bytes that were written, and the old ones where nothing was, make up the new map. */
  lemma PutRepresented(f: File, g: File, c: Content, ofst: nat, data: seq<byte>)
    requires Represents(f, c) && g == f.(buf := g.buf, len := ofst + |data|)
    requires |f.buf| <= |g.buf| && ofst + |data| <= |g.buf|
    requires forall p :: ofst <= p < ofst + |data| ==> g.buf[p] == data[p - ofst]
    requires forall p :: 0 <= p < |f.buf| && !(ofst <= p < ofst + |data|) ==> g.buf[p] == f.buf[p]
    ensures Represents(g, c.(written := Put(c.written, ofst, data), len := ofst + |data|))
  {
  }

  lemma ReadSame(f: File, c: Content, amt: int, ofst: int)
    requires Represents(f, c) && ReadInBuffer(f, amt, ofst)
    ensures SameReply(ReadReply(f, amt, ofst), MapRead(c, amt, ofst))
  {
    var r, s := ReadReply(f, amt, ofst), MapRead(c, amt, ofst);
    if s.Slice? {
      assert r.Bytes? && r.rc == s.rc && |r.data| == amt == |s.data|;
      forall i | 0 <= i < amt && s.data[i].Some? ensures r.data[i] == s.data[i].value {
        var n := ReadCount(f, ofst, amt);
        assert s.data[i] == if i < n then WrittenAt(c, ofst + i) else Some(0);
        if i < n {
          assert r.data[i] == f.buf[ofst..ofst + n][i] == f.buf[ofst + i];
          assert ofst + i in c.written;
        } else {
          assert r.data[i] == 0;
        }
      }
    } else {
      assert ReadCount(f, ofst, amt) == -1;
    }
  }

  /** Refinement of one call: the map takes the same step, with the same reply. */
  lemma StepRefines<H>(env: Env, w: World<H>, m: MapWorld<H>, op: Op<H>)
    requires Consistent(w) && Enabled(w, op) && Refines(w, m) && ShortName(op)
    ensures MapEnabled(m, op)
    ensures var (v, r) := Step(env, w, op);
      var (n, s) := MapStep(m, op, Granted(env, w, op));
      Refines(v, n) && SameReply(r, s)
  {
    match op
    case Open(h, name, flags) => OpenRefines(env, w, m, h, name, flags);
    case Close(h) => StepConsistent(env, w, op); CloseRefines(env, w, m, h);
    case Delete(name) => StepConsistent(env, w, op); DeleteRefines(env, w, m, name);
    case Access(name) => FindInMap(w.fs.files, m.files, name);
    case _ => InputRefines(env, w, m, op);
  }

  lemma InputRefines<H>(env: Env, w: World<H>, m: MapWorld<H>, op: Op<H>)
    requires Consistent(w) && Enabled(w, op) && Refines(w, m) && IsInput(op)
    ensures MapEnabled(m, op)
    ensures var (v, r) := Step(env, w, op);
      var (n, s) := MapStep(m, op, Granted(env, w, op));
      Refines(v, n) && SameReply(r, s)
  {
    EnabledInMap(w, m, op);
    match op
    case Read(h, amt, ofst) => ReadRefines(env, w, m, h, amt, ofst);
    case Write(h, data, amt, ofst) => WriteRefines(env, w, m, h, data, amt, ofst);
    case Truncate(h, size) => CutRefines(env, w, m, h, size);
    case FileSize(h) =>
    case FileControl(h, code, arg) => ControlRefines(env, w, m, h, code, arg);
  }

  lemma EnabledInMap<H>(w: World<H>, m: MapWorld<H>, op: Op<H>)
    requires Consistent(w) && Enabled(w, op) && Refines(w, m) && IsInput(op)
    ensures MapEnabled(m, op) && Represents(FileOf(w, op.h), m.files[m.handles[op.h]])
  {
    var f := FileOf(w, op.h);
    assert m.handles[op.h] == f.name && Represents(f, m.files[f.name]);
  }

  lemma ReadRefines<H>(env: Env, w: World<H>, m: MapWorld<H>, h: H, amt: int, ofst: int)
    requires Consistent(w) && Enabled(w, Read(h, amt, ofst)) && Refines(w, m)
    ensures MapEnabled(m, Read(h, amt, ofst))
    ensures SameReply(Step(env, w, Read(h, amt, ofst)).1, MapRead(m.files[m.handles[h]], amt, ofst))
  {
    assert Represents(FileOf(w, h), m.files[m.handles[h]]);
    ReadSame(FileOf(w, h), m.files[m.handles[h]], amt, ofst);
  }

  lemma CutRefines<H>(env: Env, w: World<H>, m: MapWorld<H>, h: H, size: int)
    requires Consistent(w) && Enabled(w, Truncate(h, size)) && Refines(w, m)
    ensures Step(env, w, Truncate(h, size)).1 == Code(SQLITE_OK)
    ensures Refines(Step(env, w, Truncate(h, size)).0, MapStep(m, Truncate(h, size), true).0)
  {
    TruncateStepAt(env, w, h, size, TruncateFile(w.fs, w.handles[h], size));
    EnabledInMap(w, m, Truncate(h, size));
    MapCutAt(m, h, size);
    TruncateRefines(w, m, h, size);
  }

  lemma MapCutAt<H>(m: MapWorld<H>, h: H, size: int)
    requires Bound(m, h)
    ensures var c := m.files[m.handles[h]];
      MapStep(m, Truncate(h, size), true)
        == (m.(files := m.files[m.handles[h] := c.(len := if size < c.len then size else c.len)]), Status(SQLITE_OK))
  {
  }

  lemma ControlRefines<H>(env: Env, w: World<H>, m: MapWorld<H>, h: H, code: int, arg: int)
    requires Consistent(w) && Enabled(w, FileControl(h, code, arg)) && Refines(w, m)
    ensures var (v, r) := Step(env, w, FileControl(h, code, arg));
      Refines(v, m) && r == Code(if code == SQLITE_FCNTL_SIZE_HINT then SQLITE_OK else SQLITE_NOTFOUND)
  {
    if code == SQLITE_FCNTL_SIZE_HINT {
      StepConsistent(env, w, FileControl(h, code, arg));
      HintRefines(env, w, m, h, arg);
    }
  }

  lemma OpenRefines<H>(env: Env, w: World<H>, m: MapWorld<H>, h: H, name: seq<byte>, flags: bv32)
    requires Consistent(w) && Refines(w, m) && h !in w.handles && 0 !in name && |name| < MAX_PATHNAME
    ensures var (v, r) := OpenStep(env, w, h, name, flags);
      var (n, s) := MapOpen(m, h, name, flags, Granted(env, w, Open(h, name, flags)));
      Refines(v, n) && SameReply(r, s)
  {
    var (t, id) := OpenFile(env, w.fs, name);
    FindInMap(w.fs.files, m.files, name);
    OpenSame(env, w.fs, m.files, name);
    if !(flags & 0x04 != 0 && flags & 0x10 != 0 && name in m.files) {
      OpenStepAt(env, w, h, name, flags, t, id);
      if id.Some? {
        MapOpenAt(m, h, name, flags, Granted(env, w, Open(h, name, flags)));
        OpenedRefines(env, w, m, h, name, t, id.value, Opened(m.files, name), flags);
      } else {
        SameFilesRefine(w, m, t);
      }
    }
  }

  lemma MapOpenAt<H>(m: MapWorld<H>, h: H, name: seq<byte>, flags: bv32, granted: bool)
    requires !(flags & 0x04 != 0 && flags & 0x10 != 0 && name in m.files)
    requires name in m.files || granted
    ensures var files := Opened(m.files, name);
      MapOpen(m, h, name, flags, granted)
        == (MapWorld(if flags & 0x08 != 0 then MapDelete(files, name) else files,
                     m.handles[h := name]), Status(SQLITE_OK))
  {
  }

  lemma SameFilesRefine<H>(w: World<H>, m: MapWorld<H>, t: State)
    requires Refines(w, m) && t.files == w.fs.files
    ensures Refines(w.(fs := t), m)
  {
    assert forall h <- w.handles :: IsOpen(w, h) ==> IsOpen(w.(fs := t), h);
  }

  lemma OpenedRefines<H>(env: Env, w: World<H>, m: MapWorld<H>, h: H, name: seq<byte>, t: State, id: nat,
                         files: map<seq<byte>, Content>, flags: bv32)
    requires Consistent(w) && Refines(w, m) && h !in w.handles && 0 !in name
    requires OpenFile(env, w.fs, name) == (t, Some(id)) && SameFiles(t.files, files)
    requires Linked(t, id) && Get(t, id).name == name
    ensures var v, n := World(t, w.handles[h := id]), MapWorld(files, m.handles[h := name]);
      if flags & 0x08 != 0
      then Refines(v.(fs := DeleteFile(t, name)), n.(files := MapDelete(files, name)))
      else Refines(v, n)
  {
    var v, n := World(t, w.handles[h := id]), MapWorld(files, m.handles[h := name]);
    BoundRefines(env, w, m, h, name, t, id, files);
    DeleteConsistent(v, name);
    DeleteRefines(env, v, n, name);
  }

  /** The new handle, before a DELETEONCLOSE flag is looked at. */
  lemma BoundRefines<H>(env: Env, w: World<H>, m: MapWorld<H>, h: H, name: seq<byte>, t: State, id: nat,
                        files: map<seq<byte>, Content>)
    requires Consistent(w) && Refines(w, m) && h !in w.handles && 0 !in name
    requires OpenFile(env, w.fs, name) == (t, Some(id)) && SameFiles(t.files, files)
    requires Linked(t, id) && Get(t, id).name == name
    ensures var v, n := World(t, w.handles[h := id]), MapWorld(files, m.handles[h := name]);
      Consistent(v) && Refines(v, n)
  {
    OpenConsistent(env, w, h, name);
    forall g <- w.handles ensures KeepsContent(w.fs, t, w.handles[g]) {
      OpenContent(env, w.fs, name, w.handles[g]);
    }
    OneMoreHandle(w, m, h, id, t, files);
  }

  lemma CloseRefines<H>(env: Env, w: World<H>, m: MapWorld<H>, h: H)
    requires Consistent(w) && Refines(w, m) && IsOpen(w, h)
    requires AllOpen(World(CloseFile(w.fs, w.handles[h]), w.handles - {h}))
    ensures Bound(m, h)
    ensures Refines(World(CloseFile(w.fs, w.handles[h]), w.handles - {h}), MapClose(m, h))
  {
    var t := CloseFile(w.fs, w.handles[h]);
    CloseSame(w.fs, m.files, w.handles[h]);
    forall g <- w.handles ensures KeepsContent(w.fs, t, w.handles[g]) {
      CloseContent(w.fs, w.handles[h], w.handles[g]);
    }
    FewerHandles(w, m, h, t, MapClose(m, h).files);
  }

  lemma FewerHandles<H>(w: World<H>, m: MapWorld<H>, h: H, t: State, files: map<seq<byte>, Content>)
    requires Refines(w, m) && SameFiles(t.files, files) && AllOpen(World(t, w.handles - {h}))
    requires forall g <- w.handles :: KeepsContent(w.fs, t, w.handles[g])
    ensures Refines(World(t, w.handles - {h}), MapWorld(files, m.handles - {h}))
  {
    HandlesKept(w, m, World(t, w.handles - {h}), MapWorld(files, m.handles - {h}));
  }

  lemma OneMoreHandle<H>(w: World<H>, m: MapWorld<H>, h: H, id: nat, t: State, files: map<seq<byte>, Content>)
    requires Refines(w, m) && SameFiles(t.files, files) && AllOpen(World(t, w.handles[h := id])) && h !in w.handles
    requires forall g <- w.handles :: KeepsContent(w.fs, t, w.handles[g])
    requires Linked(t, id)
    ensures Refines(World(t, w.handles[h := id]), MapWorld(files, m.handles[h := Get(t, id).name]))
  {
    HandlesKept(w, m, World(t, w.handles[h := id]), MapWorld(files, m.handles[h := Get(t, id).name]));
  }

  lemma DeleteRefines<H>(env: Env, w: World<H>, m: MapWorld<H>, name: seq<byte>)
    requires Consistent(w) && Refines(w, m) && AllOpen(World(DeleteFile(w.fs, name), w.handles))
    ensures Refines(World(DeleteFile(w.fs, name), w.handles), m.(files := MapDelete(m.files, name)))
  {
    var v := World(DeleteFile(w.fs, name), w.handles);
    DeleteSame(w.fs, m.files, name);
    forall g <- v.handles ensures KeepsContent(w.fs, v.fs, w.handles[g]) {
      DeleteContent(w.fs, name, w.handles[g]);
    }
    HandlesKept(w, m, v, m.(files := MapDelete(m.files, name)));
  }

  /** A change of one file that keeps its name, seen through all handles. */
  lemma ChangeRefines<H>(w: World<H>, m: MapWorld<H>, t: State, k: nat, files: map<seq<byte>, Content>)
    requires Consistent(w) && Refines(w, m) && k < |w.fs.files| == |t.files|
    requires t.files == w.fs.files[k := t.files[k]] && SameFiles(t.files, files)
    requires t.files[k].id == w.fs.files[k].id && t.files[k].name == w.fs.files[k].name
    requires WellFormed(t)
    ensures Refines(World(t, w.handles), m.(files := files))
  {
    var v := World(t, w.handles);
    forall g <- w.handles ensures IsOpen(v, g) && m.handles[g] == FileOf(v, g).name {
      assert IsOpen(w, g);
      LocIs(t, Loc(w.fs.files, w.handles[g]), w.handles[g]);
    }
  }

  lemma WriteRefines<H>(env: Env, w: World<H>, m: MapWorld<H>, h: H, data: seq<byte>, amt: int, ofst: int)
    requires Consistent(w) && Enabled(w, Write(h, data, amt, ofst)) && Refines(w, m)
    ensures var (v, r) := Step(env, w, Write(h, data, amt, ofst));
      var (n, s) := MapStep(m, Write(h, data, amt, ofst), Granted(env, w, Write(h, data, amt, ofst)));
      Refines(v, n) && SameReply(r, s)
  {
    var id, name := w.handles[h], FileOf(w, h).name;
    var (t, n) := WriteFile(env, w.fs, id, ofst, amt, data);
    var (c, r) := MapWrite(m.files[name], data, amt, ofst, Granted(env, w, Write(h, data, amt, ofst)));
    WriteStepAt(env, w, h, data, amt, ofst, t, n);
    WriteSame(env, w.fs, m.files, id, ofst, amt, data);
    WriteEffect(env, w.fs, id, ofst, amt, data);
    ChangeRefines(w, m, t, Loc(w.fs.files, id), m.files[name := c]);
  }

  lemma TruncateRefines<H>(w: World<H>, m: MapWorld<H>, h: H, size: int)
    requires Consistent(w) && IsOpen(w, h) && Refines(w, m)
    requires WellFormed(TruncateFile(w.fs, w.handles[h], size))
    ensures var name := m.handles[h];
      var c := m.files[name];
      Refines(World(TruncateFile(w.fs, w.handles[h], size), w.handles),
              m.(files := m.files[name := c.(len := if size < c.len then size else c.len)]))
  {
    var id, name := w.handles[h], FileOf(w, h).name;
    var c := m.files[name];
    TruncateSame(w.fs, m.files, id, size);
    ChangeRefines(w, m, TruncateFile(w.fs, id, size), Loc(w.fs.files, id),
                  m.files[name := c.(len := if size < c.len then size else c.len)]);
  }

  lemma HintRefines<H>(env: Env, w: World<H>, m: MapWorld<H>, h: H, arg: int)
    requires Consistent(w) && IsOpen(w, h) && Refines(w, m)
    requires WellFormed(SizeHint(env, w.fs, w.handles[h], arg))
    ensures Refines(World(SizeHint(env, w.fs, w.handles[h], arg), w.handles), m)
  {
    var k := Loc(w.fs.files, w.handles[h]);
    HintSame(env, w.fs, m.files, k, arg);
    GrowEffect(env, w.fs, k, arg);
    ChangeRefines(w, m, SizeHint(env, w.fs, w.handles[h], arg), k, m.files);
  }

  lemma TruncateSame(s: State, m: map<seq<byte>, Content>, id: nat, size: int)
    requires WellFormed(s) && SameFiles(s.files, m) && Linked(s, id)
    ensures var name := Get(s, id).name;
      var c := m[name];
      SameFiles(TruncateFile(s, id, size).files, m[name := c.(len := if size < c.len then size else c.len)])
  {
    var k := Loc(s.files, id);
    var f := s.files[k];
    var c := m[f.name];
    UpdateSame(s.files, s.nextId, m, k, f.(len := if size < f.len then size else f.len),
               c.(len := if size < c.len then size else c.len));
    assert s.files[k := f] == s.files;
  }

  lemma HintSame(env: Env, s: State, m: map<seq<byte>, Content>, k: nat, sz: int)
    requires WellFormed(s) && SameFiles(s.files, m) && k < |s.files|
    ensures SameFiles(Grow(env, s, k, sz).0.files, m)
  {
    var f := s.files[k];
    var c := m[f.name];
    GrowEffect(env, s, k, sz);
    UpdateSame(s.files, s.nextId, m, k, Grow(env, s, k, sz).0.files[k], c);
    assert m[f.name := c] == m;
  }

  // ---- Runs ----

  /** What the environment grants, call by call. */
  ghost function Grants<H>(env: Env, w: World<H>, ops: seq<Op<H>>): seq<bool>
    requires Consistent(w) && Runnable(env, w, ops)
    decreases |ops|
  {
    if ops == [] then []
    else
      StepConsistent(env, w, ops[0]);
      [Granted(env, w, ops[0])] + Grants(env, Step(env, w, ops[0]).0, ops[1..])
  }

  /** A run of the map; it stops at a call that is not enabled. */
  function MapRun<H>(m: MapWorld<H>, ops: seq<Op<H>>, granted: seq<bool>): (MapWorld<H>, seq<MapReply>)
    requires |granted| == |ops|
    decreases |ops|
  {
    if ops == [] || !MapEnabled(m, ops[0]) then (m, [])
    else
      var (n, r) := MapStep(m, ops[0], granted[0]);
      var (end, rs) := MapRun(n, ops[1..], granted[1..]);
      (end, [r] + rs)
  }

  ghost predicate SameReplies(rs: seq<Reply>, ss: seq<MapReply>) {
    |rs| == |ss| && forall i :: 0 <= i < |rs| ==> SameReply(rs[i], ss[i])
  }

  lemma MoreReplies(r: Reply, rs: seq<Reply>, s: MapReply, ss: seq<MapReply>)
    requires SameReply(r, s) && SameReplies(rs, ss)
    ensures SameReplies([r] + rs, [s] + ss)
  {
  }

  lemma RunStep<H>(env: Env, w: World<H>, ops: seq<Op<H>>, v: World<H>, r: Reply)
    requires Consistent(w) && Runnable(env, w, ops) && ops != [] && Step(env, w, ops[0]) == (v, r)
    ensures Consistent(v) && Runnable(env, v, ops[1..])
    ensures Run(env, w, ops) == (Run(env, v, ops[1..]).0, [r] + Run(env, v, ops[1..]).1)
    ensures Grants(env, w, ops) == [Granted(env, w, ops[0])] + Grants(env, v, ops[1..])
  {
    StepConsistent(env, w, ops[0]);
  }

  lemma MapRunStep<H>(m: MapWorld<H>, ops: seq<Op<H>>, first: bool, later: seq<bool>, n: MapWorld<H>, s: MapReply)
    requires ops != [] && |later| == |ops| - 1 && MapEnabled(m, ops[0]) && MapStep(m, ops[0], first) == (n, s)
    ensures MapRun(m, ops, [first] + later) == (MapRun(n, ops[1..], later).0, [s] + MapRun(n, ops[1..], later).1)
  {
    assert ([first] + later)[1..] == later;
  }

  /** Every run of the linked list of buffered nodes, with names shorter than MAX_PATHNAME, is
      a run of the map from names to last-written bytes, with the same replies. */
  lemma {:induction false} RunRefines<H>(env: Env, w: World<H>, m: MapWorld<H>, ops: seq<Op<H>>)
    requires Consistent(w) && Runnable(env, w, ops) && Refines(w, m)
    requires forall i :: 0 <= i < |ops| ==> ShortName(ops[i])
    ensures |Grants(env, w, ops)| == |Run(env, w, ops).1| == |ops|
    ensures Refines(Run(env, w, ops).0, MapRun(m, ops, Grants(env, w, ops)).0)
    ensures SameReplies(Run(env, w, ops).1, MapRun(m, ops, Grants(env, w, ops)).1)
    decreases |ops|
  {
    if ops != [] {
      var op := ops[0];
      var (v, r) := Step(env, w, op);
      StepRefines(env, w, m, op);
      var (n, s) := MapStep(m, op, Granted(env, w, op));
      RunStep(env, w, ops, v, r);
      RunRefines(env, v, n, ops[1..]);
      var later := Grants(env, v, ops[1..]);
      MapRunStep(m, ops, Granted(env, w, op), later, n, s);
      MoreReplies(r, Run(env, v, ops[1..]).1, s, MapRun(n, ops[1..], later).1);
    }
  }

  /** From `fs_init` on: the empty list and the empty map stay in step. */
  lemma FromStart<H>(env: Env, calls: nat, copied: nat, leaked: nat, ops: seq<Op<H>>)
    requires Runnable(env, World(State([], 0, calls, copied, leaked), map[]), ops)
    requires forall i :: 0 <= i < |ops| ==> ShortName(ops[i])
    ensures var w := World(State([], 0, calls, copied, leaked), map[]);
      var (v, rs) := Run(env, w, ops);
      && |Grants(env, w, ops)| == |rs| == |ops|
      && var (n, ss) := MapRun(MapWorld(map[], map[]), ops, Grants(env, w, ops));
      Refines(v, n) && SameReplies(rs, ss)
  {
    var w: World<H> := World(State([], 0, calls, copied, leaked), map[]);
    var m: MapWorld<H> := MapWorld(map[], map[]);
    assert Refines(w, m);
    RunRefines(env, w, m, ops);
  }
}
