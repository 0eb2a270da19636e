/** os_composite_vfs.c: the calls SQLite makes on files, over the file system of
    os_composite_inmemfs.c. Every method is proved to take the step of VfsModel. */
module Vfs {
  import opened Base
  import opened CStrings
  import opened FileModel
  import opened FileSystem
  import opened VfsModel

  /** `struct cFile`, memory that the caller provides. `methods` says that
      `composite_io_methods` is set. */
  class CFile {
    var methods: bool
    var zName: seq<byte>
    var fd: FsFile?

    constructor ()
    {
    }

    /** The field assignments of a successful `cOpen`. */
    method Attach(zName: seq<byte>, fd: FsFile)
      modifies this
      ensures methods && this.zName == zName && this.fd == fd
    {
      methods := true;
      this.zName := zName;
      this.fd := fd;
    }
  }

  class CompositeVfs {
    const files: Files
    /** The open handles, and the id of the file each one points to. */
    ghost var handles: map<CFile, nat>

    ghost function World(): World<CFile>
      reads this, files, files.mem
    {
      VfsModel.World(files.State(), handles)
    }

    /** Every handle points to the node of its file, and is not part of the file system. */
    ghost predicate Bound(handles: map<CFile, nat>)
      reads this, files, handles.Keys
    {
      forall h <- handles :: h !in files.shape.spine.repr && handles[h] in files.shape.nodeOf
        && h.fd == files.shape.nodeOf[handles[h]]
    }

    ghost predicate Valid()
      reads this, files, files.mem, files.shape.spine.repr, handles.Keys
    {
      && files.Valid() && this !in files.shape.spine.repr
      && Bound(handles) && Consistent(World())
    }

    /** Records the handles that a call leaves open. */
    ghost method Settle(m: map<CFile, nat>)
      requires files.Valid() && this !in files.shape.spine.repr
      requires Bound(m) && Consistent(VfsModel.World(files.State(), m))
      modifies this`handles
      ensures Valid() && World() == VfsModel.World(files.State(), m)
    {
      handles := m;
    }

    /** The file layer over a fresh file system. */
    constructor (files: Files)
      requires files.Valid() && files.shape.files == []
      ensures Valid() && this.files == files && handles == map[]
    {
      this.files := files;
      handles := map[];
    }

    /** `cAccess`. */
    method CAccess(zName: seq<byte>) returns (rc: int, res: int)
      requires Valid() && 0 in zName
      ensures (World(), Value(rc, res)) == Step(files.mem.env, World(), Access(Str(zName)))
    {
      res := files.FsExists(zName);
      rc := SQLITE_OK;
    }

    /** The body of `cClose`. */
    method CloseFd(file: CFile, ghost id: nat)
      requires files.Valid() && this !in files.shape.spine.repr && Bound(handles)
      requires file in handles && handles[file] == id && Linked(files.State(), id)
      modifies files`shape, files.mem, files.shape.spine.repr, file`fd
      ensures files.Valid() && files.shape.spine.repr == old(files.shape.spine.repr)
      ensures files.State() == CloseFile(old(files.State()), id)
      ensures files.mem.outstanding == old(files.mem.outstanding)
      ensures file.fd == null && Bound(handles - {file})
    {
      files.FsClose(file.fd, id);
      file.fd := null;
    }

    /** `cClose`. */
    method CClose(file: CFile) returns (rc: int)
      requires Valid() && Enabled(World(), Close(file))
      modifies this`handles, files`shape, files.mem, files.shape.spine.repr, file`fd
      ensures Valid() && files.shape.spine.repr == old(files.shape.spine.repr)
      ensures (World(), Code(rc)) == Step(files.mem.env, old(World()), Close(file))
      ensures files.mem.outstanding == old(files.mem.outstanding)
      ensures file.fd == null
    {
      ghost var w := World();
      CloseConsistent(w, file);
      CloseFd(file, handles[file]);
      Settle(handles - {file});
      rc := SQLITE_OK;
    }

    /** The call of `fs_open` in `cOpen`: the handles that are open stay bound. */
    method OpenNode(zName: seq<byte>) returns (fd: FsFile?, ghost id: nat, ghost made: set<object>)
      requires files.Valid() && this !in files.shape.spine.repr && Bound(handles) && 0 in zName
      modifies files`shape, files.mem, files.shape.spine.repr
      ensures files.Valid() && fresh(made) && files.shape.spine.repr == old(files.shape.spine.repr) + made
      ensures files.State() == OpenFile(files.mem.env, old(files.State()), Str(zName)).0
      ensures OpenFile(files.mem.env, old(files.State()), Str(zName)).1 == if fd != null then Some(id) else None
      ensures fd != null ==> id in files.shape.nodeOf && files.shape.nodeOf[id] == fd
      ensures Bound(handles)
    {
      ghost var found := OpenFile(files.mem.env, files.State(), Str(zName)).1;
      fd, made := files.FsOpen(zName);
      id := if fd != null then found.value else 0;
    }

    /** The fields that `cOpen` fills in. */
    method AttachFd(zName: seq<byte>, file: CFile, fd: FsFile, ghost id: nat)
      requires files.Valid() && Bound(handles) && file !in handles && file !in files.shape.spine.repr
      requires id in files.shape.nodeOf && files.shape.nodeOf[id] == fd
      modifies file
      ensures files.Valid() && Bound(handles[file := id]) && file.methods && file.zName == zName
    {
      file.Attach(zName, fd);
    }

    /** `fs_open` and the fields that `cOpen` fills in. */
    method OpenFd(zName: seq<byte>, file: CFile) returns (ok: bool, ghost id: nat, ghost made: set<object>)
      requires files.Valid() && this !in files.shape.spine.repr && Bound(handles)
      requires 0 in zName && file !in handles && file !in files.shape.spine.repr
      modifies files`shape, files.mem, files.shape.spine.repr, file
      ensures files.Valid() && fresh(made) && files.shape.spine.repr == old(files.shape.spine.repr) + made
      ensures files.State() == OpenFile(files.mem.env, old(files.State()), Str(zName)).0
      ensures OpenFile(files.mem.env, old(files.State()), Str(zName)).1 == if ok then Some(id) else None
      ensures Bound(if ok then handles[file := id] else handles)
      ensures file !in files.shape.spine.repr && file.methods == (ok || old(file.methods)) && (ok ==> file.zName == zName)
    {
      var fd;
      fd, id, made := OpenNode(zName);
      ok := fd != null;
      if ok {
        AttachFd(zName, file, fd, id);
      }
    }

    /** The call of `fs_delete` in `cDelete` and, for a file to be deleted on close, in `cOpen`. */
    method DropName(zName: seq<byte>, wanted: bool, ghost m: map<CFile, nat>) returns (r: int)
      requires files.Valid() && this !in files.shape.spine.repr && Bound(m) && 0 in zName
      modifies files`shape, files.mem, files.shape.spine.repr
      ensures files.Valid() && files.shape.spine.repr == old(files.shape.spine.repr) && Bound(m) && r == 1
      ensures files.State() == if wanted then DeleteFile(old(files.State()), Str(zName)) else old(files.State())
      ensures files.mem.outstanding == old(files.mem.outstanding)
    {
      r := 1;
      if wanted {
        r := files.FsDelete(zName);
      }
    }

    /** `cOpen`. */
    method COpen(zName: seq<byte>, file: CFile, flags: bv32)
        returns (rc: int, outFlags: bv32, ghost made: set<object>)
      requires Valid() && 0 in zName && file !in handles && file !in files.shape.spine.repr
      modifies this`handles, files`shape, files.mem, files.shape.spine.repr, file
      ensures Valid() && fresh(made) && files.shape.spine.repr == old(files.shape.spine.repr) + made
      ensures (World(), Code(rc)) == Step(files.mem.env, old(World()), Open(file, Str(zName), flags))
      ensures outFlags == flags && file.methods == (rc == SQLITE_OK) && (rc == SQLITE_OK ==> file.zName == zName)
    {
      file.methods := false;
      outFlags, made := flags, {};
      var fileExists;
      rc, fileExists := CAccess(zName);
      if HasFlag(flags, SQLITE_OPEN_CREATE) && HasFlag(flags, SQLITE_OPEN_EXCLUSIVE) {
        if fileExists != 0 {
          return SQLITE_IOERR, flags, {};
        }
      }
      rc, made := OpenNow(zName, file, flags);
    }

    /** `cOpen` after the exclusive-create test. */
    method OpenNow(zName: seq<byte>, file: CFile, flags: bv32) returns (rc: int, ghost made: set<object>)
      requires Valid() && 0 in zName && file !in handles && file !in files.shape.spine.repr && !file.methods
      requires !(HasFlag(flags, SQLITE_OPEN_CREATE) && HasFlag(flags, SQLITE_OPEN_EXCLUSIVE)
                 && Find(files.shape.files, Str(zName)) < |files.shape.files|)
      modifies this`handles, files`shape, files.mem, files.shape.spine.repr, file
      ensures Valid() && fresh(made) && files.shape.spine.repr == old(files.shape.spine.repr) + made
      ensures (World(), Code(rc)) == OpenStep(files.mem.env, old(World()), file, Str(zName), flags)
      ensures file.methods == (rc == SQLITE_OK) && (rc == SQLITE_OK ==> file.zName == zName)
    {
      ghost var w, env, name := World(), files.mem.env, Str(zName);
      StepConsistent(env, w, Open(file, name, flags));
      assert Consistent(OpenStep(env, w, file, name, flags).0);
      var ok;
      ghost var id;
      ok, id, made := OpenFd(zName, file);
      OpenStepAt(env, w, file, name, flags, files.State(), if ok then Some(id) else None);
      ghost var m := if ok then handles[file := id] else handles;
      rc := OpenTail(zName, file, ok, HasFlag(flags, SQLITE_OPEN_DELETEONCLOSE), m);
    }

    /** The end of `cOpen`: a file that was not opened is an error, and one to be deleted on
        close is deleted at once, which only marks it. */
    method OpenTail(zName: seq<byte>, file: CFile, ok: bool, doomed: bool, ghost m: map<CFile, nat>) returns (rc: int)
      requires files.Valid() && this !in files.shape.spine.repr && Bound(m) && 0 in zName
      requires file !in files.shape.spine.repr
      requires Consistent(VfsModel.World(if ok && doomed then DeleteFile(files.State(), Str(zName)) else files.State(), m))
      modifies this`handles, files`shape, files.mem, files.shape.spine.repr
      ensures Valid() && files.shape.spine.repr == old(files.shape.spine.repr)
      ensures rc == (if ok then SQLITE_OK else SQLITE_IOERR) && file.methods == old(file.methods) && file.zName == old(file.zName)
      ensures World() == VfsModel.World(
        if ok && doomed then DeleteFile(old(files.State()), Str(zName)) else old(files.State()), m)
    {
      if !ok {
        Settle(m);
        return SQLITE_IOERR;
      }
      var r := DropName(zName, doomed, m);
      Settle(m);
      return SQLITE_OK;
    }

    /** `cDelete`, which ignores its `syncDir`. */
    method CDelete(zName: seq<byte>) returns (rc: int)
      requires Valid() && 0 in zName
      modifies this`handles, files`shape, files.mem, files.shape.spine.repr
      ensures Valid() && files.shape.spine.repr == old(files.shape.spine.repr)
      ensures (World(), Code(rc)) == Step(files.mem.env, old(World()), Delete(Str(zName)))
      ensures files.mem.outstanding == old(files.mem.outstanding)
    {
      DeleteConsistent(World(), Str(zName));
      var r := DropName(zName, true, handles);
      Settle(handles);
      rc := if r != 0 then SQLITE_OK else SQLITE_IOERR_DELETE;
    }

    lemma FdLinked(h: CFile)
      requires files.Valid() && Bound(handles) && h in handles && Linked(files.State(), handles[h])
      ensures h.fd != null && h.fd in files.shape.spine.repr
    {
      var k := Loc(files.shape.files, handles[h]);
      assert files.shape.spine.slots[k].Objects() <= files.shape.spine.repr;
      assert files.shape.files[k].id == handles[h];
    }

    /** `cFileSize`. */
    method CFileSize(file: CFile) returns (rc: int, size: int)
      requires Valid() && Enabled(World(), FileSize(file))
      ensures (World(), Value(rc, size)) == Step(files.mem.env, World(), FileSize(file))
    {
      ghost var k := Loc(files.shape.files, handles[file]);
      assert files.shape.spine.slots[k].Holds(files.shape.files[k]);
      size := file.fd.len;
      rc := SQLITE_OK;
    }

    /** The call of `fs_truncate` in `cTruncate`. */
    method TruncateFd(file: CFile, size: int, ghost id: nat) returns (r: int)
      requires files.Valid() && this !in files.shape.spine.repr && Bound(handles)
      requires file in handles && handles[file] == id && Linked(files.State(), id) && InInt64(size)
      modifies files`shape, files.mem, files.shape.spine.repr
      ensures files.Valid() && files.shape.spine.repr == old(files.shape.spine.repr) && Bound(handles)
      ensures files.State() == TruncateFile(old(files.State()), id, size) && r == 1
      ensures files.mem.history == old(files.mem.history)
    {
      FdLinked(file);
      r := files.FsTruncate(file.fd, size, id);
    }

    /** `cTruncate`. */
    method CTruncate(file: CFile, size: int) returns (rc: int)
      requires Valid() && Enabled(World(), Truncate(file, size))
      modifies this`handles, files`shape, files.mem, files.shape.spine.repr
      ensures Valid() && files.shape.spine.repr == old(files.shape.spine.repr)
      ensures (World(), Code(rc)) == Step(files.mem.env, old(World()), Truncate(file, size))
      ensures files.mem.history == old(files.mem.history)
    {
      ghost var w := World();
      ghost var t := TruncateFile(w.fs, w.handles[file], size);
      TruncateStepAt(files.mem.env, w, file, size, t);
      var r := TruncateFd(file, size, handles[file]);
      assert files.State() == t;
      Settle(handles);
      rc := if r != 0 then SQLITE_OK else SQLITE_IOERR_TRUNCATE;
    }

    /** The size hint of `cFileControl`. */
    method HintFd(file: CFile, arg: int, ghost id: nat) returns (ghost made: set<object>)
      requires files.Valid() && this !in files.shape.spine.repr && Bound(handles)
      requires file in handles && handles[file] == id && Linked(files.State(), id)
      requires GrowthDefined(|Get(files.State(), id).buf|, arg)
      modifies files`shape, files.mem, files.shape.spine.repr
      ensures files.Valid() && fresh(made) && files.shape.spine.repr == old(files.shape.spine.repr) + made
      ensures files.State() == SizeHint(files.mem.env, old(files.State()), id, arg)
      ensures Bound(handles)
    {
      FdLinked(file);
      made := files.FsSizeHint(file.fd, arg, id);
    }

    /** The size-hint case of `cFileControl`. */
    method HintCase(file: CFile, arg: int) returns (ghost made: set<object>)
      requires Valid() && Enabled(World(), FileControl(file, SQLITE_FCNTL_SIZE_HINT, arg))
      modifies this`handles, files`shape, files.mem, files.shape.spine.repr
      ensures Valid() && fresh(made) && files.shape.spine.repr == old(files.shape.spine.repr) + made
      ensures (World(), Code(SQLITE_OK))
           == Step(files.mem.env, old(World()), FileControl(file, SQLITE_FCNTL_SIZE_HINT, arg))
    {
      ghost var w := World();
      ghost var t := SizeHint(files.mem.env, w.fs, w.handles[file], arg);
      HintStepAt(files.mem.env, w, file, arg, t);
      made := {};
      FdLinked(file);
      if file.fd != null {
        made := HintFd(file, arg, handles[file]);
      }
      assert files.State() == t;
      Settle(handles);
    }

    /** `cFileControl`. Only the size hint is recognised. */
    method CFileControl(file: CFile, op: int, arg: int) returns (rc: int, ghost made: set<object>)
      requires Valid() && Enabled(World(), FileControl(file, op, arg))
      modifies this`handles, files`shape, files.mem, files.shape.spine.repr
      ensures Valid() && fresh(made) && files.shape.spine.repr == old(files.shape.spine.repr) + made
      ensures (World(), Code(rc)) == Step(files.mem.env, old(World()), FileControl(file, op, arg))
    {
      if op != SQLITE_FCNTL_SIZE_HINT {
        return SQLITE_NOTFOUND, {};
      }
      made := HintCase(file, arg);
      rc := SQLITE_OK;
    }

    /** The call of `fs_write` in `cWrite`. */
    method WriteFd(file: CFile, buf: array<byte>, iAmt: int, iOfst: int, ghost id: nat)
        returns (n: int, ghost made: set<object>)
      requires files.Valid() && this !in files.shape.spine.repr && Bound(handles) && buf !in files.shape.spine.repr
      requires file in handles && handles[file] == id && Linked(files.State(), id)
      requires iAmt <= buf.Length && WriteDefined(Get(files.State(), id), iOfst, iAmt)
      modifies files`shape, files.mem, files.shape.spine.repr
      ensures files.Valid() && fresh(made) && files.shape.spine.repr == old(files.shape.spine.repr) + made
      ensures files.State() == WriteFile(files.mem.env, old(files.State()), id, iOfst, iAmt, old(buf[..])).0
      ensures n == WriteFile(files.mem.env, old(files.State()), id, iOfst, iAmt, old(buf[..])).1
      ensures Bound(handles)
    {
      n, made := files.FsWrite(file.fd, iOfst, iAmt, buf, id);
    }

    /** `cWrite`. */
    method CWrite(file: CFile, buf: array<byte>, iAmt: int, iOfst: int) returns (rc: int, ghost made: set<object>)
      requires Valid() && Enabled(World(), Write(file, buf[..], iAmt, iOfst)) && buf !in files.shape.spine.repr
      modifies this`handles, files`shape, files.mem, files.shape.spine.repr
      ensures Valid() && fresh(made) && files.shape.spine.repr == old(files.shape.spine.repr) + made
      ensures (World(), Code(rc)) == Step(files.mem.env, old(World()), Write(file, old(buf[..]), iAmt, iOfst))
    {
      ghost var w, data := World(), buf[..];
      ghost var (t, n) := WriteFile(files.mem.env, w.fs, handles[file], iOfst, iAmt, data);
      WriteStepAt(files.mem.env, w, file, data, iAmt, iOfst, t, n);
      var bytesWritten;
      bytesWritten, made := WriteFd(file, buf, iAmt, iOfst, handles[file]);
      assert files.State() == t && bytesWritten == n;
      Settle(handles);
      rc := if bytesWritten == iAmt then SQLITE_OK else SQLITE_IOERR_WRITE;
    }

    /** The loop of `cRead` that fills the rest of the buffer with zeros. */
    static method ZeroFill(buf: array<byte>, bytesRead: nat, iAmt: int)
      requires bytesRead <= iAmt <= buf.Length
      modifies buf
      ensures buf[..] == old(buf[..])[..bytesRead] + seq(iAmt - bytesRead, _ => 0) + old(buf[..])[iAmt..]
    {
      var i := bytesRead;
      while i < iAmt
        invariant bytesRead <= i <= iAmt
        invariant forall j :: bytesRead <= j < i ==> buf[j] == 0
        invariant forall j :: 0 <= j < buf.Length && !(bytesRead <= j < i) ==> buf[j] == old(buf[j])
      {
        buf[i] := 0;
        i := i + 1;
      }
    }

    /** What `cRead` does with the count of `fs_read`. */
    static method Finish(buf: array<byte>, bytesRead: int, iAmt: int) returns (rc: int)
      requires -1 <= bytesRead && (bytesRead == -1 || bytesRead <= iAmt <= buf.Length)
      modifies buf
      ensures rc == if bytesRead == -1 then SQLITE_IOERR_READ
                    else if bytesRead < iAmt then SQLITE_IOERR_SHORT_READ else SQLITE_OK
      ensures buf[..] == if 0 <= bytesRead < iAmt
        then old(buf[..])[..bytesRead] + seq(iAmt - bytesRead, _ => 0) + old(buf[..])[iAmt..] else old(buf[..])
    {
      if bytesRead == -1 {
        return SQLITE_IOERR_READ;
      }
      if bytesRead < iAmt {
        ZeroFill(buf, bytesRead, iAmt);
        return SQLITE_IOERR_SHORT_READ;
      }
      return SQLITE_OK;
    }

    /** What the buffer holds after `fs_read` and after the zero fill. */
    static lemma ReadBytes(f: File, iAmt: int, iOfst: int, n: int, before: seq<byte>, mid: seq<byte>, after: seq<byte>)
      requires ReadInBuffer(f, iAmt, iOfst) && n == ReadCount(f, iOfst, iAmt) && iAmt <= |before| == |mid|
      requires mid == if n <= 0 then before else f.buf[iOfst..iOfst + n] + before[n..]
      requires after == if 0 <= n < iAmt then mid[..n] + seq(iAmt - n, _ => 0) + mid[iAmt..] else mid
      ensures after == match ReadReply(f, iAmt, iOfst)
                       case Bytes(_, data) => data + before[iAmt..]
                       case _ => before
    {
    }

    /** The body of `cRead`. */
    method ReadFd(file: CFile, buf: array<byte>, iAmt: int, iOfst: int, ghost id: nat, ghost f: File) returns (rc: int)
      requires files.Valid() && Bound(handles) && buf !in files.shape.spine.repr
      requires file in handles && handles[file] == id && Linked(files.State(), id) && f == Get(files.State(), id)
      requires iAmt <= buf.Length && ReadDefined(f, iOfst, iAmt) && ReadInBuffer(f, iAmt, iOfst)
      modifies buf
      ensures files.Valid() && rc == ReadReply(f, iAmt, iOfst).rc
      ensures buf[..] == match ReadReply(f, iAmt, iOfst)
                         case Bytes(_, data) => data + old(buf[..])[iAmt..]
                         case _ => old(buf[..])
    {
      ghost var before := buf[..];
      var bytesRead := files.FsRead(file.fd, iOfst, iAmt, buf, id);
      ghost var mid := buf[..];
      assert mid == if bytesRead <= 0 then before else f.buf[iOfst..iOfst + bytesRead] + before[bytesRead..];
      rc := Finish(buf, bytesRead, iAmt);
      ReadBytes(f, iAmt, iOfst, bytesRead, before, mid, buf[..]);
    }

    /** `cRead`. A reply with bytes fills the first iAmt bytes of the buffer; any other leaves
        the buffer alone. */
    method CRead(file: CFile, buf: array<byte>, iAmt: int, iOfst: int) returns (rc: int, ghost reply: Reply)
      requires Valid() && Enabled(World(), Read(file, iAmt, iOfst))
      requires iAmt <= buf.Length && buf !in files.shape.spine.repr
      modifies buf
      ensures Valid() && (World(), reply) == Step(files.mem.env, old(World()), Read(file, iAmt, iOfst))
      ensures if reply.Bytes? then rc == reply.rc != SQLITE_IOERR_READ && |reply.data| == iAmt
              else rc == SQLITE_IOERR_READ && reply == Code(rc)
      ensures buf[..] == if reply.Bytes? then reply.data + old(buf[..])[iAmt..] else old(buf[..])
    {
      ghost var w, f := World(), FileOf(World(), file);
      reply := ReadReply(f, iAmt, iOfst);
      assert Step(files.mem.env, w, Read(file, iAmt, iOfst)) == (w, reply);
      rc := ReadFd(file, buf, iAmt, iOfst, handles[file], f);
      assert World() == w;
    }
  }
}
