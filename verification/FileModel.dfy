/** The in-memory file system as a value: the list of files, newest first, and one pure
    function per `fs_*` operation. The class in FileSystem.dfy is proved to follow it. */
module FileModel {
  import opened Base
  import opened CStrings

  datatype Option<+T> = None | Some(value: T)

  /** A linked file. `id` tells apart files that share a name over time. */
  datatype File = File(id: nat, name: seq<byte>, buf: seq<byte>, len: int, ref: int, deleteOnClose: bool)

  /** `nextId` is the id of the next file, `calls` the number of memory requests made so far,
      `copied` the number of bytes that reallocs have copied, and `leaked` what plain frees have
      given back while it stays charged. */
  datatype State = State(files: seq<File>, nextId: nat, calls: nat, copied: nat, leaked: nat)

  predicate Matches(f: File, name: seq<byte>) {
    f.name == name && |name| < MAX_PATHNAME
  }

  /** Position of the first file that matches, or the length of the list. */
  function Find(files: seq<File>, name: seq<byte>): (i: nat)
    ensures i <= |files|
    ensures i < |files| ==> Matches(files[i], name)
    ensures forall j :: 0 <= j < i ==> !Matches(files[j], name)
  {
    if files == [] || Matches(files[0], name) then 0 else 1 + Find(files[1..], name)
  }

  /** Position of the file with the given id, or the length of the list. */
  function Loc(files: seq<File>, id: nat): (i: nat)
    ensures i <= |files|
    ensures i < |files| ==> files[i].id == id
    ensures forall j :: 0 <= j < i ==> files[j].id != id
  {
    if files == [] || files[0].id == id then 0 else 1 + Loc(files[1..], id)
  }

  predicate Linked(s: State, id: nat) {
    Loc(s.files, id) < |s.files|
  }

  function Get(s: State, id: nat): File
    requires Linked(s, id)
  {
    s.files[Loc(s.files, id)]
  }

  function Without<T>(s: seq<T>, k: nat): (r: seq<T>)
    requires k < |s|
    ensures |r| == |s| - 1 && forall i :: 0 <= i < |r| ==> r[i] == s[if i < k then i else i + 1]
  {
    s[..k] + s[k + 1..]
  }

  /** What every file keeps: its stored name is a C string of at most MAX_PATHNAME characters,
      its valid length lies inside its buffer, and both fit their C types. */
  predicate FileOk(f: File) {
    && |f.name| <= MAX_PATHNAME && 0 !in f.name
    && INT64_MIN <= f.len <= |f.buf|
    && INITIAL_BUF_DATA_SIZE <= |f.buf| <= INT_MAX
  }

  /** Order of two positions; quantifiers over pairs of positions are triggered by it. */
  predicate Before(i: nat, j: nat) {
    i < j
  }

  /** Newer files come first, and no two files answer to the same name. */
  ghost predicate FilesOk(files: seq<File>, nextId: nat) {
    && (forall i :: 0 <= i < |files| ==> FileOk(files[i]) && files[i].id < nextId)
    && (forall i: nat, j: nat {:trigger Before(i, j)} :: Before(i, j) && j < |files| ==>
          && files[j].id < files[i].id
          && (files[i].name == files[j].name ==> |files[i].name| == MAX_PATHNAME))
  }

  ghost predicate WellFormed(s: State) {
    FilesOk(s.files, s.nextId)
  }

  /** The file that `_fs_file_alloc` links; its buffer is the second of three requests. */
  function NewFile(env: Env, s: State, name: seq<byte>): File {
    File(s.nextId, Clip(name), env.Fresh(s.calls + 1, INITIAL_BUF_DATA_SIZE), 0, 0, false)
  }

  /** `_fs_file_alloc`: the three requests, in order, with clean-up of a partial success. */
  function Alloc(env: Env, s: State, name: seq<byte>): (State, bool) {
    var node, buf := SIZEOF_FS_FILE + SIZEOF_INT, INITIAL_BUF_DATA_SIZE + SIZEOF_INT;
    if !env.grants(s.calls) then (s.(calls := s.calls + 1), false)
    else if !env.grants(s.calls + 1) then (s.(calls := s.calls + 2, leaked := s.leaked + node), false)
    else if !env.grants(s.calls + 2) then (s.(calls := s.calls + 3, leaked := s.leaked + node + buf), false)
    else
      (s.(files := [NewFile(env, s, name)] + s.files, nextId := s.nextId + 1, calls := s.calls + 3), true)
  }

  function Update(s: State, k: nat, f: File): State
    requires k < |s.files|
  {
    s.(files := s.files[k := f])
  }

  /** The first half of `fs_open`: the state and the position of the found or allocated file. */
  function FindOrAlloc(env: Env, s: State, name: seq<byte>): (r: (State, Option<nat>))
    ensures r.1.Some? ==> r.1.value < |r.0.files|
  {
    var k := Find(s.files, name);
    if k < |s.files| then (s, Some(k))
    else
      var (t, ok) := Alloc(env, s, name);
      (t, if ok then Some(0) else None)
  }

  /** `fs_open`: the state and the id of the opened file. */
  function OpenFile(env: Env, s: State, name: seq<byte>): (State, Option<nat>) {
    var (t, k) := FindOrAlloc(env, s, name);
    if k == None then (t, None)
    else
      var f := t.files[k.value];
      (Update(t, k.value, f.(ref := f.ref + 1)), Some(f.id))
  }

  lemma OpenAt(env: Env, s: State, name: seq<byte>, t: State, k: nat)
    requires FindOrAlloc(env, s, name) == (t, Some(k))
    ensures var f := t.files[k];
      OpenFile(env, s, name) == (Update(t, k, f.(ref := f.ref + 1)), Some(f.id))
  {
  }

  /** `fs_open` of an absent name, when it succeeds. */
  lemma OpenAbsent(env: Env, s: State, name: seq<byte>)
    requires Find(s.files, name) == |s.files| && OpenFile(env, s, name).1.Some?
    ensures OpenFile(env, s, name)
         == (s.(files := [NewFile(env, s, name).(ref := 1)] + s.files, nextId := s.nextId + 1, calls := s.calls + 3),
             Some(s.nextId))
  {
    var f := NewFile(env, s, name);
    var t := s.(files := [f] + s.files, nextId := s.nextId + 1, calls := s.calls + 3);
    assert FindOrAlloc(env, s, name) == (t, Some(0));
    OpenAt(env, s, name, t, 0);
    assert t.files[0 := f.(ref := 1)] == [f.(ref := 1)] + s.files;
  }

  /** What the three blocks of a file are charged. */
  function FileCharge(f: File): nat {
    SIZEOF_FS_FILE + |f.name| + 1 + |f.buf| + 3 * SIZEOF_INT
  }

  /** What all files of a list are charged. */
  function Charges(files: seq<File>): nat {
    if files == [] then 0 else FileCharge(files[0]) + Charges(files[1..])
  }

  lemma {:induction false} ChargesUpdate(files: seq<File>, k: nat, f: File)
    requires k < |files|
    ensures Charges(files[k := f]) == Charges(files) - FileCharge(files[k]) + FileCharge(f)
  {
    if k == 0 {
      assert files[k := f][1..] == files[1..];
    } else {
      ChargesUpdate(files[1..], k - 1, f);
      assert files[k := f][1..] == files[1..][k - 1 := f];
    }
  }

  lemma {:induction false} ChargesWithout(files: seq<File>, k: nat)
    requires k < |files|
    ensures Charges(Without(files, k)) == Charges(files) - FileCharge(files[k])
  {
    if k == 0 {
      assert Without(files, k) == files[1..];
    } else {
      ChargesWithout(files[1..], k - 1);
      assert Without(files, k) == [files[0]] + Without(files[1..], k - 1);
    }
  }

  /** The file at position k unlinked and plainly freed: its charge stays. */
  function Discarded(s: State, k: nat): State
    requires k < |s.files|
  {
    s.(files := Without(s.files, k), leaked := s.leaked + FileCharge(s.files[k]))
  }

  /** `fs_close`. */
  function CloseFile(s: State, id: nat): State
    requires Linked(s, id)
  {
    var k := Loc(s.files, id);
    var f := s.files[k].(ref := s.files[k].ref - 1);
    if f.ref == 0 && f.deleteOnClose then Discarded(s, k) else Update(s, k, f)
  }

  /** The reads whose 64-bit arithmetic is defined in C. */
  predicate ReadDefined(f: File, offset: int, len: int) {
    0 <= offset && 0 <= len ==> offset + len <= INT64_MAX && INT64_MIN <= f.len - offset
  }

  /** The result of `fs_read` on a file of length `size`: negative for an offset past the end,
      but for one that is so far past it that the narrowing to an `int` wraps around. */
  function Count(size: int, offset: int, len: int): int {
    if offset < 0 || len < 0 then -1
    else ToInt32((if offset + len > size then size else offset + len) - offset)
  }

  function ReadCount(f: File, offset: int, len: int): int {
    Count(f.len, offset, len)
  }

  /** The copy of `fs_read` stays inside the file's buffer and inside the first `len` bytes of
      the caller's. */
  predicate CopyInside(f: File, offset: int, len: int) {
    var n := ReadCount(f, offset, len);
    0 < n ==> n <= len && offset + n <= |f.buf|
  }

  lemma CountInside(size: int, offset: int, len: int)
    requires 0 <= offset && 0 <= len <= INT_MAX && offset - size <= 0x8000_0000
    ensures Count(size, offset, len) == if offset + len > size then size - offset else len
  {
  }

  /** Growing is defined in C when doubling the old size does not overflow an `int` and the
      request fits one. */
  predicate GrowthDefined(cap: nat, sz: int) {
    sz <= cap || (cap < 0x4000_0000 && sz <= INT_MAX)
  }

  function GrownSize(cap: nat, sz: int): int {
    if cap * 2 < sz then sz else cap * 2
  }

  /** The condition is that of the C operations: where the doubling is reached, it and the
      request fit an `int`. */
  lemma GrowthDefinedExactly(cap: nat, sz: int)
    requires cap <= INT_MAX
    ensures GrowthDefined(cap, sz) <==> (cap < sz ==> cap * 2 <= INT_MAX && sz <= INT_MAX)
  {
  }

  /** A larger request is narrowed, and then the new room never reaches it. */
  lemma RoomReachedExactly(cap: nat, sz: int)
    requires cap < sz && cap * 2 <= INT_MAX
    ensures sz <= ToInt32(GrownSize(cap, sz)) <==> sz <= INT_MAX
  {
  }

  /** `_fs_data_ensure_capacity` on the file at position k. */
  function Grow(env: Env, s: State, k: nat, sz: int): (State, bool)
    requires k < |s.files|
  {
    var f := s.files[k];
    if |f.buf| >= sz then (s, true)
    else
      var t := s.(calls := s.calls + 1);
      if !env.grants(s.calls) then (t, false)
      else
        (Update(t.(copied := s.copied + |f.buf|), k,
                f.(buf := f.buf + env.Fresh(s.calls, GrownSize(|f.buf|, sz))[|f.buf|..])), true)
  }

  lemma GrowAt(env: Env, s: State, k: nat, sz: int)
    requires k < |s.files|
    ensures |s.files[k].buf| >= sz ==> Grow(env, s, k, sz) == (s, true)
    ensures |s.files[k].buf| < sz && !env.grants(s.calls) ==> Grow(env, s, k, sz) == (s.(calls := s.calls + 1), false)
    ensures |s.files[k].buf| < sz && env.grants(s.calls) ==>
      var f := s.files[k];
      var g := f.(buf := f.buf + env.Fresh(s.calls, GrownSize(|f.buf|, sz))[|f.buf|..]);
      Grow(env, s, k, sz) == (s.(files := s.files[k := g], calls := s.calls + 1, copied := s.copied + |f.buf|), true)
  {
  }

  function Overlay(buf: seq<byte>, offset: nat, data: seq<byte>): (r: seq<byte>)
    requires offset + |data| <= |buf|
    ensures |r| == |buf|
    ensures forall p :: 0 <= p < |buf| ==>
      r[p] == if offset <= p < offset + |data| then data[p - offset] else buf[p]
  {
    buf[..offset] + data + buf[offset + |data|..]
  }

  predicate WriteDefined(f: File, offset: int, len: int) {
    0 <= offset && 0 <= len ==> GrowthDefined(|f.buf|, offset + len)
  }

  /** `fs_write`. The new length is the end of the write, even if that is below the old one. */
  function WriteFile(env: Env, s: State, id: nat, offset: int, len: int, data: seq<byte>): (State, int)
    requires Linked(s, id) && len <= |data|
  {
    if offset < 0 || len < 0 then (s, -1)
    else
      var k := Loc(s.files, id);
      var (t, ok) := Grow(env, s, k, offset + len);
      if !ok then (t, -1)
      else
        var f := t.files[k];
        (Update(t, k, f.(buf := Overlay(f.buf, offset, data[..len]), len := offset + len)), len)
  }

  lemma WriteAt(env: Env, s: State, id: nat, offset: nat, len: nat, data: seq<byte>, t: State, ok: bool)
    requires Linked(s, id) && len <= |data|
    requires Grow(env, s, Loc(s.files, id), offset + len) == (t, ok)
    ensures !ok ==> WriteFile(env, s, id, offset, len, data) == (t, -1)
    ensures ok ==>
      var k := Loc(s.files, id);
      var f := t.files[k];
      && offset + len <= |f.buf|
      && WriteFile(env, s, id, offset, len, data)
           == (Update(t, k, f.(buf := Overlay(f.buf, offset, data[..len]), len := offset + len)), len as int)
  {
  }

  /** `fs_truncate`. */
  function TruncateFile(s: State, id: nat, size: int): State
    requires Linked(s, id)
  {
    var k := Loc(s.files, id);
    if size < s.files[k].len then Update(s, k, s.files[k].(len := size)) else s
  }

  /** `fs_size_hint`. */
  function SizeHint(env: Env, s: State, id: nat, size: int): State
    requires Linked(s, id)
  {
    Grow(env, s, Loc(s.files, id), size).0
  }

  /** `fs_delete`. */
  function DeleteFile(s: State, name: seq<byte>): State {
    var k := Find(s.files, name);
    if k == |s.files| then s
    else if s.files[k].ref == 0 then Discarded(s, k)
    else Update(s, k, s.files[k].(deleteOnClose := true))
  }

  /** What a delete does, by the name that the caller gives: nothing if no linked file has it or
      it is too long to be found; else the file goes, or waits if it is in use. */
  lemma DeleteExactly(s: State, name: seq<byte>, k: nat)
    requires WellFormed(s)
    requires k <= |s.files| && forall i :: 0 <= i < |s.files| && i != k ==> s.files[i].name != name || MAX_PATHNAME <= |name|
    requires k < |s.files| ==> s.files[k].name == name
    ensures var t := DeleteFile(s, name);
      && (k == |s.files| || MAX_PATHNAME <= |name| ==> t == s)
      && (k < |s.files| && |name| < MAX_PATHNAME ==>
            && t == s.(files := t.files, leaked := t.leaked)
            && t.files == if s.files[k].ref == 0 then s.files[..k] + s.files[k + 1..]
                          else s.files[k := s.files[k].(deleteOnClose := true)])
  {
  }

  lemma DeleteAt(s: State, name: seq<byte>, k: nat)
    requires Find(s.files, name) == k
    ensures k == |s.files| ==> DeleteFile(s, name) == s
    ensures k < |s.files| && s.files[k].ref == 0 ==> DeleteFile(s, name) == Discarded(s, k)
    ensures k < |s.files| && s.files[k].ref != 0 ==>
      DeleteFile(s, name) == s.(files := s.files[k := s.files[k].(deleteOnClose := true)])
  {
  }

  /** `fs_delete` of the name just created, while it is open. */
  lemma DoomFirst(t: State, name: seq<byte>)
    requires |t.files| > 0 && t.files[0].ref > 0 && t.files[0].name == Clip(name)
    requires Find(t.files[1..], name) == |t.files[1..]|
    ensures var u := DeleteFile(t, name);
      u.files == [t.files[0].(deleteOnClose := t.files[0].deleteOnClose || |name| < MAX_PATHNAME)] + t.files[1..]
  {
    if |name| < MAX_PATHNAME {
      assert Find(t.files, name) == 0;
    } else {
      assert Find(t.files, name) == |t.files|;
    }
  }

  lemma LocAt(s: State, k: nat)
    requires WellFormed(s) && k < |s.files|
    ensures Loc(s.files, s.files[k].id) == k
  {
    var i := Loc(s.files, s.files[k].id);
    assert !Before(i, k);
  }

  /** No linked file answers to `name`. */
  predicate NameFree(files: seq<File>, name: seq<byte>) {
    forall j :: 0 <= j < |files| && files[j].name == name ==> |name| == MAX_PATHNAME
  }

  lemma PrependOk(files: seq<File>, nextId: nat, f: File)
    requires FilesOk(files, nextId) && FileOk(f) && f.id == nextId && NameFree(files, f.name)
    ensures FilesOk([f] + files, nextId + 1)
  {
    var t := [f] + files;
    forall i: nat, j: nat | Before(i, j) && j < |t|
      ensures t[j].id < t[i].id && (t[i].name == t[j].name ==> |t[i].name| == MAX_PATHNAME)
    {
      if i > 0 {
        assert Before(i - 1, j - 1);
      }
    }
  }

  /** What the requests decide: a file linked in front under a new id, with a name that no
      linked file answers to; or nothing but the charge of what was granted before a refusal. */
  lemma AllocWellFormed(env: Env, s: State, name: seq<byte>)
    requires WellFormed(s) && 0 !in name && Find(s.files, name) == |s.files|
    ensures FileOk(NewFile(env, s, name)) && NameFree(s.files, NewFile(env, s, name).name)
    ensures var (t, ok) := Alloc(env, s, name);
      && WellFormed(t)
      && (ok <==> env.grants(s.calls) && env.grants(s.calls + 1) && env.grants(s.calls + 2))
      && t.calls == s.calls + (if !env.grants(s.calls) then 1 else if !env.grants(s.calls + 1) then 2 else 3)
      && t.leaked == s.leaked + (if ok || !env.grants(s.calls) then 0
                                 else if !env.grants(s.calls + 1) then SIZEOF_FS_FILE + SIZEOF_INT
                                 else SIZEOF_FS_FILE + INITIAL_BUF_DATA_SIZE + 2 * SIZEOF_INT)
      && t.copied == s.copied
      && t.files == (if ok then [NewFile(env, s, name)] + s.files else s.files)
      && t.nextId == if ok then s.nextId + 1 else s.nextId
  {
    forall j | 0 <= j < |s.files| && s.files[j].name == Clip(name) ensures |Clip(name)| == MAX_PATHNAME {
      assert !Matches(s.files[j], name);
    }
    PrependOk(s.files, s.nextId, NewFile(env, s, name));
  }

  /** Changing a file in place, without touching its id or name, keeps the list well formed. */
  lemma UpdateWellFormed(s: State, k: nat, f: File)
    requires WellFormed(s) && k < |s.files|
    requires FileOk(f) && f.id == s.files[k].id && f.name == s.files[k].name
    ensures WellFormed(Update(s, k, f))
  {
  }

  lemma WithoutOk(files: seq<File>, nextId: nat, k: nat)
    requires FilesOk(files, nextId) && k < |files|
    ensures FilesOk(Without(files, k), nextId)
  {
    var t := Without(files, k);
    forall i: nat, j: nat | Before(i, j) && j < |t|
      ensures t[j].id < t[i].id && (t[i].name == t[j].name ==> |t[i].name| == MAX_PATHNAME)
    {
      assert Before(if i < k then i else i + 1, if j < k then j else j + 1);
    }
  }
}
