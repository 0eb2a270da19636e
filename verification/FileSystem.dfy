/** os_composite_inmemfs.c: a sentinel-headed singly linked list of files whose nodes,
    names and buffers are blocks of the allocator. */
module FileSystem {
  import opened Base
  import opened CStrings
  import opened Accounting
  import opened Memory
  import opened FileModel

  /** `struct fs_file`. */
  class FsFile {
    var next: FsFile?
    var zName: array?<byte>
    var buf: array?<byte>
    var len: int
    var ref: int
    var deleteOnClose: bool

    constructor ()
    {
    }

    /** The field assignments of `_fs_file_alloc`. */
    method Fill(name: array<byte>, data: array<byte>)
      modifies this
      ensures next == null && zName == name && buf == data && len == 0 && ref == 0 && !deleteOnClose
    {
      next := null;
      zName := name;
      buf := data;
      len := 0;
      ref := 0;
      deleteOnClose := false;
    }
  }

  /** A linked node with the blocks it points to. */
  datatype Slot = Slot(node: FsFile, name: array<byte>, buf: array<byte>)
  {
    ghost predicate Apart(s: Slot) {
      && node != s.node
      && name != s.name && name != s.buf && buf != s.name && buf != s.buf
    }

    ghost function Objects(): set<object> {
      {node, name, buf}
    }

    ghost function Regions(): set<Region> {
      {Struct(node, SIZEOF_FS_FILE), Bytes(name), Bytes(buf)}
    }

    /** What the three blocks hold; the name with its terminator. */
    ghost function Image(): File
      reads node`len, node`ref, node`deleteOnClose, name, buf
    {
      File(0, name[..], buf[..], node.len, node.ref, node.deleteOnClose)
    }

    /** The node and its blocks hold the file `f`. */
    ghost predicate Holds(f: File)
      reads node`zName, node`buf, node`len, node`ref, node`deleteOnClose, name, buf
    {
      node.zName == name && node.buf == buf && Image() == f.(id := 0, name := f.name + [0])
    }
  }

  ghost function Blocks(slots: seq<Slot>): set<Region> {
    set s <- slots, r <- s.Regions() :: r
  }

  lemma BlocksSplit(slots: seq<Slot>, k: nat)
    requires k < |slots|
    ensures Blocks(slots) == Blocks(FileModel.Without(slots, k)) + slots[k].Regions()
  {
    var rest := FileModel.Without(slots, k);
    assert slots == slots[..k] + [slots[k]] + slots[k + 1..];
    assert forall t :: t in slots <==> t == slots[k] || t in rest;
  }

  /** The linked list itself: the sentinel, the linked slots in order, and every object that
      was ever part of the file system. */
  datatype Spine = Spine(list: FsFile?, slots: seq<Slot>, repr: set<object>)
  {
    ghost function At(i: nat): FsFile? {
      if i < |slots| then slots[i].node else null
    }

    ghost predicate Within() {
      && (if list == null then slots == [] else list in repr)
      && forall i :: 0 <= i < |slots| ==> slots[i].Objects() <= repr && slots[i].node != list
    }

    ghost predicate Separate() {
      && (forall i :: 0 <= i < |slots| ==> slots[i].name != slots[i].buf)
      && (forall i: nat, j: nat {:trigger Before(i, j)} :: Before(i, j) && j < |slots| ==> slots[i].Apart(slots[j]))
    }

    /** The chain starts at the sentinel, visits the slots in order and ends in null. */
    ghost predicate Chain()
      requires Within()
      reads repr
    {
      match this
      case Spine(list, slots, _) =>
        && list != null && list.next == At(0)
        && forall i {:trigger slots[i].node.next} :: 0 <= i < |slots| ==> slots[i].node.next == At(i + 1)
    }

    /** One region for the sentinel and three for each file. */
    ghost function Regions(): set<Region>
      requires list != null
    {
      {Struct(list, SIZEOF_FS_FILE)} + Blocks(slots)
    }

    ghost function Nodes(): set<FsFile>
      requires list != null
    {
      {list} + set s <- slots :: s.node
    }

    ghost function Prepend(s: Slot): Spine {
      Spine(list, [s] + slots, repr + s.Objects())
    }

    ghost function Rebuffer(k: nat, buf: array<byte>): Spine
      requires k < |slots|
    {
      Spine(list, slots[k := slots[k].(buf := buf)], repr + {buf})
    }

    ghost function Remove(k: nat): Spine
      requires k < |slots|
    {
      Spine(list, FileModel.Without(slots, k), repr)
    }
  }

  ghost predicate KeepsSlot(s: Slot, cap: nat, t: Slot, before: nat) {
    s.node == t.node && s.name == t.name && before <= cap && (cap == before ==> s.buf == t.buf)
  }

  /** Quantifiers over positions of two layouts are triggered by it. */
  predicate Pair(i: nat, j: nat) {
    true
  }

  /** The list, the files that its slots hold, the node of every file ever linked, and the
      regions that belong to other users of the allocator. */
  datatype Shape = Shape(spine: Spine, files: seq<File>, nextId: nat, nodeOf: map<nat, FsFile>, foreign: set<Region>)
  {
    ghost predicate Indexed() {
      && |spine.slots| == |files|
      && (forall i :: 0 <= i < |files| ==> files[i].id in nodeOf && nodeOf[files[i].id] == spine.slots[i].node)
      && forall id <- nodeOf :: id < nextId
    }

    ghost predicate Sound() {
      spine.Within() && spine.Separate() && Indexed() && FilesOk(files, nextId)
    }

    ghost predicate Stored()
      requires spine.Within()
      reads spine.repr
    {
      match this
      case Shape(spine, files, _, _, _) =>
        |spine.slots| == |files| && forall i :: 0 <= i < |files| ==> spine.slots[i].Holds(files[i])
    }

    /** Of all live regions, the file system owns exactly its own. */
    ghost predicate Owns(live: set<Region>) {
      spine.list != null && live == foreign + spine.Regions() && foreign !! spine.Regions()
    }

    /** Every file of the earlier layout `p` that is still linked has its node and its name
        block, and its buffer unless that has grown. */
    ghost predicate Keeps(p: Shape) {
      match this
      case Shape(spine, files, nextId, _, _) =>
        && p.nextId <= nextId && |p.spine.slots| == |p.files| && (forall j :: 0 <= j < |p.files| ==> p.files[j].id < p.nextId)
        && (forall i: nat, j: nat {:trigger Pair(i, j)} ::
              (Pair(i, j) && i < |files| && i < |spine.slots| && j < |p.files|
               && files[i].id == p.files[j].id) ==>
                KeepsSlot(spine.slots[i], |files[i].buf|, p.spine.slots[j], |p.files[j].buf|))
    }

    ghost function Prepend(s: Slot, f: File): Shape {
      Shape(spine.Prepend(s), [f] + files, nextId + 1, nodeOf[f.id := s.node], foreign)
    }

    ghost function Update(k: nat, f: File): Shape
      requires k < |files|
    {
      this.(files := files[k := f])
    }

    /** The file at position k becomes `f`, in a new buffer. */
    ghost function Rebuffer(k: nat, f: File, buf: array<byte>): Shape
      requires k < |spine.slots| && k < |files|
    {
      this.(spine := spine.Rebuffer(k, buf), files := files[k := f])
    }

    ghost function Remove(k: nat): Shape
      requires k < |spine.slots| && k < |files|
    {
      this.(spine := spine.Remove(k), files := FileModel.Without(files, k))
    }
  }

  type Layout = g: Shape | g.Sound() witness Shape(Spine(null, [], {}), [], 0, map[], {})

  lemma PrependSound(g: Layout, s: Slot, f: File)
    requires g.spine.list != null && f.id == g.nextId && FileOk(f) && NameFree(g.files, f.name)
    requires s.node != g.spine.list && s.name != s.buf
    requires forall i :: 0 <= i < |g.spine.slots| ==> s.Apart(g.spine.slots[i])
    ensures g.Prepend(s, f).Sound()
  {
    PrependOk(g.files, g.nextId, f);
    var h := g.spine.Prepend(s);
    forall i: nat, j: nat | Before(i, j) && j < |h.slots| ensures h.slots[i].Apart(h.slots[j]) {
      if i > 0 {
        assert Before(i - 1, j - 1);
      }
    }
  }

  /** Three new regions that are the new file's keep the ownership exact. */
  lemma PrependOwned(g: Layout, s: Slot, f: File, live: set<Region>)
    requires g.Owns(live) && live !! s.Regions()
    ensures g.Prepend(s, f).Owns(live + s.Regions())
  {
    assert g.spine.Prepend(s).Regions() == g.spine.Regions() + s.Regions();
  }

  lemma UpdateSound(g: Layout, k: nat, f: File)
    requires k < |g.files|
    requires FileOk(f) && f.id == g.files[k].id && f.name == g.files[k].name
    ensures g.Update(k, f).Sound()
  {
    var files := g.files[k := f];
    assert forall i :: 0 <= i < |files| ==> files[i].id == g.files[i].id && files[i].name == g.files[i].name;
  }

  lemma RemoveSound(g: Layout, k: nat)
    requires k < |g.files|
    ensures g.Remove(k).Sound()
  {
    WithoutOk(g.files, g.nextId, k);
    var h := g.spine.Remove(k);
    forall i: nat, j: nat | Before(i, j) && j < |h.slots| ensures h.slots[i].Apart(h.slots[j]) {
      assert Before(if i < k then i else i + 1, if j < k then j else j + 1);
    }
  }

  /** The regions of one file are those of no other. */
  lemma BlocksApart(g: Layout, k: nat)
    requires k < |g.spine.slots|
    ensures Blocks(g.spine.Remove(k).slots) !! g.spine.slots[k].Regions()
  {
    var s, rest := g.spine.slots, g.spine.Remove(k).slots;
    ApartFrom(g, k);
    forall t <- rest ensures t.Regions() !! s[k].Regions() {
      var i :| 0 <= i < |rest| && rest[i] == t;
      assert t == s[if i < k then i else i + 1];
    }
  }

  lemma RemoveOwned(g: Layout, k: nat, live: set<Region>)
    requires k < |g.files| && g.Owns(live)
    ensures g.spine.slots[k].Regions() <= live
    ensures g.Remove(k).Owns(live - g.spine.slots[k].Regions())
  {
    BlocksSplit(g.spine.slots, k);
    BlocksApart(g, k);
  }

  lemma RebufferSound(g: Layout, k: nat, f: File, buf: array<byte>)
    requires k < |g.files| && buf !in g.spine.repr
    requires FileOk(f) && f.id == g.files[k].id && f.name == g.files[k].name
    ensures g.Rebuffer(k, f, buf).Sound()
  {
    UpdateSound(g, k, f);
    var h := g.spine.Rebuffer(k, buf);
    forall i: nat, j: nat | Before(i, j) && j < |h.slots| ensures h.slots[i].Apart(h.slots[j]) {
      assert g.spine.slots[i].Apart(g.spine.slots[j]);
      assert g.spine.slots[i].Objects() <= g.spine.repr && g.spine.slots[j].Objects() <= g.spine.repr;
    }
  }

  lemma RebufferOwned(g: Layout, k: nat, f: File, buf: array<byte>, live: set<Region>)
    requires k < |g.files| && g.Owns(live) && Bytes(buf) !in live
    ensures Bytes(g.spine.slots[k].buf) in live
    ensures g.Rebuffer(k, f, buf).Owns(live - {Bytes(g.spine.slots[k].buf)} + {Bytes(buf)})
  {
    var s, h := g.spine.slots, g.spine.Rebuffer(k, buf).slots;
    BlocksSplit(s, k);
    BlocksApart(g, k);
    BlocksSplit(h, k);
    assert FileModel.Without(h, k) == FileModel.Without(s, k);
    assert s[k].name != s[k].buf;
  }

  lemma PrependKeeps(g: Layout, s: Slot, f: File, p: Shape)
    requires g.Keeps(p) && f.id == g.nextId
    ensures g.Prepend(s, f).Keeps(p)
  {
    var h := g.Prepend(s, f);
    forall i: nat, j: nat | Pair(i, j) && i < |h.files| && j < |p.files| && h.files[i].id == p.files[j].id
      ensures KeepsSlot(h.spine.slots[i], |h.files[i].buf|, p.spine.slots[j], |p.files[j].buf|)
    {
      assert Pair(i - 1, j);
    }
  }

  lemma UpdateKeeps(g: Layout, k: nat, f: File, p: Shape)
    requires g.Keeps(p) && k < |g.files| && f.id == g.files[k].id && |f.buf| == |g.files[k].buf|
    ensures g.Update(k, f).Keeps(p)
  {
  }

  lemma RebufferKeeps(g: Layout, k: nat, f: File, buf: array<byte>, p: Shape)
    requires g.Keeps(p) && k < |g.files| && f.id == g.files[k].id && |g.files[k].buf| < |f.buf|
    ensures g.Rebuffer(k, f, buf).Keeps(p)
  {
  }

  lemma RemoveKeeps(g: Layout, k: nat, p: Shape)
    requires g.Keeps(p) && k < |g.files|
    ensures g.Remove(k).Keeps(p)
  {
    var h := g.Remove(k);
    forall i: nat, j: nat | Pair(i, j) && i < |h.files| && j < |p.files| && h.files[i].id == p.files[j].id
      ensures KeepsSlot(h.spine.slots[i], |h.files[i].buf|, p.spine.slots[j], |p.files[j].buf|)
    {
      assert Pair(if i < k then i else i + 1, j);
    }
  }

  lemma KeepsItself(g: Layout)
    ensures g.Keeps(g)
  {
    forall i: nat, j: nat | Pair(i, j) && i < |g.files| && j < |g.files| && g.files[i].id == g.files[j].id
      ensures i == j
    {
      assert i == j || Before(i, j) || Before(j, i);
    }
  }

  /** Where the files are the same, so are their nodes and all their blocks. */
  lemma SameSlots(g: Layout, p: Shape)
    requires g.Keeps(p) && g.files == p.files
    ensures g.spine.slots == p.spine.slots
  {
    forall i | 0 <= i < |g.files| ensures g.spine.slots[i] == p.spine.slots[i] {
      assert Pair(i, i);
    }
  }

  /** The objects of one slot are those of no other. */
  lemma ApartFrom(g: Layout, k: nat)
    requires k < |g.spine.slots|
    ensures forall i :: 0 <= i < |g.spine.slots| && i != k ==> g.spine.slots[i].Apart(g.spine.slots[k])
  {
    forall i | 0 <= i < |g.spine.slots| && i != k ensures g.spine.slots[i].Apart(g.spine.slots[k]) {
      assert Before(i, k) || Before(k, i);
    }
  }

  /** `_fs_file_link`: prepends. */
  method FileLink(list: FsFile, file: FsFile, ghost g: Layout, ghost s: Slot)
    requires g.spine.list == list && g.spine.Chain()
    requires file == s.node && file != list
    requires forall i :: 0 <= i < |g.spine.slots| ==> g.spine.slots[i].node != file
    modifies list`next, file`next
    ensures g.spine.Prepend(s).Within() && g.spine.Prepend(s).Chain()
  {
    file.next := list.next;
    list.next := file;
  }

  /** The end of `_fs_file_alloc`: fills in the new node and links it. */
  method Adopt(list: FsFile, node: FsFile, zNameCopy: array<byte>, buf: array<byte>,
               ghost g: Layout, ghost f: File)
    requires g.spine.list == list && g.spine.Chain() && g.Stored() && node != list
    requires forall i :: 0 <= i < |g.spine.slots| ==> Slot(node, zNameCopy, buf).Apart(g.spine.slots[i])
    requires f.len == 0 && f.ref == 0 && !f.deleteOnClose && f.buf == buf[..] && zNameCopy[..] == f.name + [0]
    modifies list`next, node
    ensures var h := g.Prepend(Slot(node, zNameCopy, buf), f); h.spine.Within() && h.spine.Chain() && h.Stored()
  {
    node.Fill(zNameCopy, buf);
    FileLink(list, node, g, Slot(node, zNameCopy, buf));
  }

  /** The two assignments of `_fs_file_unlink`. */
  method Splice(prev: FsFile, file: FsFile, ghost k: nat, ghost g: Layout)
    requires g.spine.Chain() && k < |g.spine.slots| == |g.files|
    requires prev == (if k == 0 then g.spine.list else g.spine.slots[k - 1].node) && file == g.spine.slots[k].node
    modifies prev`next, file`next
    ensures g.spine.Remove(k).Within() && g.spine.Remove(k).Chain()
  {
    ApartFrom(g, k);
    if k > 0 {
      ApartFrom(g, k - 1);
    }
    prev.next := file.next;
    file.next := null;
    SplicedChain(g, k);
  }

  /** A chain that jumps over position k is the chain without it. */
  lemma SplicedChain(g: Layout, k: nat)
    requires k < |g.spine.slots| == |g.files| && g.spine.list != null
    requires g.spine.list.next == if k == 0 then g.spine.At(1) else g.spine.At(0)
    requires k > 0 ==> g.spine.slots[k - 1].node.next == g.spine.At(k + 1)
    requires forall i {:trigger g.spine.slots[i].node.next} :: 0 <= i < |g.spine.slots| && i != k && i + 1 != k ==>
      g.spine.slots[i].node.next == g.spine.At(i + 1)
    ensures g.spine.Remove(k).Within() && g.spine.Remove(k).Chain()
  {
    var s, h := g.spine.slots, g.spine.Remove(k);
    forall i {:trigger h.slots[i].node.next} | 0 <= i < |h.slots| ensures h.slots[i].node.next == h.At(i + 1) {
      var j := if i < k then i else i + 1;
      assert h.slots[i] == s[j] && (j + 1 != k ==> s[j].node.next == g.spine.At(j + 1));
    }
  }

  /** `_fs_file_unlink`: takes out exactly the given node. */
  method FileUnlink(list: FsFile, file: FsFile, ghost k: nat, ghost g: Layout)
    requires g.spine.list == list && g.spine.Chain()
    requires k < |g.spine.slots| == |g.files| && g.spine.slots[k].node == file
    modifies g.spine.Nodes()`next
    ensures g.spine.Remove(k).Within() && g.spine.Remove(k).Chain()
  {
    ApartFrom(g, k);
    var prev: FsFile := list;
    var next := list.next;
    ghost var i: nat := 0;
    while next != null
      invariant i <= k && next == g.spine.At(i)
      invariant prev == if i == 0 then list else g.spine.slots[i - 1].node
      decreases |g.spine.slots| - i
    {
      if next == file {
        Splice(prev, file, k, g);
        return;
      }
      prev := next;
      next := next.next;
      i := i + 1;
    }
  }

  /** Unlinking leaves the other files as they are. */
  method Detach(list: FsFile, file: FsFile, ghost k: nat, ghost g: Layout)
    requires g.spine.list == list && g.spine.Chain() && g.Stored()
    requires k < |g.files| && g.spine.slots[k].node == file
    modifies g.spine.Nodes()`next
    ensures g.Remove(k).spine.Within() && g.Remove(k).spine.Chain() && g.Remove(k).Stored()
  {
    FileUnlink(list, file, k, g);
    RemoveStored(g, k);
  }

  /** The files that stay are stored where they were. */
  lemma RemoveStored(g: Layout, k: nat)
    requires g.Stored() && k < |g.files|
    ensures g.Remove(k).spine.Within() && g.Remove(k).Stored()
  {
    var h := g.Remove(k);
    forall i | 0 <= i < |h.files| ensures h.spine.slots[i].Holds(h.files[i]) {
      var j := if i < k then i else i + 1;
      assert h.spine.slots[i] == g.spine.slots[j] && h.files[i] == g.files[j];
    }
  }

  /** `file->ref = ref` for the node at position k. */
  method SetRef(file: FsFile, ref: int, ghost g: Layout, ghost k: nat)
    requires g.spine.Chain() && g.Stored() && k < |g.files| && g.spine.slots[k].node == file
    modifies file`ref
    ensures g.spine.Chain() && g.Update(k, g.files[k].(ref := ref)).Stored()
  {
    ApartFrom(g, k);
    file.ref := ref;
  }

  /** `file->data.len = len` for the node at position k. */
  method SetLen(file: FsFile, len: int, ghost g: Layout, ghost k: nat)
    requires g.spine.Chain() && g.Stored() && k < |g.files| && g.spine.slots[k].node == file
    modifies file`len
    ensures g.spine.Chain() && g.Update(k, g.files[k].(len := len)).Stored()
  {
    ApartFrom(g, k);
    file.len := len;
  }

  /** `file->deleteOnClose = 1` for the node at position k. */
  method SetDelete(file: FsFile, ghost g: Layout, ghost k: nat)
    requires g.spine.Chain() && g.Stored() && k < |g.files| && g.spine.slots[k].node == file
    modifies file`deleteOnClose
    ensures g.spine.Chain() && g.Update(k, g.files[k].(deleteOnClose := true)).Stored()
  {
    ApartFrom(g, k);
    file.deleteOnClose := true;
  }

  /** `file->data.buf = buf` for the node at position k; `buf` is a block of no other file. */
  method SetBuf(file: FsFile, buf: array<byte>, ghost g: Layout, ghost k: nat)
    requires g.spine.Chain() && g.Stored() && k < |g.files| && g.spine.slots[k].node == file
    requires g.spine.Rebuffer(k, buf).Within()
    modifies file`buf
    ensures g.spine.Rebuffer(k, buf).Chain() && g.Rebuffer(k, g.files[k].(buf := buf[..]), buf).Stored()
  {
    ApartFrom(g, k);
    file.buf := buf;
  }

  /** The copy of `fs_write` into the buffer of the node at position k. */
  method Poke(file: FsFile, d: nat, data: array<byte>, n: nat, ghost g: Layout, ghost k: nat)
    requires g.spine.Chain() && g.Stored() && k < |g.files| && g.spine.slots[k].node == file
    requires data !in g.spine.repr && n <= data.Length && d + n <= |g.files[k].buf|
    modifies g.spine.slots[k].buf
    ensures g.spine.Chain() && g.Update(k, g.files[k].(buf := Overlay(g.files[k].buf, d, data[..n]))).Stored()
  {
    ApartFrom(g, k);
    assert g.spine.slots[k].Holds(g.files[k]);
    assert g.spine.slots[k].Objects() <= g.spine.repr;
    CopyData(file.buf, d, data, 0, n);
    assert data[0..n] == data[..n];
  }

  /** The copy of `fs_write` and the assignment of the new length. */
  method PokeLen(file: FsFile, d: nat, data: array<byte>, n: nat, ghost g: Layout, ghost k: nat) returns (ghost f: File)
    requires g.spine.Chain() && g.Stored() && k < |g.files| && g.spine.slots[k].node == file
    requires data !in g.spine.repr && n <= data.Length && d + n <= |g.files[k].buf|
    modifies g.spine.slots[k].buf, file`len
    ensures f == g.files[k].(buf := Overlay(g.files[k].buf, d, data[..n]), len := d + n)
    ensures g.spine.Chain() && g.Update(k, f).Stored()
  {
    ghost var b := g.files[k].(buf := Overlay(g.files[k].buf, d, data[..n]));
    f := b.(len := d + n);
    UpdateSound(g, k, b);
    Poke(file, d, data, n, g, k);
    SetLen(file, d + n, g.Update(k, b), k);
  }

  /** The realloc of `_fs_data_ensure_capacity` for the node at position k. */
  method ReallocBuf(mem: Mem, file: FsFile, newSize: int, ghost k: nat, ghost g: Layout, ghost others: set<object>)
      returns (newBuf: array?<byte>, ghost f: File)
    requires g.spine.Chain() && g.Stored() && k < |g.files| && g.spine.slots[k].node == file
    requires mem.Valid() && g.Owns(mem.live) && mem !in g.spine.repr && |g.files[k].buf| <= newSize <= INT_MAX
    requires g.spine.repr <= others
    modifies mem, file`buf
    ensures mem.Valid() && mem.calls == old(mem.calls) + 1 && (newBuf != null <==> mem.env.grants(old(mem.calls)))
    ensures mem.leaked == old(mem.leaked)
    ensures mem.copied == old(mem.copied) + if newBuf == null then 0 else |g.files[k].buf|
    ensures newBuf == null ==> mem.live == old(mem.live) && g.spine.Chain() && g.Stored()
    ensures newBuf != null ==> fresh(newBuf) && newBuf !in others
    ensures newBuf != null ==> f == g.files[k].(
      buf := g.files[k].buf + mem.env.Fresh(old(mem.calls), newSize)[|g.files[k].buf|..])
    ensures newBuf != null ==> var h := g.Rebuffer(k, f, newBuf);
      h.spine.Within() && h.spine.Chain() && h.Stored() && h.Owns(mem.live)
  {
    f := g.files[k];
    assert g.spine.slots[k].Holds(f);
    RemoveOwned(g, k, mem.live);
    newBuf := mem.Realloc(file.buf, newSize);
    if newBuf != null {
      f := f.(buf := newBuf[..]);
      RebufferSound(g, k, f, newBuf);
      RebufferOwned(g, k, f, newBuf, old(mem.live));
      SetBuf(file, newBuf, g, k);
    }
  }

  /** `_fs_file_free`: gives back the name, the buffer and the node. */
  method FileFree(mem: Mem, file: FsFile, ghost s: Slot)
    requires mem.Valid() && s.Regions() <= mem.live && s.name != s.buf
    requires file == s.node && file.zName == s.name && file.buf == s.buf
    modifies mem, file`zName, file`buf
    ensures mem.Valid() && mem.calls == old(mem.calls) && mem.live == old(mem.live) - s.Regions()
    ensures mem.copied == old(mem.copied)
    ensures mem.outstanding == old(mem.outstanding) && mem.maxMemory == old(mem.maxMemory) && mem.ledger == old(mem.ledger)
    ensures mem.leaked == old(mem.leaked) + s.name.Length + s.buf.Length + SIZEOF_FS_FILE + 3 * SIZEOF_INT
  {
    if file.zName != null {
      mem.Free(Bytes(file.zName));
      file.zName := null;
    }
    if file.buf != null {
      mem.Free(Bytes(file.buf));
      file.buf := null;
    }
    mem.Free(Struct(file, SIZEOF_FS_FILE));
  }

  /** Unlinks and frees the file at position k. */
  method Unload(mem: Mem, list: FsFile, file: FsFile, ghost k: nat, ghost g: Layout)
    requires g.spine.list == list && g.spine.Chain() && g.Stored()
    requires k < |g.files| && g.spine.slots[k].node == file
    requires mem.Valid() && g.Owns(mem.live) && mem !in g.spine.repr
    modifies mem, g.spine.Nodes()`next, file`zName, file`buf
    ensures g.Remove(k).spine.Within() && g.Remove(k).spine.Chain() && g.Remove(k).Stored()
    ensures mem.Valid() && mem.calls == old(mem.calls) && g.Remove(k).Owns(mem.live)
    ensures mem.copied == old(mem.copied) && mem.leaked == old(mem.leaked) + FileCharge(g.files[k])
    ensures mem.outstanding == old(mem.outstanding) && mem.maxMemory == old(mem.maxMemory) && mem.ledger == old(mem.ledger)
  {
    ghost var s := g.spine.slots[k];
    RemoveOwned(g, k, mem.live);
    StoredSized(g);
    assert s.Holds(g.files[k]);
    Detach(list, file, k, g);
    ApartFrom(g, k);
    FileFree(mem, file, s);
  }

  /** What is left once the first i files are freed. */
  ghost function Left(g: Layout, i: nat): set<Region>
    requires i <= |g.spine.slots| && g.spine.list != null
  {
    g.foreign + {Struct(g.spine.list, SIZEOF_FS_FILE)} + Blocks(g.spine.slots[i..])
  }

  /** The blocks have the sizes of what they store. */
  ghost predicate Sized(g: Shape) {
    |g.spine.slots| == |g.files| && forall i :: 0 <= i < |g.files| ==>
      g.spine.slots[i].name.Length == |g.files[i].name| + 1 && g.spine.slots[i].buf.Length == |g.files[i].buf|
  }

  lemma StoredSized(g: Layout)
    requires g.Stored()
    ensures Sized(g)
  {
    forall i | 0 <= i < |g.files|
      ensures g.spine.slots[i].name.Length == |g.files[i].name| + 1 && g.spine.slots[i].buf.Length == |g.files[i].buf|
    {
      var s, f := g.spine.slots[i], g.files[i];
      assert s.Holds(f);
      assert |s.name[..]| == |f.name + [0]| && |s.buf[..]| == |f.buf|;
    }
  }

  /** The files from position i on still have their blocks. */
  ghost predicate Intact(slots: seq<Slot>, i: nat)
    reads set s <- slots :: s.node`zName, set s <- slots :: s.node`buf
  {
    forall j :: i <= j < |slots| ==> slots[j].node.zName == slots[j].name && slots[j].node.buf == slots[j].buf
  }

  /** Frees the file at position i. */
  method FreeNext(mem: Mem, file: FsFile, ghost i: nat, ghost g: Layout)
    requires i < |g.spine.slots| && g.spine.list != null && g.foreign !! g.spine.Regions()
    requires file == g.spine.slots[i].node && Intact(g.spine.slots, i)
    requires mem.Valid() && mem.live == Left(g, i)
    modifies mem, file`zName, file`buf
    ensures mem.Valid() && mem.calls == old(mem.calls) && mem.live == Left(g, i + 1)
    ensures mem.copied == old(mem.copied)
    ensures mem.outstanding == old(mem.outstanding) && mem.maxMemory == old(mem.maxMemory) && mem.ledger == old(mem.ledger)
    ensures mem.leaked == old(mem.leaked) + g.spine.slots[i].name.Length + g.spine.slots[i].buf.Length
      + SIZEOF_FS_FILE + 3 * SIZEOF_INT
    ensures Intact(g.spine.slots, i + 1)
  {
    LeftStep(g, i);
    ApartFrom(g, i);
    FileFree(mem, file, g.spine.slots[i]);
  }

  /** The loop of `fs_deinit`: frees the blocks of every linked file, front to back. */
  method FreeAll(mem: Mem, list: FsFile, ghost g: Layout)
    requires g.spine.list == list && g.spine.Chain() && g.Stored()
    requires mem.Valid() && g.Owns(mem.live) && mem !in g.spine.repr
    modifies mem, g.spine.Nodes()`zName, g.spine.Nodes()`buf
    ensures mem.Valid() && mem.calls == old(mem.calls)
    ensures mem.copied == old(mem.copied) && mem.leaked == old(mem.leaked) + Charges(g.files)
    ensures mem.outstanding == old(mem.outstanding) && mem.maxMemory == old(mem.maxMemory) && mem.ledger == old(mem.ledger)
    ensures mem.live == g.foreign + {Struct(list, SIZEOF_FS_FILE)}
  {
    ghost var slots, i: nat := g.spine.slots, 0;
    var file := list.next;
    assert slots[0..] == slots && forall j :: 0 <= j < |slots| ==> slots[j].Holds(g.files[j]);
    assert g.files[0..] == g.files;
    StoredSized(g);
    while file != null
      invariant i <= |slots| && file == g.spine.At(i)
      invariant mem.Valid() && mem.calls == old(mem.calls) && mem.live == Left(g, i)
      invariant mem.copied == old(mem.copied) && mem.leaked + Charges(g.files[i..]) == old(mem.leaked) + Charges(g.files)
      invariant mem.outstanding == old(mem.outstanding) && mem.maxMemory == old(mem.maxMemory)
      invariant mem.ledger == old(mem.ledger)
      invariant Intact(slots, i)
      decreases |slots| - i
    {
      var next := file.next;
      assert file == slots[i].node && next == g.spine.At(i + 1);
      FreeNext(mem, file, i, g);
      assert g.files[i..][1..] == g.files[i + 1..] && g.files[i..][0] == g.files[i];
      file := next;
      i := i + 1;
    }
  }

  /** The blocks from position i on are those of file i and, apart from them, the rest. */
  lemma BlocksFrom(g: Layout, i: nat)
    requires i < |g.spine.slots|
    ensures var s := g.spine.slots;
      && Blocks(s[i..]) == Blocks(s[i + 1..]) + s[i].Regions()
      && Blocks(s[i + 1..]) !! s[i].Regions()
  {
    var s := g.spine.slots;
    BlocksSplit(s[i..], 0);
    assert FileModel.Without(s[i..], 0) == s[i + 1..];
    BlocksApart(g, i);
    assert forall t <- s[i + 1..] :: t in g.spine.Remove(i).slots;
  }

  lemma LeftStep(g: Layout, i: nat)
    requires i < |g.spine.slots| && g.spine.list != null && g.foreign !! g.spine.Regions()
    ensures var r := g.spine.slots[i].Regions();
      r <= Left(g, i) && Left(g, i) - r == Left(g, i + 1) && g.spine.slots[i].name != g.spine.slots[i].buf
  {
    var s := g.spine.slots;
    BlocksFrom(g, i);
    assert s[i].Regions() <= Blocks(s) by { assert s[i] in s; }
  }

  lemma SlotCount(s: Slot)
    requires s.name != s.buf
    ensures |s.Regions()| == 3
  {
    assert s.Regions() == {Struct(s.node, SIZEOF_FS_FILE)} + {Bytes(s.name)} + {Bytes(s.buf)};
  }

  lemma {:induction false} BlockCount(g: Layout, i: nat)
    requires i <= |g.spine.slots|
    ensures |Blocks(g.spine.slots[i..])| == 3 * (|g.spine.slots| - i)
    decreases |g.spine.slots| - i
  {
    var s := g.spine.slots;
    if i == |s| {
      assert Blocks(s[i..]) == {};
    } else {
      BlockCount(g, i + 1);
      BlocksFrom(g, i);
      SlotCount(s[i]);
    }
  }

  /** The file system owns one region for the sentinel and three for each linked file. */
  lemma RegionCount(g: Layout)
    requires g.spine.list != null
    ensures |g.spine.Regions()| == 1 + 3 * |g.spine.slots|
  {
    var s := g.spine.slots;
    BlockCount(g, 0);
    assert s[0..] == s;
    assert Struct(g.spine.list, SIZEOF_FS_FILE) !in Blocks(s);
  }

  lemma SlotCharge(s: Slot)
    requires s.name != s.buf
    ensures ChargeOf(s.Regions()) == SIZEOF_FS_FILE + s.name.Length + s.buf.Length + 3 * SIZEOF_INT
  {
    var a, b, c := Struct(s.node, SIZEOF_FS_FILE), Bytes(s.name), Bytes(s.buf);
    ChargeWith({}, a);
    ChargeWith({a}, b);
    ChargeWith({a, b}, c);
    assert {} + {a} == {a} && {a} + {b} == {a, b} && {a, b} + {c} == s.Regions();
  }

  lemma {:induction false} BlockCharge(g: Layout, i: nat)
    requires i <= |g.spine.slots| && Sized(g)
    ensures ChargeOf(Blocks(g.spine.slots[i..])) == Charges(g.files[i..])
    decreases |g.spine.slots| - i
  {
    var s := g.spine.slots;
    if i == |s| {
      assert Blocks(s[i..]) == {};
    } else {
      BlockCharge(g, i + 1);
      BlocksFrom(g, i);
      SlotCharge(s[i]);
      ChargeUnion(Blocks(s[i + 1..]), s[i].Regions());
      assert g.files[i..][1..] == g.files[i + 1..];
    }
  }

  /** The sentinel and the blocks of all linked files. */
  lemma SpineCharge(g: Layout)
    requires g.spine.list != null && g.Stored()
    ensures ChargeOf(g.spine.Regions()) == SIZEOF_FS_FILE + SIZEOF_INT + Charges(g.files)
  {
    var s, r := g.spine.slots, Struct(g.spine.list, SIZEOF_FS_FILE);
    StoredSized(g);
    BlockCharge(g, 0);
    assert s[0..] == s && g.files[0..] == g.files;
    assert r !in Blocks(s);
    ChargeWith(Blocks(s), r);
    assert Blocks(s) + {r} == g.spine.Regions();
  }

  /** The test of the loop in `_fs_find_file`. */
  method HasName(n: FsFile, zName: seq<byte>, ghost s: Slot, ghost f: File) returns (r: bool)
    requires n == s.node && s.Holds(f) && 0 !in f.name && 0 in zName
    ensures r == Matches(f, Str(zName))
  {
    assert n.zName[..] == f.name + [0];
    assert n.zName[..][..|f.name|] == f.name;
    StrIs(n.zName[..], |f.name|);
    var eq := StrEquals(n.zName[..], zName, MAX_PATHNAME);
    r := eq == 1;
  }

  /** `_fs_find_file`. */
  method FindFile(list: FsFile, zName: seq<byte>, ghost g: Layout) returns (file: FsFile?)
    requires g.spine.list == list && g.spine.Chain() && g.Stored()
    requires 0 in zName
    ensures file == g.spine.At(Find(g.files, Str(zName)))
  {
    ghost var i: nat, k, name := 0, Find(g.files, Str(zName)), Str(zName);
    file := list.next;
    while file != null
      invariant i <= |g.spine.slots| && file == g.spine.At(i) && i <= k
      decreases |g.spine.slots| - i
    {
      var found := HasName(file, zName, g.spine.slots[i], g.files[i]);
      assert found == Matches(g.files[i], name);
      if found {
        return;
      }
      assert i != k;
      file := file.next;
      i := i + 1;
    }
  }

  /** Up to three requests from the n-th on, all granted or not; what was granted before a
      refusal is freed and stays charged. */
  ghost predicate Asked(env: Env, n: nat, before: nat, calls: nat, leaked: nat, ok: bool) {
    match (env.grants(n), env.grants(n + 1), env.grants(n + 2))
    case (false, _, _) => !ok && calls == n + 1 && leaked == before
    case (true, false, _) => !ok && calls == n + 2 && leaked == before + SIZEOF_FS_FILE + SIZEOF_INT
    case (true, true, false) =>
      !ok && calls == n + 3 && leaked == before + SIZEOF_FS_FILE + INITIAL_BUF_DATA_SIZE + 2 * SIZEOF_INT
    case (true, true, true) => ok && calls == n + 3 && leaked == before
  }

  /** `_fs_copydata` from one block into another. */
  method CopyData(dst: array<byte>, d: nat, src: array<byte>, o: nat, n: int)
    requires dst != src
    requires n <= 0 || (d + n <= dst.Length && o + n <= src.Length)
    modifies dst
    ensures dst[..] == if n <= 0 then old(dst[..]) else Overlay(old(dst[..]), d, src[o..o + n])
  {
    var i := 0;
    while i < n
      invariant 0 <= i && (i <= n || i == 0)
      invariant forall j :: 0 <= j < dst.Length ==> dst[j] == if d <= j < d + i then src[o + j - d] else old(dst[j])
    {
      dst[d + i] := src[o + i];
      i := i + 1;
    }
  }

  /** The copy of `fs_read`, to the front of the caller's buffer. */
  method CopyOut(dst: array<byte>, src: array<byte>, o: nat, n: int, ghost bytes: seq<byte>)
    requires dst != src && bytes == src[..]
    requires n <= 0 || (n <= dst.Length && o + n <= src.Length)
    modifies dst
    ensures dst[..] == if n <= 0 then old(dst[..]) else bytes[o..o + n] + old(dst[..])[n..]
  {
    if n > 0 {
      assert src[o..o + n] == bytes[o..o + n];
      CopyData(dst, 0, src, o, n);
    }
  }

  class Files {
    const mem: Mem
    /** `_fs_file_list`. */
    var list: FsFile?

    ghost var shape: Layout
    /** The live regions that belong to other users of the allocator. No operation on files
        changes them. */
    ghost var foreign: set<Region>
    /** An earlier layout, kept to compare with. */
    ghost var pinned: Shape

    /** The heap looks as `g` says. */
    ghost predicate Fits(g: Layout)
      reads this, mem, g.spine.repr
    {
      && list == g.spine.list && foreign == g.foreign && this !in g.spine.repr && mem !in g.spine.repr
      && g.spine.Chain() && g.Stored()
      && mem.Valid() && g.Owns(mem.live)
      && g.Keeps(pinned)
    }

    ghost predicate Valid()
      reads this, mem, shape.spine.repr
    {
      Fits(shape)
    }

    /** Records the layout that an operation leaves behind. */
    ghost method Commit(g: Layout)
      requires Fits(g)
      modifies this`shape
      ensures Valid() && shape == g
    {
      shape := g;
    }

    /** Keeps the current layout to compare with. */
    ghost method Pin()
      requires Valid()
      modifies this`pinned
      ensures Valid() && pinned == shape
    {
      KeepsItself(shape);
      pinned := shape;
    }

    /** When the files are those of the pinned layout, so are the nodes, in their order, and
        all blocks. */
    lemma Unmoved()
      requires Valid() && shape.files == pinned.files
      ensures shape.spine.slots == pinned.spine.slots
      ensures list == pinned.spine.list != null ==> mem.live == foreign + pinned.spine.Regions()
    {
      SameSlots(shape, pinned);
    }

    /** The list of files as a value. */
    ghost function State(): State
      reads this, mem
    {
      FileModel.State(shape.files, shape.nextId, mem.calls, mem.copied, mem.leaked)
    }

    /** `file` is the node of the linked file `id`. */
    ghost predicate IsFile(file: FsFile, id: nat)
      reads this, mem
    {
      FileModel.Linked(State(), id) && id in shape.nodeOf && shape.nodeOf[id] == file
    }

    constructor (mem: Mem)
      ensures this.mem == mem && list == null
    {
      this.mem := mem;
      list := null;
      shape := Shape(Spine(null, [], {}), [], 0, map[], {});
      foreign := {};
      pinned := Shape(Spine(null, [], {}), [], 0, map[], {});
    }

    /** `fs_init`, which does not test whether its one request is granted. */
    method FsInit()
      requires list == null && mem.Valid() && mem.env.grants(mem.calls)
      modifies this, mem
      ensures Valid() && fresh(shape.spine.repr) && State() == FileModel.State([], 0, old(mem.calls) + 1, old(mem.copied), old(mem.leaked))
      ensures foreign == old(mem.live) && mem.outstanding == old(mem.outstanding) + SIZEOF_FS_FILE + SIZEOF_INT
    {
      var node := new FsFile();
      node.zName := null;
      node.buf := null;
      node.next := null;
      shape := Shape(Spine(node, [], {node}), [], 0, map[], mem.live);
      foreign, pinned := mem.live, shape;
      var granted := mem.MallocRegion(Struct(node, SIZEOF_FS_FILE), SIZEOF_FS_FILE);
      list := node;
    }

    /** Between calls, the live regions are those of other users, one for the sentinel and
        three for each linked file. */
    lemma LiveCount()
      requires Valid()
      ensures |mem.live| == |foreign| + 1 + 3 * |State().files|
    {
      RegionCount(shape);
    }

    /** Between calls, `outstanding_memory` is what the live regions of other users are charged,
        the sentinel, the blocks of the linked files, and everything that plain frees lost. */
    lemma Charged()
      requires Valid()
      ensures mem.outstanding == ChargeOf(foreign) + SIZEOF_FS_FILE + SIZEOF_INT + Charges(State().files) + State().leaked
    {
      mem.Charged();
      SpineCharge(shape);
      ChargeUnion(foreign, shape.spine.Regions());
    }

    /** `_fs_copystring` with n = MAX_PATHNAME. */
    method CopyString(str: seq<byte>) returns (copy: array?<byte>)
      requires mem.Valid() && 0 in str
      modifies mem
      ensures mem.Valid() && mem.calls == old(mem.calls) + 1
      ensures mem.copied == old(mem.copied) && mem.leaked == old(mem.leaked)
      ensures copy != null <==> mem.env.grants(old(mem.calls))
      ensures copy == null ==> mem.live == old(mem.live) && mem.outstanding == old(mem.outstanding)
      ensures copy != null ==> fresh(copy) && Bytes(copy) !in old(mem.live)
      ensures copy != null ==> mem.live == old(mem.live) + {Bytes(copy)} && copy[..] == Clip(Str(str)) + [0]
    {
      var len := 0;
      while str[len] != 0 && len < MAX_PATHNAME
        invariant 0 <= len <= |Str(str)| && len <= MAX_PATHNAME
        decreases MAX_PATHNAME - len
      {
        len := len + 1;
      }
      assert Str(str)[..len] == Clip(Str(str));

      copy := mem.Malloc(len + 1);
      if copy == null {
        return;
      }
      var i := 0;
      while i < len
        invariant 0 <= i <= len
        invariant forall j :: 0 <= j < i ==> copy[j] == Str(str)[j]
        modifies copy
      {
        copy[i] := str[i];
        i := i + 1;
      }
      copy[len] := 0;
    }

    /** The three requests of `_fs_file_alloc`, in order. One that is refused gives back what
        was granted before it. */
    method AllocBlocks(zName: seq<byte>, ghost others: set<object>)
        returns (node: FsFile?, zNameCopy: array?<byte>, buf: array?<byte>, ghost made: set<object>)
      requires mem.Valid() && 0 in zName
      modifies mem
      ensures mem.Valid() && mem.copied == old(mem.copied)
      ensures Asked(mem.env, old(mem.calls), old(mem.leaked), mem.calls, mem.leaked, node != null)
      ensures node == null ==> mem.live == old(mem.live)
      ensures node == null ==> mem.outstanding - old(mem.outstanding) == mem.leaked - old(mem.leaked)
      ensures fresh(made) && made !! others
      ensures if node == null then made == {} else zNameCopy != null && buf != null && made == {node, zNameCopy, buf}
      ensures node != null ==> zNameCopy != buf && old(mem.live) !! Slot(node, zNameCopy, buf).Regions()
      ensures node != null ==> mem.live == old(mem.live) + Slot(node, zNameCopy, buf).Regions()
      ensures node != null ==> buf[..] == mem.env.Fresh(old(mem.calls) + 1, INITIAL_BUF_DATA_SIZE)
      ensures node != null ==> zNameCopy[..] == Clip(Str(zName)) + [0]
    {
      var file := new FsFile();
      node, zNameCopy, buf, made := null, null, null, {};
      var granted := mem.MallocRegion(Struct(file, SIZEOF_FS_FILE), SIZEOF_FS_FILE);
      if !granted {
        return;
      }
      buf := mem.Malloc(INITIAL_BUF_DATA_SIZE);
      if buf == null {
        mem.Free(Struct(file, SIZEOF_FS_FILE));
        return;
      }
      zNameCopy := CopyString(zName);
      if zNameCopy == null {
        mem.Free(Struct(file, SIZEOF_FS_FILE));
        mem.Free(Bytes(buf));
        return;
      }
      node, made := file, {file, zNameCopy, buf};
    }

    /** The end of `_fs_file_alloc`, for blocks that are granted and belong to no file yet. */
    method Register(node: FsFile, zNameCopy: array<byte>, buf: array<byte>, ghost made: set<object>, ghost f: File)
      requires list == shape.spine.list && shape.spine.Chain() && shape.Stored() && {this, mem} !! shape.spine.repr
      requires shape.foreign == foreign && shape.Keeps(pinned)
      requires made == {node, zNameCopy, buf} && made !! shape.spine.repr + {this, mem} && zNameCopy != buf
      requires f.id == shape.nextId && f.len == 0 && f.ref == 0 && !f.deleteOnClose
      requires f.buf == buf[..] && zNameCopy[..] == f.name + [0]
      requires FileOk(f) && NameFree(shape.files, f.name)
      requires mem.Valid() && shape.Prepend(Slot(node, zNameCopy, buf), f).Owns(mem.live)
      modifies this`shape, shape.spine.list`next, node
      ensures Valid() && shape == old(shape).Prepend(Slot(node, zNameCopy, buf), f)
    {
      PrependSound(shape, Slot(node, zNameCopy, buf), f);
      PrependKeeps(shape, Slot(node, zNameCopy, buf), f, pinned);
      Adopt(list, node, zNameCopy, buf, shape, f);
      Commit(shape.Prepend(Slot(node, zNameCopy, buf), f));
    }

    /** The body of `_fs_file_alloc`, for the file `f` that it links unless a request is refused. */
    method AllocNode(zName: seq<byte>, ghost f: File) returns (file: FsFile?, ghost made: set<object>)
      requires Valid() && 0 in zName && f == NewFile(mem.env, State(), Str(zName))
      requires FileOk(f) && NameFree(shape.files, f.name)
      modifies this`shape, mem, shape.spine.list`next
      ensures Valid() && fresh(made) && shape.spine.repr == old(shape.spine.repr) + made
      ensures Asked(mem.env, old(mem.calls), old(mem.leaked), mem.calls, mem.leaked, file != null)
      ensures mem.copied == old(mem.copied)
      ensures file == null ==> shape == old(shape)
      ensures file != null ==> shape.files == [f] + old(shape.files) && shape.nextId == old(shape.nextId) + 1
      ensures file != null ==> file in made && shape.nodeOf == old(shape.nodeOf)[old(shape.nextId) := file]
      ensures file != null ==> |shape.spine.slots| > 0 && shape.spine.slots[0].node == file
    {
      ghost var g := shape;
      var node, zNameCopy, buf, blocks := AllocBlocks(zName, g.spine.repr + {this, mem});
      file, made := node, blocks;
      if node != null {
        PrependOwned(g, Slot(node, zNameCopy, buf), f, old(mem.live));
        Register(node, zNameCopy, buf, blocks, f);
      }
    }

    /** `_fs_file_alloc`. */
    method FileAlloc(zName: seq<byte>) returns (file: FsFile?, ghost made: set<object>)
      requires Valid() && 0 in zName && Find(shape.files, Str(zName)) == |shape.files|
      modifies this`shape, mem, shape.spine.list`next
      ensures Valid() && fresh(made) && shape.spine.repr == old(shape.spine.repr) + made
      ensures State() == Alloc(mem.env, old(State()), Str(zName)).0
      ensures file != null <==> Alloc(mem.env, old(State()), Str(zName)).1
      ensures file == null ==> shape == old(shape)
      ensures file != null ==> file in made && shape.nodeOf == old(shape.nodeOf)[old(shape.nextId) := file]
      ensures file != null ==> |shape.spine.slots| > 0 && shape.spine.slots[0].node == file
    {
      ghost var f := NewFile(mem.env, State(), Str(zName));
      AllocWellFormed(mem.env, State(), Str(zName));
      file, made := AllocNode(zName, f);
    }

    /** `file->ref += d` for the file at position k, which becomes `f`. */
    method AddRef(file: FsFile, d: int, ghost k: nat, ghost f: File)
      requires Valid() && k < |shape.spine.slots| && shape.spine.slots[k].node == file
      requires f == shape.files[k].(ref := shape.files[k].ref + d)
      modifies this`shape, file`ref
      ensures Valid() && shape == old(shape).Update(k, f)
    {
      UpdateSound(shape, k, f);
      UpdateKeeps(shape, k, f, pinned);
      SetRef(file, file.ref + d, shape, k);
      Commit(shape.Update(k, f));
    }

    /** The first half of `fs_open`. */
    method FindOrAllocFile(zName: seq<byte>) returns (file: FsFile?, ghost made: set<object>, ghost k: nat)
      requires Valid() && 0 in zName
      modifies this`shape, mem, shape.spine.repr
      ensures Valid() && fresh(made) && shape.spine.repr == old(shape.spine.repr) + made
      ensures (State(), if file == null then None else Some(k)) == FindOrAlloc(mem.env, old(State()), Str(zName))
      ensures file != null ==> k < |shape.spine.slots| && shape.spine.slots[k].node == file
      ensures forall id <- old(shape.nodeOf) :: id in shape.nodeOf && shape.nodeOf[id] == old(shape.nodeOf)[id]
    {
      made, k := {}, Find(shape.files, Str(zName));
      file := FindFile(list, zName, shape);
      if file == null {
        file, made := FileAlloc(zName);
        k := 0;
      }
    }

    /** One more reference to the file at position k. */
    method Grab(file: FsFile, ghost k: nat, ghost f: File)
      requires Valid() && k < |shape.spine.slots| && shape.spine.slots[k].node == file
      requires f == shape.files[k].(ref := shape.files[k].ref + 1)
      modifies this`shape, file`ref
      ensures Valid() && shape.spine == old(shape.spine) && shape.nodeOf == old(shape.nodeOf)
      ensures State() == Update(old(State()), k, f) && IsFile(file, f.id)
    {
      AddRef(file, 1, k, f);
      LocAt(State(), k);
    }

    /** `fs_open`. */
    method FsOpen(zName: seq<byte>) returns (file: FsFile?, ghost made: set<object>)
      requires Valid() && 0 in zName
      modifies this`shape, mem, shape.spine.repr
      ensures Valid() && fresh(made) && shape.spine.repr == old(shape.spine.repr) + made
      ensures State() == OpenFile(mem.env, old(State()), Str(zName)).0
      ensures var id := OpenFile(mem.env, old(State()), Str(zName)).1;
        if file == null then id == None else id.Some? && IsFile(file, id.value)
      ensures forall id <- old(shape.nodeOf) :: id in shape.nodeOf && shape.nodeOf[id] == old(shape.nodeOf)[id]
    {
      ghost var k, s, name := 0, State(), Str(zName);
      file, made, k := FindOrAllocFile(zName);
      if file == null {
        return;
      }
      ghost var t := State();
      ghost var f := t.files[k].(ref := t.files[k].ref + 1);
      OpenAt(mem.env, s, name, t, k);
      assert OpenFile(mem.env, s, name) == (Update(t, k, f), Some(f.id));
      Grab(file, k, f);
    }

    /** Unlinks and frees the file at position k, as `fs_close` and `fs_delete` do. */
    method Discard(file: FsFile, ghost k: nat)
      requires Valid() && k < |shape.files| && shape.spine.slots[k].node == file
      modifies this`shape, mem, shape.spine.Nodes()`next, file`zName, file`buf
      ensures Valid() && shape == old(shape).Remove(k) && mem.calls == old(mem.calls) && mem.copied == old(mem.copied)
      ensures State() == Discarded(old(State()), k) && mem.leaked == old(mem.leaked) + FileCharge(old(shape).files[k])
      ensures mem.outstanding == old(mem.outstanding) && mem.maxMemory == old(mem.maxMemory) && mem.ledger == old(mem.ledger)
    {
      RemoveSound(shape, k);
      RemoveKeeps(shape, k, pinned);
      Unload(mem, list, file, k, shape);
      Commit(shape.Remove(k));
    }

    /** `fs_close`. */
    method FsClose(file: FsFile, ghost id: nat)
      requires Valid() && IsFile(file, id)
      modifies this`shape, mem, shape.spine.repr
      ensures Valid() && shape.spine.repr == old(shape.spine.repr) && shape.nodeOf == old(shape.nodeOf)
      ensures State() == CloseFile(old(State()), id)
      ensures mem.outstanding == old(mem.outstanding) && mem.maxMemory == old(mem.maxMemory) && mem.ledger == old(mem.ledger)
    {
      ghost var k := Loc(shape.files, id);
      ghost var f := shape.files[k].(ref := shape.files[k].ref - 1);
      assert shape.spine.slots[k].Holds(shape.files[k]);
      AddRef(file, -1, k, f);
      assert shape.spine.slots[k].Holds(shape.files[k]);
      if file.ref == 0 && file.deleteOnClose {
        Discard(file, k);
        assert FileModel.Without(old(shape.files), k) == shape.files;
      }
    }

    /** `fs_exists`. */
    method FsExists(zName: seq<byte>) returns (r: int)
      requires Valid() && 0 in zName
      ensures r == if Find(shape.files, Str(zName)) < |shape.files| then 1 else 0
    {
      var file := FindFile(list, zName, shape);
      r := if file != null then 1 else 0;
    }

    /** `file->deleteOnClose = 1` for the file at position k. */
    method MarkDeleted(file: FsFile, ghost k: nat)
      requires Valid() && k < |shape.files| && shape.spine.slots[k].node == file
      modifies this`shape, file`deleteOnClose
      ensures Valid() && shape == old(shape).Update(k, old(shape).files[k].(deleteOnClose := true))
      ensures State() == Update(old(State()), k, old(State()).files[k].(deleteOnClose := true))
    {
      ghost var f := shape.files[k].(deleteOnClose := true);
      UpdateSound(shape, k, f);
      UpdateKeeps(shape, k, f, pinned);
      SetDelete(file, shape, k);
      Commit(shape.Update(k, f));
    }

    /** `fs_delete`. */
    method FsDelete(zName: seq<byte>) returns (r: int)
      requires Valid() && 0 in zName
      modifies this`shape, mem, shape.spine.repr
      ensures Valid() && shape.spine.repr == old(shape.spine.repr) && shape.nodeOf == old(shape.nodeOf)
      ensures State() == DeleteFile(old(State()), Str(zName)) && r == 1
      ensures mem.outstanding == old(mem.outstanding) && mem.maxMemory == old(mem.maxMemory) && mem.ledger == old(mem.ledger)
    {
      ghost var k := Find(shape.files, Str(zName));
      DeleteAt(State(), Str(zName), k);
      var file := FindFile(list, zName, shape);
      if file == null {
        return 1;
      }
      assert shape.spine.slots[k].Holds(shape.files[k]);
      if file.ref == 0 {
        Discard(file, k);
      } else {
        MarkDeleted(file, k);
      }
      return 1;
    }

    /** `fs_truncate`. */
    method FsTruncate(file: FsFile, size: int, ghost id: nat) returns (r: int)
      requires Valid() && IsFile(file, id) && INT64_MIN <= size
      modifies this`shape, file`len
      ensures Valid() && shape.spine == old(shape.spine) && shape.nodeOf == old(shape.nodeOf)
      ensures State() == TruncateFile(old(State()), id, size) && r == 1
    {
      ghost var k := Loc(shape.files, id);
      assert shape.spine.slots[k].Holds(shape.files[k]);
      if size < file.len {
        ghost var f := shape.files[k].(len := size);
        UpdateSound(shape, k, f);
        UpdateKeeps(shape, k, f, pinned);
        SetLen(file, size, shape, k);
        Commit(shape.Update(k, f));
      }
      return 1;
    }

    /** `fs_read`: the bytes that lie inside the file are copied to the front of `buf`. */
    method FsRead(file: FsFile, offset: int, len: int, buf: array<byte>, ghost id: nat) returns (n: int)
      requires Valid() && IsFile(file, id) && buf !in shape.spine.repr
      requires len <= buf.Length && ReadDefined(Get(State(), id), offset, len) && CopyInside(Get(State(), id), offset, len)
      modifies buf
      ensures Valid() && n == ReadCount(Get(State(), id), offset, len)
      ensures buf[..] == if n <= 0 then old(buf[..])
                         else Get(State(), id).buf[offset..offset + n] + old(buf[..])[n..]
    {
      ghost var k := Loc(shape.files, id);
      ghost var f := shape.files[k];
      assert shape.spine.slots[k].Holds(f);
      if offset < 0 || len < 0 {
        return -1;
      }
      var endOffset := offset as int64 + len as int64;
      if endOffset > file.len as int64 {
        endOffset := file.len as int64;
      }
      n := ToInt32((endOffset - offset as int64) as int);
      CopyOut(buf, file.buf, offset, n, f.buf);
    }

    /** Replaces the buffer of the file at position k by a larger one, unless the request is refused. */
    method Regrow(file: FsFile, newSize: int, ghost k: nat) returns (newBuf: array?<byte>)
      requires Valid() && k < |shape.files| && shape.spine.slots[k].node == file
      requires |shape.files[k].buf| < newSize <= INT_MAX
      modifies this`shape, mem, file`buf
      ensures Valid() && mem.calls == old(mem.calls) + 1 && (newBuf != null <==> mem.env.grants(old(mem.calls)))
      ensures mem.leaked == old(mem.leaked)
      ensures mem.copied == old(mem.copied) + if newBuf == null then 0 else |old(shape).files[k].buf|
      ensures newBuf == null ==> shape == old(shape)
      ensures newBuf != null ==> fresh(newBuf) && shape == old(shape).Rebuffer(k, old(shape.files[k]).(
        buf := old(shape.files[k]).buf + mem.env.Fresh(old(mem.calls), newSize)[|old(shape.files[k]).buf|..]), newBuf)
    {
      ghost var f;
      newBuf, f := ReallocBuf(mem, file, newSize, k, shape, shape.spine.repr + {this, mem});
      if newBuf != null {
        RebufferSound(shape, k, f, newBuf);
        RebufferKeeps(shape, k, f, newBuf, pinned);
        Commit(shape.Rebuffer(k, f, newBuf));
      }
    }

    /** The choice of the new size in `_fs_data_ensure_capacity`, and the realloc. */
    method Enlarge(file: FsFile, oldSize: int32, sz: int, ghost k: nat) returns (newBuf: array?<byte>)
      requires Valid() && k < |shape.files| && shape.spine.slots[k].node == file
      requires |shape.files[k].buf| == oldSize as int < sz && GrowthDefined(oldSize as int, sz)
      modifies this`shape, mem, file`buf
      ensures Valid() && mem.calls == old(mem.calls) + 1 && (newBuf != null <==> mem.env.grants(old(mem.calls)))
      ensures mem.leaked == old(mem.leaked)
      ensures mem.copied == old(mem.copied) + if newBuf == null then 0 else oldSize as int
      ensures newBuf == null ==> shape == old(shape)
      ensures newBuf != null ==> fresh(newBuf) && shape == old(shape).Rebuffer(k, old(shape.files[k]).(
        buf := old(shape.files[k]).buf + mem.env.Fresh(old(mem.calls), GrownSize(oldSize as int, sz))[oldSize as int..]), newBuf)
    {
      var newSize := oldSize * 2;
      if newSize as int < sz {
        newSize := sz as int32;
      }
      newBuf := Regrow(file, newSize as int, k);
    }

    /** `_fs_data_ensure_capacity`: 1 on success, 0 if the request is refused. */
    method EnsureCapacity(file: FsFile, sz: int, ghost k: nat) returns (ok: int, ghost made: set<object>)
      requires Valid() && k < |shape.files| && shape.spine.slots[k].node == file
      requires GrowthDefined(|shape.files[k].buf|, sz)
      modifies this`shape, mem, file`buf
      ensures Valid() && fresh(made) && shape.spine.repr == old(shape.spine.repr) + made
      ensures shape.spine.list == old(shape.spine.list) && shape.nodeOf == old(shape.nodeOf)
      ensures |shape.files| == |old(shape.files)| && shape.spine.slots[k].node == file
      ensures (State(), ok == 1) == Grow(mem.env, old(State()), k, sz) && (ok == 0 || ok == 1)
    {
      assert shape.spine.slots[k].Holds(shape.files[k]);
      GrowAt(mem.env, State(), k, sz);
      made := {};
      var oldSize := file.buf.Length as int32;
      if oldSize as int < sz {
        var newBuf := Enlarge(file, oldSize, sz, k);
        if newBuf == null {
          return 0, {};
        }
        made := {newBuf};
      }
      return 1, made;
    }

    /** `fs_size_hint`: the result of growing is dropped. */
    method FsSizeHint(file: FsFile, size: int, ghost id: nat) returns (ghost made: set<object>)
      requires Valid() && IsFile(file, id) && GrowthDefined(|Get(State(), id).buf|, size)
      modifies this`shape, mem, file`buf
      ensures Valid() && fresh(made) && shape.spine.repr == old(shape.spine.repr) + made
      ensures shape.nodeOf == old(shape.nodeOf)
      ensures State() == SizeHint(mem.env, old(State()), id, size)
    {
      var ok;
      ok, made := EnsureCapacity(file, size, Loc(shape.files, id));
    }

    /** The copy and the new length of `fs_write`, once the buffer is large enough. */
    method Store(file: FsFile, offset: nat, len: nat, data: array<byte>, ghost k: nat)
      requires Valid() && k < |shape.files| && shape.spine.slots[k].node == file && data !in shape.spine.repr
      requires len <= data.Length && offset + len <= |shape.files[k].buf|
      modifies this`shape, shape.spine.slots[k].buf, file`len
      ensures Valid() && shape == old(shape).Update(k, old(shape.files[k]).(
        buf := Overlay(old(shape.files[k]).buf, offset, data[..len]), len := offset + len))
    {
      ghost var f := PokeLen(file, offset, data, len, shape, k);
      UpdateSound(shape, k, f);
      UpdateKeeps(shape, k, f, pinned);
      Commit(shape.Update(k, f));
    }

    /** The same, by the state it leaves. */
    method StoreBytes(file: FsFile, offset: nat, len: nat, data: array<byte>, ghost k: nat, ghost bytes: seq<byte>)
      requires Valid() && k < |shape.files| && shape.spine.slots[k].node == file && data !in shape.spine.repr
      requires len <= data.Length && offset + len <= |shape.files[k].buf| && bytes == data[..]
      modifies this`shape, shape.spine.repr
      ensures Valid() && shape.spine == old(shape.spine) && shape.nodeOf == old(shape.nodeOf)
      ensures var s := old(State());
        var f := s.files[k];
        State() == Update(s, k, f.(buf := Overlay(f.buf, offset, bytes[..len]), len := offset + len))
    {
      assert bytes[..len] == data[..len];
      assert shape.spine.slots[k].Objects() <= shape.spine.repr;
      Store(file, offset, len, data, k);
    }

    /** `fs_write`: all of the data or, if the buffer cannot grow, nothing. */
    method FsWrite(file: FsFile, offset: int, len: int, data: array<byte>, ghost id: nat)
        returns (r: int, ghost made: set<object>)
      requires Valid() && IsFile(file, id) && data !in shape.spine.repr
      requires len <= data.Length && WriteDefined(Get(State(), id), offset, len)
      modifies this`shape, mem, shape.spine.repr
      ensures Valid() && fresh(made) && shape.spine.repr == old(shape.spine.repr) + made
      ensures shape.nodeOf == old(shape.nodeOf)
      ensures State() == WriteFile(mem.env, old(State()), id, offset, len, old(data[..])).0
      ensures r == WriteFile(mem.env, old(State()), id, offset, len, old(data[..])).1
    {
      if offset < 0 || len < 0 {
        return -1, {};
      }
      ghost var k, s, bytes := Loc(shape.files, id), State(), data[..];
      var endOffset := offset as int64 + len as int64;
      var ok;
      ok, made := EnsureCapacity(file, endOffset as int, k);
      assert data !in made && data[..] == bytes;
      assert (State(), ok == 1) == Grow(mem.env, s, k, endOffset as int);
      WriteAt(mem.env, s, id, offset, len, bytes, State(), ok == 1);
      if ok == 0 {
        return -1, made;
      }
      StoreBytes(file, offset, len, data, k, bytes);
      return len, made;
    }

    /** `fs_deinit`: every region of the file system is freed, each exactly once. */
    method FsDeinit()
      requires Valid()
      modifies this, mem, shape.spine.repr
      ensures list == null && mem.Valid() && mem.calls == old(mem.calls) && mem.live == old(foreign)
      ensures mem.outstanding == old(mem.outstanding) && mem.maxMemory == old(mem.maxMemory)
    {
      FreeAll(mem, list, shape);
      mem.Free(Struct(list, SIZEOF_FS_FILE));
      list := null;
    }
  }
}
