/** Reachable inputs at which the code does something else than its documentation or the SQLite
    interface suggests. The exact conditions are proved next to the properties. */
module Witnesses {
  import opened Base
  import opened FileModel
  import opened VfsModel
  import opened VfsRuns
  import opened History
  import opened Isolation
  import opened TempFile
  import Accounting
  import Arena

  const A: seq<byte> := [97]

  ghost predicate Generous(env: Env) {
    forall n: nat :: env.grants(n)
  }

  /** Right after `fs_init`. */
  function Initial(): World<int> {
    World(State([], 0, 1, 0, 0), map[])
  }

  /** The world after opening one file through the handle 0. */
  lemma OpenFirst(env: Env, name: seq<byte>, flags: bv32) returns (w: World<int>)
    requires Generous(env) && 0 !in name
    ensures Runnable(env, Initial(), [Open(0, name, flags)]) && Run(env, Initial(), [Open(0, name, flags)]).0 == w
    ensures Step(env, Initial(), Open(0, name, flags)) == (w, Code(SQLITE_OK))
    ensures Consistent(w) && IsOpen(w, 0) && w.handles == map[0 := 0]
    ensures FileOf(w, 0).len == 0 && |FileOf(w, 0).buf| == INITIAL_BUF_DATA_SIZE
  {
    var op := Open(0, name, flags);
    OpenSucceedsExactly(env, Initial(), 0, name, flags);
    w := Step(env, Initial(), op).0;
    Created(env, Initial(), 0, name, flags);
    assert [op][1..] == [];
  }

  /** Two bytes are written, then the first is written again: the file ends after it. */
  lemma ShorteningWrite(env: Env)
    requires Generous(env)
    ensures var ops := [Open(0, A, 0), Write(0, [1, 2], 2, 0)];
      && Runnable(env, Initial(), ops)
      && Consistent(Run(env, Initial(), ops).0)
      && var w := Run(env, Initial(), ops).0;
      && Enabled(w, Write(0, [3], 1, 0))
      && var (v, r) := Step(env, w, Write(0, [3], 1, 0));
      r == Code(SQLITE_OK) && IsOpen(v, 0) && FileOf(w, 0).len == 2 && FileOf(v, 0).len == 1
  {
    var first := Write(0, [1, 2], 2, 0);
    var u := OpenFirst(env, A, 0);
    WriteLength(env, u, [1, 2], 2);
    var w := Step(env, u, first).0;
    RunTwo(env, Initial(), Open(0, A, 0), u, first, w);
    WriteLength(env, w, [3], 1);
  }

  lemma RunTwo(env: Env, w: World<int>, a: Op<int>, u: World<int>, b: Op<int>, v: World<int>)
    requires Consistent(w) && Enabled(w, a) && Step(env, w, a).0 == u
    requires Consistent(u) && Enabled(u, b) && Step(env, u, b).0 == v
    ensures Runnable(env, w, [a, b]) && Run(env, w, [a, b]).0 == v && Consistent(v)
  {
    StepConsistent(env, u, b);
    RunFirst(env, u, b, [], v);
    RunFirst(env, w, a, [b], u);
    assert [b] + [] == [b] && [a] + [b] == [a, b];
  }

  /** A write from the start of the file that fits the buffer. */
  lemma WriteLength(env: Env, w: World<int>, data: seq<byte>, amt: nat)
    requires Consistent(w) && IsOpen(w, 0) && amt == |data| <= |FileOf(w, 0).buf|
    ensures Enabled(w, Write(0, data, amt, 0))
    ensures var (v, r) := Step(env, w, Write(0, data, amt, 0));
      r == Code(SQLITE_OK) && Consistent(v) && IsOpen(v, 0) && FileOf(v, 0).len == amt
      && |FileOf(w, 0).buf| <= |FileOf(v, 0).buf|
  {
    var op, id := Write(0, data, amt, 0), w.handles[0];
    var f := FileOf(w, 0);
    assert FileOk(w.fs.files[Loc(w.fs.files, id)]);
    StepConsistent(env, w, op);
    WriteSucceedsExactly(env, w, 0, data, amt, 0);
    WriteEffect(env, w.fs, id, 0, amt, data);
    InputContent(env, w, op, id);
  }

  /** On an empty file, a read two past the end would fill zeros in front of the buffer, one
      past the end is an error, and 2^32 past the end is a short read. */
  lemma ReadsPastEnd(env: Env)
    requires Generous(env)
    ensures Runnable(env, Initial(), [Open(0, A, 0)])
    ensures var w := Run(env, Initial(), [Open(0, A, 0)]).0;
      && Consistent(w) && IsOpen(w, 0)
      && ReadCount(FileOf(w, 0), 2, 1) == -2 && !ReadInBuffer(FileOf(w, 0), 1, 2)
      && Enabled(w, Read(0, 1, 1)) && Step(env, w, Read(0, 1, 1)).1 == Code(SQLITE_IOERR_READ)
      && Enabled(w, Read(0, 1, 0x1_0000_0000))
      && Step(env, w, Read(0, 1, 0x1_0000_0000)).1 == Bytes(SQLITE_IOERR_SHORT_READ, [0])
  {
    var w := OpenFirst(env, A, 0);
    CountPastEnd(0, 1, 1);
    CountPastEnd(0, 2, 1);
    CountPastEnd(0, 0x1_0000_0000, 1);
    assert ReadReply(FileOf(w, 0), 1, 0x1_0000_0000).Bytes?;
    assert ReadReply(FileOf(w, 0), 1, 0x1_0000_0000).data == [0];
  }

  /** A write of -1 bytes is reported as done. */
  lemma WriteOfMinusOne(env: Env)
    requires Generous(env)
    ensures Runnable(env, Initial(), [Open(0, A, 0)])
    ensures var w := Run(env, Initial(), [Open(0, A, 0)]).0;
      Consistent(w) && Enabled(w, Write(0, [], -1, 0)) && Step(env, w, Write(0, [], -1, 0)) == (w, Code(SQLITE_OK))
  {
    var w := OpenFirst(env, A, 0);
  }

  /** A temporary file with a name of MAX_PATHNAME characters stays behind. */
  lemma LeftBehind(env: Env)
    requires Generous(env)
    ensures var name := seq(MAX_PATHNAME, _ => 97);
      var ops := [Open(0, name, SQLITE_OPEN_DELETEONCLOSE), Close(0)];
      Runnable(env, Initial(), ops) && var w := Run(env, Initial(), ops).0; |w.fs.files| == 1 && w.handles == map[]
  {
    var name: seq<byte> := seq(MAX_PATHNAME, _ => 97);
    var open := Open(0, name, SQLITE_OPEN_DELETEONCLOSE);
    var w := OpenFirst(env, name, SQLITE_OPEN_DELETEONCLOSE);
    assert [open, Close(0)][1..] == [Close(0)] && [Close(0)][1..] == [];
    assert SQLITE_OPEN_DELETEONCLOSE & 0x08 != 0;
    assert [open] + ([] + [Close(0)]) == [open, Close(0)];
    StepConsistent(env, w, Close(0));
    TempRoundTrip(env, Initial(), 0, name, SQLITE_OPEN_DELETEONCLOSE, []);
  }

  /** The flags READWRITE, CREATE, EXCLUSIVE and DELETEONCLOSE together, as for a temporary file:
      a new file is marked, and a second open of its name is refused. */
  lemma TemporaryFlags(env: Env)
    requires Generous(env)
    ensures Runnable(env, Initial(), [Open(0, A, 0x1E)])
    ensures var w := Run(env, Initial(), [Open(0, A, 0x1E)]).0;
      && Consistent(w) && IsOpen(w, 0) && FileOf(w, 0).deleteOnClose
      && Enabled(w, Open(1, A, 0x1E)) && Step(env, w, Open(1, A, 0x1E)) == (w, Code(SQLITE_IOERR))
  {
    var w := OpenFirst(env, A, 0x1E);
    Created(env, Initial(), 0, A, 0x1E);
    FlagBits();
    assert Matches(w.fs.files[0], A);
  }

  lemma FlagBits()
    ensures 0x1E as bv32 & 0x04 != 0 && 0x1E as bv32 & 0x10 != 0 && 0x1E as bv32 & 0x08 != 0
  {
  }

  /** Blocks of 100 and then, by a realloc, of 2^31 - 1 bytes, and an empty one: the peak was in
      the middle of the realloc, and the last grant makes the record fall below it. */
  lemma LostRecord(a: array<byte>, b: array<byte>, c: array<byte>)
    requires a.Length == 100 && b.Length == INT_MAX && c.Length == 0
    ensures var h0 := Accounting.Then(Accounting.Start, Accounting.Granted(Accounting.Bytes(a)));
      var h1 := Accounting.Then(h0, Accounting.Granted(Accounting.Bytes(b)));
      var h2 := Accounting.Then(h1, Accounting.Returned(Accounting.Bytes(a)));
      var h := Accounting.Then(h2, Accounting.Granted(Accounting.Bytes(c)));
      && Accounting.Legal(h) && Accounting.Peak(h) == 104 + INT_MAX + 4
      && Accounting.After(h).maxMemory == INT_MAX + 8
  {
    var h0 := Accounting.Then(Accounting.Start, Accounting.Granted(Accounting.Bytes(a)));
    var h1 := Accounting.Then(h0, Accounting.Granted(Accounting.Bytes(b)));
    var h2 := Accounting.Then(h1, Accounting.Returned(Accounting.Bytes(a)));
    assert Accounting.After(h0).ledger == {Accounting.Bytes(a)} == Accounting.After(h0).live;
    assert Accounting.After(h1).ledger == {Accounting.Bytes(a), Accounting.Bytes(b)} == Accounting.After(h1).live;
    assert Accounting.After(h2).ledger == {Accounting.Bytes(b)};
    assert Accounting.Legal(h0) && Accounting.Legal(h1) && Accounting.Legal(h2);
    assert Accounting.After(h0).outstanding == 104 && Accounting.Peak(h0) == 104;
    assert Accounting.After(h1).outstanding == 104 + INT_MAX + 4 && Accounting.Peak(h1) == 104 + INT_MAX + 4;
    assert Accounting.After(h2).outstanding == INT_MAX + 4 && Accounting.Peak(h2) == 104 + INT_MAX + 4;
  }

  /** A block that is granted and plainly freed stays charged. */
  lemma StaleCounter(a: array<byte>)
    ensures var h0 := Accounting.Then(Accounting.Start, Accounting.Granted(Accounting.Bytes(a)));
      var b := Accounting.After(Accounting.Then(h0, Accounting.Dropped(Accounting.Bytes(a))));
      b.live == {} && b.outstanding == a.Length + SIZEOF_INT
  {
    var h0 := Accounting.Then(Accounting.Start, Accounting.Granted(Accounting.Bytes(a)));
    assert Accounting.After(h0).outstanding == a.Length + SIZEOF_INT;
  }

  /** All but two bytes of the arena are granted; one more byte is granted too, and its header
      does not fit. */
  lemma HeaderOutside()
    ensures var sizes: seq<nat> := [Arena.MEMORY_ARENA_SIZE - 2];
      && Arena.Sum(sizes) < Arena.MEMORY_ARENA_SIZE
      && Arena.Sum(sizes) + 1 < Arena.MEMORY_ARENA_SIZE && !Arena.HeaderFits(Arena.Sum(sizes))
  {
    var sizes: seq<nat> := [Arena.MEMORY_ARENA_SIZE - 2];
    assert Arena.Sum(sizes[..0]) == 0;
    assert Arena.Sum(sizes) == sizes[0];
  }
}
