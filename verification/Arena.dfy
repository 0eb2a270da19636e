/** The other branch of os_composite_mem.c: regions cut from a fixed arena, never returned. */
module Arena {
  import opened Base
  import Accounting

  newtype octet = x: int | 0 <= x < 256

  const MEMORY_ARENA_SIZE := 1024 * 1024 * 4

  // ---- An int in memory, least significant byte first ----

  function Encode(x: int): (r: seq<octet>)
    requires 0 <= x <= INT_MAX
    ensures |r| == SIZEOF_INT
  {
    [(x % 256) as octet, (x / 256 % 256) as octet, (x / 65536 % 256) as octet, (x / 16777216) as octet]
  }

  function Decode(b: seq<octet>): int
    requires |b| == SIZEOF_INT
  {
    b[0] as int + 256 * b[1] as int + 65536 * b[2] as int + 16777216 * b[3] as int
  }

  lemma DecodeEncode(x: int)
    requires 0 <= x <= INT_MAX
    ensures Decode(Encode(x)) == x
  {
    assert x == x % 256 + 256 * (x / 256);
    assert x / 256 == x / 256 % 256 + 256 * (x / 256 / 256);
    assert x / 256 / 256 == x / 65536;
    assert x / 65536 == x / 65536 % 256 + 256 * (x / 65536 / 256);
    assert x / 65536 / 256 == x / 16777216;
  }

  /** `*((int*)p)` for p at offset `at`. */
  function ReadInt(m: seq<octet>, at: nat): int
    requires at + SIZEOF_INT <= |m|
  {
    Decode(m[at..at + SIZEOF_INT])
  }

  function WriteInt(m: seq<octet>, at: nat, x: int): (r: seq<octet>)
    requires at + SIZEOF_INT <= |m| && 0 <= x <= INT_MAX
    ensures |r| == |m|
    ensures forall p :: 0 <= p < |m| && !(at <= p < at + SIZEOF_INT) ==> r[p] == m[p]
  {
    m[..at] + Encode(x) + m[at + SIZEOF_INT..]
  }

  lemma ReadWritten(m: seq<octet>, at: nat, x: int)
    requires at + SIZEOF_INT <= |m| && 0 <= x <= INT_MAX
    ensures ReadInt(WriteInt(m, at, x), at) == x
  {
    assert WriteInt(m, at, x)[at..at + SIZEOF_INT] == Encode(x);
    DecodeEncode(x);
  }

  // ---- Regions, by their sizes ----

  function Sum(sizes: seq<nat>): nat {
    if sizes == [] then 0 else Sum(sizes[..|sizes| - 1]) + sizes[|sizes| - 1]
  }

  /** The offset of region k: regions follow each other without gaps. */
  function Start(sizes: seq<nat>, k: nat): nat
    requires k <= |sizes|
  {
    Sum(sizes[..k])
  }

  lemma StartStep(sizes: seq<nat>, k: nat)
    requires k < |sizes|
    ensures Start(sizes, k + 1) == Start(sizes, k) + sizes[k]
  {
    assert sizes[..k + 1][..k] == sizes[..k];
  }

  /** An earlier region ends where a later one starts, or before. */
  lemma {:induction false} StartsAscend(sizes: seq<nat>, i: nat, j: nat)
    requires i < j <= |sizes|
    ensures Start(sizes, i) + sizes[i] <= Start(sizes, j)
    decreases j
  {
    StartStep(sizes, j - 1);
    if i < j - 1 {
      StartsAscend(sizes, i, j - 1);
    }
  }

  lemma StartsKept(sizes: seq<nat>, more: nat, k: nat)
    requires k <= |sizes|
    ensures Start(sizes + [more], k) == Start(sizes, k)
  {
    assert (sizes + [more])[..k] == sizes[..k];
  }

  /** Every region of at least the size of its header still has its size recorded. */
  ghost predicate Recorded(m: seq<octet>, sizes: seq<nat>) {
    && Sum(sizes) <= |m|
    && forall k :: 0 <= k < |sizes| && sizes[k] >= SIZEOF_INT ==>
         Start(sizes, k) + SIZEOF_INT <= |m| && ReadInt(m, Start(sizes, k)) == sizes[k]
  }

  /** Memory that differs only in places where no header lies keeps all records. */
  lemma RecordsKept(m: seq<octet>, sizes: seq<nat>, n: seq<octet>)
    requires Recorded(m, sizes) && |n| == |m|
    requires forall k, p ::
      (0 <= k < |sizes| && sizes[k] >= SIZEOF_INT && Start(sizes, k) <= p < Start(sizes, k) + SIZEOF_INT && p < |m|)
      ==> n[p] == m[p]
    ensures Recorded(n, sizes)
  {
    forall k | 0 <= k < |sizes| && sizes[k] >= SIZEOF_INT ensures ReadInt(n, Start(sizes, k)) == sizes[k] {
      var a := Start(sizes, k);
      assert n[a..a + SIZEOF_INT] == m[a..a + SIZEOF_INT];
    }
  }

  /** A region's header lies before everything that is still free. */
  lemma HeaderInside(sizes: seq<nat>, k: nat)
    requires k < |sizes| && sizes[k] >= SIZEOF_INT
    ensures Start(sizes, k) + SIZEOF_INT <= Sum(sizes)
  {
    StartsAscend(sizes, k, |sizes|);
    assert sizes[..|sizes|] == sizes;
  }

  lemma GrantRecorded(m: seq<octet>, sizes: seq<nat>, sz: nat)
    requires Recorded(m, sizes) && sz <= INT_MAX
    requires Sum(sizes) + sz <= |m| && Sum(sizes) + SIZEOF_INT <= |m|
    ensures Recorded(WriteInt(m, Sum(sizes), sz), sizes + [sz]) && Sum(sizes + [sz]) == Sum(sizes) + sz
  {
    var n, all := WriteInt(m, Sum(sizes), sz), sizes + [sz];
    assert all[..|sizes|] == sizes;
    forall k | 0 <= k < |all| && all[k] >= SIZEOF_INT
      ensures Start(all, k) + SIZEOF_INT <= |n| && ReadInt(n, Start(all, k)) == all[k]
    {
      StartsKept(sizes, sz, k);
      if k == |sizes| {
        assert sizes[..k] == sizes;
        ReadWritten(m, Sum(sizes), sz);
      } else {
        HeaderInside(sizes, k);
        var a := Start(sizes, k);
        assert n[a..a + SIZEOF_INT] == m[a..a + SIZEOF_INT];
      }
    }
  }

  /** Byte j of the payload of region k. */
  function PayloadAt(sizes: seq<nat>, k: nat, j: nat): nat
    requires k < |sizes|
  {
    Start(sizes, k) + SIZEOF_INT + j
  }

  /** The recorded size counts the header, so exactly the first size - 4 payload bytes lie in
      the region; the other four are the header of the region that follows. */
  lemma PayloadRoomExactly(sizes: seq<nat>, k: nat, j: nat)
    requires k < |sizes| && sizes[k] >= SIZEOF_INT && j < sizes[k]
    ensures PayloadAt(sizes, k, j) < Start(sizes, k + 1) <==> j < sizes[k] - SIZEOF_INT
    ensures j >= sizes[k] - SIZEOF_INT ==>
      Start(sizes, k + 1) <= PayloadAt(sizes, k, j) < Start(sizes, k + 1) + SIZEOF_INT
  {
    StartStep(sizes, k);
  }

  lemma PokeRecorded(m: seq<octet>, sizes: seq<nat>, k: nat, j: nat, x: octet)
    requires Recorded(m, sizes) && k < |sizes| && j + SIZEOF_INT < sizes[k]
    ensures PayloadAt(sizes, k, j) < |m| && Recorded(m[PayloadAt(sizes, k, j) := x], sizes)
  {
    var at := PayloadAt(sizes, k, j);
    StartsAscend(sizes, k, |sizes|);
    assert sizes[..|sizes|] == sizes;
    forall i, p | 0 <= i < |sizes| && sizes[i] >= SIZEOF_INT
      && Start(sizes, i) <= p < Start(sizes, i) + SIZEOF_INT && p < |m|
      ensures m[at := x][p] == m[p]
    {
      if i < k {
        StartsAscend(sizes, i, k);
      } else if k < i {
        StartsAscend(sizes, k, i);
      }
    }
    RecordsKept(m, sizes, m[at := x]);
  }

  function Pow256(n: nat): (r: int)
    ensures r > 0
  {
    if n == 0 then 1 else 256 * Pow256(n - 1)
  }

  /** A region smaller than its header: what is recorded for it after the next grant of `next`
      bytes is still its size exactly when the low 4 - size bytes of `next` are zero. */
  lemma SmallRecordExactly(m: seq<octet>, at: nat, size: nat, next: int)
    requires size < SIZEOF_INT && at + size + SIZEOF_INT <= |m| && 0 <= next <= INT_MAX
    ensures ReadInt(WriteInt(WriteInt(m, at, size), at + size, next), at) == size
       <==> next % Pow256(SIZEOF_INT - size) == 0
  {
    var n := WriteInt(WriteInt(m, at, size), at + size, next);
    assert n[at..at + SIZEOF_INT] == Encode(size)[..size] + Encode(next)[..SIZEOF_INT - size];
    MixedDecode(size, next);
  }

  lemma LowBytes(x: int)
    requires 0 <= x <= INT_MAX
    ensures var f := Encode(x);
      && f[0] as int == x % 256
      && f[0] as int + 256 * f[1] as int == x % 65536
      && f[0] as int + 256 * f[1] as int + 65536 * f[2] as int == x % 16777216
  {
    DecodeEncode(x);
  }

  /** Decoding what is left of a small size under the low bytes of `next`. */
  lemma MixedDecode(size: nat, next: int)
    requires size < SIZEOF_INT && 0 <= next <= INT_MAX
    ensures Decode(Encode(size)[..size] + Encode(next)[..SIZEOF_INT - size]) == size
       <==> next % Pow256(SIZEOF_INT - size) == 0
  {
    var b := Encode(size)[..size] + Encode(next)[..SIZEOF_INT - size];
    Powers();
    if size == 0 {
      assert b == Encode(next);
      DecodeEncode(next);
    } else {
      LowBytes(next);
      MixedBytes(size, Encode(next), b);
    }
  }

  lemma Powers()
    ensures Pow256(1) == 256 && Pow256(2) == 65536 && Pow256(3) == 16777216 && Pow256(4) == 4294967296
  {
  }

  lemma MixedBytes(size: nat, f: seq<octet>, b: seq<octet>)
    requires 0 < size < SIZEOF_INT && |f| == SIZEOF_INT && b == Encode(size)[..size] + f[..SIZEOF_INT - size]
    ensures size == 1 ==> Decode(b) == 1 + 256 * (f[0] as int + 256 * f[1] as int + 65536 * f[2] as int)
    ensures size == 2 ==> Decode(b) == 2 + 65536 * (f[0] as int + 256 * f[1] as int)
    ensures size == 3 ==> Decode(b) == 3 + 16777216 * f[0] as int
  {
    if size == 1 {
      assert b == [1, f[0], f[1], f[2]];
    } else if size == 2 {
      assert b == [2, 0, f[0], f[1]];
    } else {
      assert b == [3, 0, 0, f[0]];
    }
  }

  /** Whether a region that starts at `free` has its header inside the arena. */
  predicate HeaderFits(free: nat) {
    free + SIZEOF_INT <= MEMORY_ARENA_SIZE
  }

  /** A region of three bytes or more that is granted has its header inside. A smaller one has
      it outside exactly when it starts in the last three bytes of the arena. */
  lemma HeaderFitsExactly(free: nat, sz: nat)
    requires free + sz < MEMORY_ARENA_SIZE
    ensures !HeaderFits(free) <==> sz <= 2 && MEMORY_ARENA_SIZE - 3 <= free
  {
  }

  /** What the regions are charged: their sizes, and a header each although the sizes include it. */
  function Charged(sizes: seq<nat>): nat {
    Sum(sizes) + SIZEOF_INT * |sizes|
  }

  /** The narrowing of the old maximum does no harm while the total only grows. */
  lemma RecordReached(total: nat, charge: nat)
    ensures Accounting.NarrowingMax(total + charge, total) == total + charge
  {
  }

  /** The arena allocator. */
  class ArenaMem {
    const memory: array<octet>
    /** `_free_memory`, as an offset into the arena. */
    var free: nat
    var outstanding: int
    var maxMemory: int
    /** The sizes of the regions granted so far. */
    ghost var sizes: seq<nat>

    ghost predicate Valid()
      reads this, memory
    {
      && memory.Length == MEMORY_ARENA_SIZE
      && free == Sum(sizes) < MEMORY_ARENA_SIZE
      && Recorded(memory[..], sizes)
      && outstanding == Charged(sizes) == maxMemory
    }

    constructor ()
      ensures Valid() && sizes == [] && fresh(memory)
    {
      memory := new octet[MEMORY_ARENA_SIZE];
      free, sizes := 0, [];
      outstanding, maxMemory := 0, 0;
    }

    /** `_malloc_region`: the offset of the region, or -1. The size is stored in the region's
        first four bytes, which must lie inside the arena (`HeaderFitsExactly`). Nothing is ever
        taken back, so the record and the total are always equal. */
    method MallocRegion(sz: int) returns (start: int)
      requires Valid() && 0 <= sz <= INT_MAX
      requires free + sz < MEMORY_ARENA_SIZE ==> HeaderFits(free)
      modifies this, memory
      ensures Valid()
      ensures start == -1 <==> old(free) + sz >= MEMORY_ARENA_SIZE
      ensures start == -1 ==> sizes == old(sizes) && memory[..] == old(memory[..])
      ensures start != -1 ==> start == old(free) && sizes == old(sizes) + [sz] && free == old(free) + sz
      ensures start != -1 ==> memory[..] == WriteInt(old(memory[..]), old(free), sz)
      ensures outstanding == maxMemory == if start == -1 then old(outstanding) else old(outstanding) + sz + SIZEOF_INT
    {
      if free + sz >= MEMORY_ARENA_SIZE {
        return -1;
      }
      start := free;
      GrantRecorded(memory[..], sizes, sz);
      StoreInt(start, sz);
      free := free + sz;
      Charge(sz);
      sizes := sizes + [sz];
    }

    /** The update of the usage counters. */
    method Charge(sz: nat)
      requires 0 <= outstanding == maxMemory
      modifies this`outstanding, this`maxMemory
      ensures outstanding == maxMemory == old(outstanding) + sz + SIZEOF_INT
    {
      RecordReached(outstanding, sz + SIZEOF_INT);
      outstanding := outstanding + sz + SIZEOF_INT;
      maxMemory := Accounting.NarrowingMax(outstanding, maxMemory);
    }

    /** `*((int*)region_start) = sz`. */
    method StoreInt(at: nat, x: int)
      requires at + SIZEOF_INT <= memory.Length && 0 <= x <= INT_MAX
      modifies memory
      ensures memory[..] == WriteInt(old(memory[..]), at, x)
    {
      memory[at] := (x % 256) as octet;
      memory[at + 1] := (x / 256 % 256) as octet;
      memory[at + 2] := (x / 65536 % 256) as octet;
      memory[at + 3] := (x / 16777216) as octet;
    }

    /** `cMemSize` of the block of region k. */
    method CMemSize(ghost k: nat, start: nat) returns (sz: int)
      requires Valid() && k < |sizes| && sizes[k] >= SIZEOF_INT && start == Start(sizes, k)
      ensures sz == sizes[k]
    {
      HeaderInside(sizes, k);
      assert memory[..][start..start + SIZEOF_INT] == memory[start..start + SIZEOF_INT];
      sz := memory[start] as int + 256 * memory[start + 1] as int
        + 65536 * memory[start + 2] as int + 16777216 * memory[start + 3] as int;
    }

    /** A client's store into its own block, below the last four bytes. */
    method Poke(ghost k: nat, j: nat, at: nat, x: octet)
      requires Valid() && k < |sizes| && j + SIZEOF_INT < sizes[k] && at == PayloadAt(sizes, k, j)
      requires at < memory.Length
      modifies memory
      ensures Valid() && memory[..] == old(memory[..])[at := x]
    {
      PokeRecorded(memory[..], sizes, k, j, x);
      memory[at] := x;
      assert memory[..] == old(memory[..])[at := x];
    }
  }
}
