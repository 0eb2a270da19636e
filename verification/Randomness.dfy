/** `cRandomness` of os_composite_vfs.c: fills a buffer from the generator in steps of eight,
    four and one bytes. */
module Randomness {
  import opened Base
  import opened Prng

  /** `(char)` and `(int)` keep the low bits of a word. */
  function LowByte(word: bv64): byte {
    (word & 0xFF) as byte
  }

  function LowHalf(word: bv64): bv64 {
    word & 0xFFFF_FFFF
  }

  /** A generator, seen from the filler: the state after a call, the word that the call returns
      from that state, the bytes that an object of eight or of four bytes has in memory, and the
      bytes that storing the word in `width` bytes leaves. */
  datatype Source = Source(next: bv64 -> bv64, word: bv64 -> bv64, layout: (bv64, nat, nat) -> byte,
                           byteOf: (bv64, nat, nat) -> byte)
  {
    /** The stores are those of the words, as far as they fit. */
    ghost predicate Stores() {
      forall s: bv64 {:trigger Named(s)} :: Named(s) ==>
        forall width, k :: byteOf(s, width, k) == Stored(layout, word(s), width, k)
    }

    function Word(s: bv64, width: nat): (r: seq<byte>)
      ensures |r| == width
    {
      seq(width, (k: nat) => byteOf(s, width, k))
    }

    /** The state after n calls. */
    function Steps(s: bv64, n: nat): bv64
      decreases n
    {
      if n == 0 then s else Steps(next(s), n - 1)
    }
  }

  /** Byte k of what storing a word in `width` bytes leaves, on a machine that lays out the
      objects of eight and of four bytes as `layout` says. */
  function Stored(layout: (bv64, nat, nat) -> byte, word: bv64, width: nat, k: nat): byte {
    if width == 1 then LowByte(word)
    else if width == 4 then layout(LowHalf(word), 4, k)
    else layout(word, width, k)
  }

  /** The width of the next store with n bytes left to fill: a full word only while more than
      eight are left, four bytes only while more than four are. */
  function Width(n: int): (c: nat)
    requires n > 0
    ensures 0 < c <= n && c <= 8
  {
    if n > 8 then 8 else if n > 4 then 4 else 1
  }

  /** The bytes stored for a request of n, and the state left behind. */
  function Fill(g: Source, s: bv64, n: int): (r: (seq<byte>, bv64))
    ensures |r.0| == if n > 0 then n else 0
    decreases if n > 0 then n else 0
  {
    if n <= 0 then ([], s)
    else
      var t := g.next(s);
      var (rest, end) := Fill(g, t, n - Width(n));
      (g.Word(t, Width(n)) + rest, end)
  }

  /** How many times the generator is called. */
  function Draws(n: int): nat
    requires n > 0
  {
    (n - 1) / 8 + ((n - 1) % 8) / 4 + (n - 1) % 4 + 1
  }

  lemma DrawsStep(n: int)
    requires n > 0 && n > Width(n)
    ensures Draws(n) == 1 + Draws(n - Width(n))
  {
    if n > 8 {
      DivStep(n - 1);
      QuarterStep(n - 1);
      assert n - 8 - 1 == n - 1 - 8;
    } else {
      DrawsBelow(n);
      DrawsBelow(n - Width(n));
    }
  }

  lemma QuarterStep(a: int)
    ensures (a - 8) % 4 == a % 4
  {
  }

  lemma DrawsBelow(n: int)
    requires 0 < n <= 8
    ensures Draws(n) == if n > 4 then n - 3 else n
  {
    assert (n - 1) / 8 == 0 && (n - 1) % 8 == n - 1;
    assert (n - 1) / 4 == if n > 4 then 1 else 0;
  }

  /** A request of n bytes calls the generator once for every full word, once more for four
      bytes if more than four are left, and once for each byte of the rest. */
  lemma FillAdvances(g: Source, s: bv64, n: int)
    requires n > 0
    ensures Fill(g, s, n).1 == g.Steps(s, (n - 1) / 8 + ((n - 1) % 8) / 4 + (n - 1) % 4 + 1)
  {
    FillDraws(g, s, n);
    assert Draws(n) == (n - 1) / 8 + ((n - 1) % 8) / 4 + (n - 1) % 4 + 1;
  }

  lemma {:induction false} FillDraws(g: Source, s: bv64, n: int)
    requires n > 0
    ensures Fill(g, s, n).1 == g.Steps(s, Draws(n))
    decreases n
  {
    var c := Width(n);
    if n > c {
      DrawsStep(n);
      FillDraws(g, g.next(s), n - c);
    } else {
      assert n == 1 && Draws(1) == 1;
      assert g.Steps(g.next(s), 0) == g.next(s);
    }
  }

  lemma FillSplit(g: Source, s: bv64, n: int, j: nat)
    requires j < n
    ensures var c, t := Width(n), g.next(s);
      Fill(g, s, n).0[j] == if j < c then g.byteOf(t, c, j) else Fill(g, t, n - c).0[j - c]
  {
  }

  lemma StepsFront(g: Source, s: bv64, m: nat)
    ensures g.Steps(s, m + 1) == g.Steps(g.next(s), m)
  {
  }

  lemma DivStep(a: int)
    ensures (a - 8) / 8 == a / 8 - 1 && (a - 8) % 8 == a % 8
  {
  }

  /** What one store leaves. */
  lemma StoredByte(g: Source, x: bv64, width: nat, k: nat)
    requires g.Stores()
    ensures width == 8 ==> g.byteOf(x, width, k) == g.layout(g.word(x), 8, k)
    ensures width == 4 ==> g.byteOf(x, width, k) == g.layout(g.word(x) & 0xFFFF_FFFF, 4, k)
    ensures width == 1 ==> g.byteOf(x, width, k) as bv64 == g.word(x) & 0xFF
  {
    assert Named(x);
  }

  // A request of 8 * words + left bytes, with 1 <= left <= 8, and the call that each byte is from.

  lemma {:induction false} WordAt(g: Source, s: bv64, words: nat, left: nat, i: nat, k: nat)
    requires 1 <= left <= 8 && i < words && k < 8
    ensures Fill(g, s, 8 * words + left).0[8 * i + k] == g.byteOf(g.Steps(s, i + 1), 8, k)
    decreases words
  {
    FillSplit(g, s, 8 * words + left, 8 * i + k);
    StepsFront(g, s, i);
    if i > 0 {
      WordAt(g, g.next(s), words - 1, left, i - 1, k);
    }
  }

  lemma {:induction false} StepsAdd(g: Source, s: bv64, m: nat, n: nat)
    ensures g.Steps(s, m + n) == g.Steps(g.Steps(s, m), n)
    decreases m
  {
    if m > 0 {
      StepsFront(g, s, m + n - 1);
      StepsFront(g, s, m - 1);
      StepsAdd(g, g.next(s), m - 1, n);
    }
  }

  /** Behind the full words comes what a request of the rest gives from the state they leave. */
  lemma {:induction false} AfterWords(g: Source, s: bv64, words: nat, left: nat, k: nat)
    requires 1 <= left <= 8 && k < left
    ensures Fill(g, s, 8 * words + left).0[8 * words + k] == Fill(g, g.Steps(s, words), left).0[k]
    decreases words
  {
    if words > 0 {
      var n, j := 8 * words + left, 8 * words + k;
      assert Width(n) == 8 && n - 8 == 8 * (words - 1) + left && j - 8 == 8 * (words - 1) + k;
      FillSplit(g, s, n, j);
      AfterWords(g, g.next(s), words - 1, left, k);
      StepsFront(g, s, words - 1);
    }
  }

  lemma HalfAt(g: Source, s: bv64, words: nat, left: nat, k: nat)
    requires 4 < left <= 8 && k < 4
    ensures Fill(g, s, 8 * words + left).0[8 * words + k] == g.byteOf(g.Steps(s, words + 1), 4, k)
  {
    AfterWords(g, s, words, left, k);
    FillSplit(g, g.Steps(s, words), left, k);
    StepsAdd(g, s, words, 1);
    StepsFront(g, g.Steps(s, words), 0);
  }

  lemma {:induction false} LowAt(g: Source, s: bv64, left: nat, k: nat)
    requires k < left <= 4
    ensures Fill(g, s, left).0[k] == g.byteOf(g.Steps(s, k + 1), 1, 0)
    decreases left
  {
    assert Width(left) == 1;
    FillSplit(g, s, left, k);
    StepsFront(g, s, k);
    if k > 0 {
      LowAt(g, g.next(s), left - 1, k - 1);
    }
  }

  lemma LastAt(g: Source, s: bv64, words: nat, left: nat, k: nat)
    requires 1 <= left <= 8 && (left > 4 ==> 4 <= k) && k < left
    ensures var m := words + if left > 4 then k - 3 else k;
      Fill(g, s, 8 * words + left).0[8 * words + k] == g.byteOf(g.Steps(s, m + 1), 1, 0)
  {
    AfterWords(g, s, words, left, k);
    RestAt(g, g.Steps(s, words), left, k);
    StepsAdd(g, s, words, if left > 4 then k - 2 else k + 1);
  }

  lemma RestAt(g: Source, s: bv64, left: nat, k: nat)
    requires 1 <= left <= 8 && (left > 4 ==> 4 <= k) && k < left
    ensures Fill(g, s, left).0[k] == g.byteOf(g.Steps(s, if left > 4 then k - 2 else k + 1), 1, 0)
  {
    if left > 4 {
      FillSplit(g, s, left, k);
      LowAt(g, g.next(s), left - 4, k - 4);
      StepsFront(g, s, k - 3);
    } else {
      LowAt(g, s, left, k);
    }
  }

  /** Byte k of the full word number i is byte k of the whole word of call i + 1. */
  lemma WordByte(g: Source, s: bv64, words: nat, left: nat, i: nat, k: nat)
    requires g.Stores() && 1 <= left <= 8 && i < words && k < 8
    ensures Fill(g, s, 8 * words + left).0[8 * i + k] == g.layout(g.word(g.Steps(s, i + 1)), 8, k)
  {
    WordAt(g, s, words, left, i, k);
    StoredByte(g, g.Steps(s, i + 1), 8, k);
  }

  /** If more than four bytes are left, byte k of the first four is that of the low half of the
      next word. */
  lemma HalfByte(g: Source, s: bv64, words: nat, left: nat, k: nat)
    requires g.Stores() && 4 < left <= 8 && k < 4
    ensures Fill(g, s, 8 * words + left).0[8 * words + k] == g.layout(g.word(g.Steps(s, words + 1)) & 0xFFFF_FFFF, 4, k)
  {
    HalfAt(g, s, words, left, k);
    StoredByte(g, g.Steps(s, words + 1), 4, k);
  }

  /** Byte k of the rest is the low byte of a word of its own, after those of the full words and,
      for the bytes behind the first four, of the half word. */
  lemma LastByte(g: Source, s: bv64, words: nat, left: nat, k: nat)
    requires g.Stores() && 1 <= left <= 8 && (left > 4 ==> 4 <= k) && k < left
    ensures var m := words + if left > 4 then k - 3 else k;
      Fill(g, s, 8 * words + left).0[8 * words + k] as bv64 == g.word(g.Steps(s, m + 1)) & 0xFF
  {
    var m := words + if left > 4 then k - 3 else k;
    LastAt(g, s, words, left, k);
    LowStored(g, g.Steps(s, m + 1), Fill(g, s, 8 * words + left).0[8 * words + k]);
  }

  lemma LowStored(g: Source, x: bv64, b: byte)
    requires g.Stores() && b == g.byteOf(x, 1, 0)
    ensures b as bv64 == g.word(x) & 0xFF
  {
    StoredByte(g, x, 1, 0);
  }

  /** With the xorshift step, the states are the orbit of the generator. */
  lemma {:induction false} StepsAreOrbit(g: Source, s: bv64, n: nat)
    requires forall x: bv64 {:trigger Named(x)} :: Named(x) ==> g.next(x) == Next(x)
    ensures g.Steps(s, n) == After(s, n)
    decreases n
  {
    if n > 0 {
      StepsAreOrbit(g, g.next(s), n - 1);
      AfterAdd(s, 1, n - 1);
      assert Named(s) && After(s, 0) == s && After(s, 1) == Next(s);
    }
  }

  /** Dummy term: quantifiers over all states speak only about states that are named by it. */
  ghost predicate Named(s: bv64) {
    true
  }

  /** The first i bytes are stored, the rest of the request is what the current state gives,
      and everything else is as before. */
  ghost predicate Progress(g: Source, all: (seq<byte>, bv64), i: nat, n: int, s: bv64, now: seq<byte>, before: seq<byte>) {
    && |now| == |before| && i <= |all.0| <= |now|
    && now == all.0[..i] + before[i..]
    && all.0[i..] == Fill(g, s, n - i).0 && all.1 == Fill(g, s, n - i).1
  }

  /** One turn of any of the three loops. */
  lemma Turn(g: Source, all: (seq<byte>, bv64), i: nat, n: int, s: bv64, now: seq<byte>, before: seq<byte>, next: seq<byte>)
    requires i < n && Progress(g, all, i, n, s, now, before)
    requires var c := Width(n - i);
      i + c <= |now| && next == now[..i] + g.Word(g.next(s), c) + now[i + c..]
    ensures Progress(g, all, i + Width(n - i), n, g.next(s), next, before)
  {
    var c := Width(n - i);
    var word := g.Word(g.next(s), c);
    assert all.0[i..] == word + Fill(g, g.next(s), n - i - c).0;
    assert all.0[i + c..] == all.0[i..][c..];
    assert all.0[..i + c] == all.0[..i] + all.0[i..][..c];
    assert all.0[i..][..c] == word;
    assert now[i + c..] == before[i + c..];
  }

  /** After the last turn the request is filled. */
  lemma Finished(g: Source, all: (seq<byte>, bv64), i: nat, n: int, s: bv64, now: seq<byte>, before: seq<byte>)
    requires Progress(g, all, i, n, s, now, before) && n <= i && |all.0| == if n > 0 then n else 0
    ensures s == all.1 && now == all.0 + before[|all.0|..]
  {
  }

  /** The test of the first loop, `i + 8 < nByte`, is evaluated at 0 and at every multiple of
      eight below nByte. All these sums fit an `int` exactly for requests up to 2^31 - 8. */
  lemma IndexFitsExactly(nByte: int)
    requires nByte <= INT_MAX
    ensures (forall k: nat :: k == 0 || 8 * k < nByte ==> 8 * k + 8 <= INT_MAX) <==> nByte <= INT_MAX - 7
  {
    if nByte > INT_MAX - 7 {
      var k: nat := (INT_MAX - 7) / 8;
      assert 8 * k < nByte && 8 * k + 8 > INT_MAX;
    }
  }

  /** `composite_vfs_data`. */
  class VfsData {
    const layout: (bv64, nat, nat) -> byte
    var prngState: bv64

    constructor (layout: (bv64, nat, nat) -> byte)
      ensures this.layout == layout && prngState == SEED
    {
      this.layout := layout;
      prngState := SEED;
    }

    /** `g` is the generator, on this machine. */
    ghost predicate Models(g: Source) {
      g.Stores() && g.layout == layout && forall s: bv64 {:trigger Named(s)} :: Named(s) ==> g.next(s) == Next(s) && g.word(s) == Output(s)
    }

    /** The words of the source are those of the generator's orbit. */
    lemma OrbitWord(g: Source, s: bv64, m: nat)
      requires Models(g)
      ensures g.layout == layout && g.word(g.Steps(s, m)) == Output(After(s, m))
    {
      assert Named(g.Steps(s, m));
      StepsAreOrbit(g, s, m);
    }

    /** There is such a source. */
    lemma HasModel() returns (g: Source)
      ensures Models(g)
    {
      g := Source(s => Next(s), s => Output(s), layout, (s: bv64, width: nat, k: nat) => Stored(layout, Output(s), width, k));
    }

    /** Sixteen bytes from the seed: the first word whole, the low half of the second. */
    lemma SixteenBytes(g: Source, k: nat)
      requires Models(g)
      ensures k < 8 ==> Fill(g, SEED, 16).0[k] == layout(3991735646403684468, 8, k)
      ensures k < 4 ==> Fill(g, SEED, 16).0[8 + k] == layout(1655335028, 4, k)
    {
      FirstWords();
      if k < 8 {
        WordByte(g, SEED, 1, 8, 0, k);
        OrbitWord(g, SEED, 1);
      }
      if k < 4 {
        HalfByte(g, SEED, 1, 8, k);
        OrbitWord(g, SEED, 2);
      }
    }

    /** `get_random` on the shared state. */
    method GetWord(ghost g: Source) returns (rand: bv64)
      requires Models(g)
      modifies this
      ensures prngState == g.next(old(prngState))
      ensures rand == g.word(prngState)
    {
      ghost var was := prngState;
      prngState, rand := GetRandom(prngState);
      assert Named(was) && Named(prngState);
    }

    /** Stores a word, as far as it fits in `width` bytes, at position i. */
    method Store(zOut: array<byte>, i: nat, rand: bv64, width: nat)
      requires i + width <= zOut.Length
      modifies zOut
      ensures zOut[..] == old(zOut[..i]) + seq(width, (k: nat) => Stored(layout, rand, width, k)) + old(zOut[i + width..])
    {
      var k := 0;
      while k < width
        invariant 0 <= k <= width
        invariant forall j :: 0 <= j < zOut.Length ==>
          zOut[j] == if i <= j < i + k then Stored(layout, rand, width, j - i) else old(zOut[j])
      {
        zOut[i + k] := Stored(layout, rand, width, k);
        k := k + 1;
      }
    }

    /** The body of each of the three loops of `cRandomness`. */
    method Put(zOut: array<byte>, i: nat, width: nat, nByte: int,
               ghost g: Source, ghost all: (seq<byte>, bv64), ghost before: seq<byte>)
      requires Models(g) && i < nByte && width == Width(nByte - i) && i + width <= zOut.Length
      requires Progress(g, all, i, nByte, prngState, zOut[..], before)
      modifies this, zOut
      ensures Progress(g, all, i + width, nByte, prngState, zOut[..], before)
    {
      ghost var s, was := prngState, zOut[..];
      var rand := GetWord(g);
      Store(zOut, i, rand, width);
      assert Named(prngState);
      assert g.Word(prngState, width) == seq(width, (k: nat) => Stored(layout, rand, width, k));
      assert zOut[..] == was[..i] + g.Word(g.next(s), width) + was[i + width..];
      Turn(g, all, i, nByte, s, was, before, zOut[..]);
    }

    /** One of the three loops of `cRandomness`: stores `width` bytes at a time while more
        than `slack` bytes are left. */
    method Loop(zOut: array<byte>, start: int32, width: int32, slack: int32, nByte: int32,
                ghost g: Source, ghost all: (seq<byte>, bv64), ghost before: seq<byte>) returns (i: int32)
      requires Models(g) && nByte as int <= zOut.Length && 0 <= start && (start < nByte || start == 0)
      requires nByte as int <= INT_MAX - 7
      requires 0 < width <= 8 && 0 <= slack <= width && (slack == 0 ==> width == 1)
      requires forall left: nat :: slack as int < left <= nByte as int - start as int ==> Width(left) == width as int
      requires Progress(g, all, start as int, nByte as int, prngState, zOut[..], before)
      modifies this, zOut
      ensures 0 <= i && nByte as int - i as int <= slack as int && (i < nByte || i == 0 || (slack == 0 && i == nByte))
      ensures Progress(g, all, i as int, nByte as int, prngState, zOut[..], before)
    {
      i := start;
      while i + slack < nByte
        invariant 0 <= start <= i && (i < nByte || i == 0 || (slack == 0 && i == nByte))
        invariant Progress(g, all, i as int, nByte as int, prngState, zOut[..], before)
      {
        assert Width(nByte as int - i as int) == width as int;
        Put(zOut, i as int, width as int, nByte as int, g, all, before);
        i := i + width;
      }
    }

    /** `cRandomness`: every byte of the request is stored once, and none outside it. The index
        is an `int`, so the request must leave room for it (`IndexFitsExactly`). */
    method CRandomness(nByte: int32, zOut: array<byte>, ghost g: Source) returns (r: int32)
      requires Models(g) && nByte as int <= zOut.Length && nByte as int <= INT_MAX - 7
      modifies this, zOut
      ensures r == nByte
      ensures var (bytes, end) := Fill(g, old(prngState), nByte as int);
        prngState == end && zOut[..] == bytes + old(zOut[|bytes|..])
    {
      ghost var all, before := Fill(g, prngState, nByte as int), zOut[..];
      var i := Loop(zOut, 0, 8, 8, nByte, g, all, before);
      i := Loop(zOut, i, 4, 4, nByte, g, all, before);
      i := Loop(zOut, i, 1, 0, nByte, g, all, before);
      Finished(g, all, i as int, nByte as int, prngState, zOut[..], before);
      return nByte;
    }
  }
}
