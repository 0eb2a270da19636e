/** The xorshift-multiply generator of os_composite_vfs.c (`get_random`). */
module Prng {

  /** The seed that `sqlite3_os_init` stores. */
  const SEED: bv64 := 4

  function Right12(x: bv64): bv64 { x ^ (x >> 12) }

  function Left25(x: bv64): bv64 { x ^ (x << 25) }

  function Right17(x: bv64): bv64 { x ^ (x >> 17) }

  /** The state after one call. */
  function Next(s: bv64): bv64 {
    Right17(Left25(Right12(s)))
  }

  /** The word that a call returns, from the state it leaves. */
  function Output(s: bv64): bv64 {
    s * 2685821657736338717
  }

  /** Multiplication by the inverse of the constant modulo 2^64. */
  function StateOf(word: bv64): bv64 {
    word * 6415128727920758069
  }

  // A xorshift applied twice is the xorshift by twice the distance, and a shift by 64 or more
  // leaves nothing: so repeating it with doubled distances undoes it.

  function Right24(x: bv64): bv64 { x ^ (x >> 24) }

  function Right48(x: bv64): bv64 { x ^ (x >> 48) }

  function Left50(x: bv64): bv64 { x ^ (x << 50) }

  function Right34(x: bv64): bv64 { x ^ (x >> 34) }

  /** The state before one call. */
  function Previous(s: bv64): bv64 {
    Right48(Right24(Right12(Left50(Left25(Right34(Right17(s)))))))
  }

  lemma Right12Bits(x: bv64)
    ensures (x ^ (x >> 12)) ^ ((x ^ (x >> 12)) >> 12) == x ^ (x >> 24)
  {
  }

  lemma Right12Twice(x: bv64)
    ensures Right12(Right12(x)) == Right24(x)
  {
    Right12Bits(x);
    assert Right12(x) == x ^ (x >> 12);
    assert Right12(x ^ (x >> 12)) == (x ^ (x >> 12)) ^ ((x ^ (x >> 12)) >> 12);
  }

  lemma Right24Bits(x: bv64)
    ensures (x ^ (x >> 24)) ^ ((x ^ (x >> 24)) >> 24) == x ^ (x >> 48)
  {
  }

  lemma Right24Twice(x: bv64)
    ensures Right24(Right24(x)) == Right48(x)
  {
    Right24Bits(x);
    assert Right24(x) == x ^ (x >> 24);
    assert Right24(x ^ (x >> 24)) == (x ^ (x >> 24)) ^ ((x ^ (x >> 24)) >> 24);
  }

  lemma Right48Bits(x: bv64)
    ensures (x ^ (x >> 48)) ^ ((x ^ (x >> 48)) >> 48) == x
  {
  }

  lemma Right48Twice(x: bv64)
    ensures Right48(Right48(x)) == x
  {
    Right48Bits(x);
    assert Right48(x) == x ^ (x >> 48);
    assert Right48(x ^ (x >> 48)) == (x ^ (x >> 48)) ^ ((x ^ (x >> 48)) >> 48);
  }

  lemma Left25Bits(x: bv64)
    ensures (x ^ (x << 25)) ^ ((x ^ (x << 25)) << 25) == x ^ (x << 50)
  {
  }

  lemma Left25Twice(x: bv64)
    ensures Left25(Left25(x)) == Left50(x)
  {
    Left25Bits(x);
    assert Left25(x) == x ^ (x << 25);
    assert Left25(x ^ (x << 25)) == (x ^ (x << 25)) ^ ((x ^ (x << 25)) << 25);
  }

  lemma Left50Bits(x: bv64)
    ensures (x ^ (x << 50)) ^ ((x ^ (x << 50)) << 50) == x
  {
  }

  lemma Left50Twice(x: bv64)
    ensures Left50(Left50(x)) == x
  {
    Left50Bits(x);
    assert Left50(x) == x ^ (x << 50);
    assert Left50(x ^ (x << 50)) == (x ^ (x << 50)) ^ ((x ^ (x << 50)) << 50);
  }

  lemma Right17Bits(x: bv64)
    ensures (x ^ (x >> 17)) ^ ((x ^ (x >> 17)) >> 17) == x ^ (x >> 34)
  {
  }

  lemma Right17Twice(x: bv64)
    ensures Right17(Right17(x)) == Right34(x)
  {
    Right17Bits(x);
    assert Right17(x) == x ^ (x >> 17);
    assert Right17(x ^ (x >> 17)) == (x ^ (x >> 17)) ^ ((x ^ (x >> 17)) >> 17);
  }

  lemma Right34Bits(x: bv64)
    ensures (x ^ (x >> 34)) ^ ((x ^ (x >> 34)) >> 34) == x
  {
  }

  lemma Right34Twice(x: bv64)
    ensures Right34(Right34(x)) == x
  {
    Right34Bits(x);
    assert Right34(x) == x ^ (x >> 34);
    assert Right34(x ^ (x >> 34)) == (x ^ (x >> 34)) ^ ((x ^ (x >> 34)) >> 34);
  }

  /** The state can be recovered: the step loses nothing. */
  lemma PreviousNext(s: bv64)
    ensures Previous(Next(s)) == s
  {
    var b := Left25(Right12(s));
    Right17Twice(b);
    Right34Twice(b);
    var a := Right12(s);
    Left25Twice(a);
    Left50Twice(a);
    Right12Twice(s);
    Right24Twice(s);
    Right48Twice(s);
  }

  lemma {:induction false} NextInjective(s: bv64, t: bv64)
    requires Next(s) == Next(t)
    ensures s == t
  {
    PreviousNext(s);
    PreviousNext(t);
  }

  /** Multiplication by the odd constant is undone by its inverse, so distinct states give
      distinct outputs. */
  lemma OutputInvertible(s: bv64)
    ensures StateOf(Output(s)) == s
  {
    OutputBits(s);
    assert StateOf(Output(s)) == StateOf(s * 2685821657736338717);
  }

  lemma OutputBits(s: bv64)
    ensures (s * 2685821657736338717) * 6415128727920758069 == s
    ensures (s * 6415128727920758069) * 2685821657736338717 == s
  {
  }

  /** Every word is the output of one state. */
  lemma StateInvertible(word: bv64)
    ensures Output(StateOf(word)) == word
  {
    OutputBits(word);
    assert Output(StateOf(word)) == Output(word * 6415128727920758069);
  }

  lemma ZeroFixed()
    ensures Next(0) == 0 && Output(0) == 0
  {
  }

  /** Zero is the only state that leads to zero, and the only one that outputs zero. */
  lemma NonzeroStays(s: bv64)
    requires s != 0
    ensures Next(s) != 0 && Output(s) != 0
  {
    ZeroFixed();
    if Next(s) == 0 {
      NextInjective(s, 0);
    }
    OutputInvertible(s);
  }

  /** The state after n calls. */
  function After(s: bv64, n: nat): bv64 {
    if n == 0 then s else Next(After(s, n - 1))
  }

  lemma {:induction false} AfterAdd(s: bv64, m: nat, n: nat)
    ensures After(s, m + n) == After(After(s, m), n)
  {
    if n > 0 {
      AfterAdd(s, m, n - 1);
    }
  }

  lemma {:induction false} NeverZero(s: bv64, n: nat)
    requires s != 0
    ensures After(s, n) != 0 && Output(After(s, n)) != 0
  {
    if n > 0 {
      NeverZero(s, n - 1);
      NonzeroStays(After(s, n - 1));
    } else {
      NonzeroStays(s);
    }
  }

  /** Stepping both back: a repetition moves down to the start. */
  lemma {:induction false} RepeatFromStart(s: bv64, i: nat, j: nat)
    requires i < j && After(s, i) == After(s, j)
    ensures After(s, j - i) == s
  {
    if i > 0 {
      NextInjective(After(s, i - 1), After(s, j - 1));
      RepeatFromStart(s, i - 1, j - 1);
    }
  }

  const WORDS: nat := 0x1_0000_0000_0000_0000

  lemma AsNatInjective(a: bv64, b: bv64)
    requires a as nat == b as nat
    ensures a == b
  {
    assert (a as nat) as bv64 == a;
    assert (b as nat) as bv64 == b;
  }

  /** More distinct numbers than there are below m do not fit below m. */
  lemma {:induction false} Pigeonhole(xs: seq<nat>, m: nat)
    requires |xs| > m && forall i :: 0 <= i < |xs| ==> xs[i] < m
    ensures exists i: nat, j: nat :: i < j < |xs| && xs[i] == xs[j]
  {
    assert xs[0] < m;
    if exists k :: 0 <= k < |xs| && xs[k] == m - 1 {
      var k :| 0 <= k < |xs| && xs[k] == m - 1;
      var ys := xs[..k] + xs[k + 1..];
      if exists l :: 0 <= l < |ys| && ys[l] == m - 1 {
        var l :| 0 <= l < |ys| && ys[l] == m - 1;
        var l' := if l < k then l else l + 1;
        assert xs[l'] == xs[k];
        var i, j := if l' < k then l' else k, if l' < k then k else l';
        assert i < j < |xs| && xs[i] == xs[j];
      } else {
        Pigeonhole(ys, m - 1);
        var i: nat, j: nat :| i < j < |ys| && ys[i] == ys[j];
        var i', j' := if i < k then i else i + 1, if j < k then j else j + 1;
        assert xs[i'] == ys[i] && xs[j'] == ys[j];
      }
    } else {
      Pigeonhole(xs, m - 1);
    }
  }

  /** Every orbit is purely periodic: some positive number of calls brings any state back. */
  lemma Periodic(s: bv64)
    ensures exists n: nat :: 0 < n <= WORDS && After(s, n) == s
  {
    var xs: seq<nat> := seq(WORDS + 1, (i: nat) => After(s, i) as nat);
    Pigeonhole(xs, WORDS);
    var i: nat, j: nat :| i < j < |xs| && xs[i] == xs[j];
    AsNatInjective(After(s, i), After(s, j));
    RepeatFromStart(s, i, j);
    assert 0 < j - i <= WORDS;
  }

  /** Every word is reached, from one state only: the step is a bijection. */
  lemma NextPrevious(s: bv64)
    ensures Next(Previous(s)) == s
  {
    Periodic(s);
    var n: nat :| 0 < n <= WORDS && After(s, n) == s;
    PreviousNext(After(s, n - 1));
  }

  /** From the seed, the generator never sticks at zero and comes back to the seed. */
  lemma SeedOrbit()
    ensures forall n: nat :: After(SEED, n) != 0 && Output(After(SEED, n)) != 0
    ensures exists n: nat :: 0 < n <= WORDS && After(SEED, n) == SEED
  {
    forall n: nat ensures After(SEED, n) != 0 && Output(After(SEED, n)) != 0 {
      NeverZero(SEED, n);
    }
    Periodic(SEED);
  }

  lemma Right12Is(x: bv64, y: bv64)
    requires y == x ^ (x >> 12)
    ensures y == Right12(x)
  {
  }

  lemma Left25Is(x: bv64, y: bv64)
    requires y == x ^ (x << 25)
    ensures y == Left25(x)
  {
  }

  lemma Right17Is(x: bv64, y: bv64)
    requires y == x ^ (x >> 17)
    ensures y == Right17(x)
  {
  }

  lemma OutputIs(x: bv64, y: bv64)
    requires y == x * 2685821657736338717
    ensures y == Output(x)
  {
  }

  lemma StepInvertible(state: bv64)
    ensures Previous(Next(state)) == state && StateOf(Output(Next(state))) == Next(state)
    ensures state != 0 ==> Next(state) != 0 && Output(Next(state)) != 0
  {
    PreviousNext(state);
    OutputInvertible(Next(state));
    if state != 0 {
      NonzeroStays(state);
      NonzeroStays(Next(state));
    }
  }

  /** `get_random`. The old state and the new one determine each other, and so do the new state
      and the word. */
  method GetRandom(state: bv64) returns (next: bv64, rand: bv64)
    ensures next == Next(state) && Previous(next) == state
    ensures rand == Output(next) && StateOf(rand) == next
    ensures state != 0 ==> next != 0 && rand != 0
  {
    next := state ^ (state >> 12);
    Right12Is(state, next);
    ghost var a := next;
    next := next ^ (next << 25);
    Left25Is(a, next);
    ghost var b := next;
    next := next ^ (next >> 17);
    Right17Is(b, next);
    rand := next * 2685821657736338717;
    OutputIs(next, rand);
    StepInvertible(state);
  }

  /** The first two states from the seed and the words they give. */
  lemma FirstWords()
    ensures After(SEED, 1) == 134218756 && Output(After(SEED, 1)) == 3991735646403684468
    ensures After(SEED, 2) == 4504699147682820 && Output(After(SEED, 2)) == 57649986164910196
  {
    assert After(SEED, 0) == 4;
    assert Right12(4) == 4 && Left25(4) == 134217732 && Right17(134217732) == 134218756;
    assert After(SEED, 1) == Next(After(SEED, 0));
    assert Right12(134218756) == 134251524 && Left25(134251524) == 4504733498770436;
    assert Right17(4504733498770436) == 4504699147682820;
    assert After(SEED, 2) == Next(After(SEED, 1));
  }
}
