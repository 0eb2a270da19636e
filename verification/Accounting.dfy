/** The usage counters of os_composite_mem.c over whole runs: what `outstanding_memory` and
    `max_memory` hold after any sequence of grants and frees. */
module Accounting {
  import opened Base

  /** A region handed out: a byte block, or the block that holds one C struct. */
  datatype Region = Bytes(data: array<byte>) | Struct(node: object, size: nat)
  {
    /** What `outstanding_memory` is charged: the size plus the header. */
    function Charge(): nat {
      SIZEOF_INT + match this
        case Bytes(data) => data.Length
        case Struct(_, size) => size
    }
  }

  /** What happens in the allocator: `_malloc_region` grants a region, `cMemFree` drops one,
      `_free_region` takes one back. A realloc grants the new region, then takes back the old. */
  datatype Event = Granted(r: Region) | Dropped(r: Region) | Returned(r: Region)

  /** A run of the allocator. */
  datatype Log = Start | Then(before: Log, last: Event)

  /** The two counters; the regions a client may still use; those granted and not yet passed to
      `_free_region`; and the charges of all that went through `cMemFree`. */
  datatype Books = Books(outstanding: int, maxMemory: int, live: set<Region>, ledger: set<Region>, leaked: nat)

  /** `max`: its second parameter is an `int`, so the recorded maximum is narrowed. */
  function NarrowingMax(a: int, b: int): int {
    Max(a, ToInt32(b))
  }

  function Book(b: Books, e: Event): Books {
    match e
    case Granted(r) =>
      var total := b.outstanding + r.Charge();
      Books(total, NarrowingMax(total, b.maxMemory), b.live + {r}, b.ledger + {r}, b.leaked)
    case Dropped(r) => b.(live := b.live - {r}, leaked := b.leaked + r.Charge())
    case Returned(r) =>
      b.(outstanding := b.outstanding - r.Charge(), live := b.live - {r}, ledger := b.ledger - {r})
  }

  /** The books after a run. */
  function After(h: Log): Books {
    match h
    case Start => Books(0, 0, {}, {}, 0)
    case Then(before, e) => Book(After(before), e)
  }

  /** New regions are new, and only regions in use are freed. */
  predicate Legal(h: Log) {
    match h
    case Start => true
    case Then(before, e) =>
      Legal(before) && if e.Granted? then e.r !in After(before).ledger else e.r in After(before).live
  }

  /** The greatest value of `outstanding_memory` so far, its initial zero included. */
  function Peak(h: Log): int {
    match h
    case Start => 0
    case Then(before, _) => Max(After(h).outstanding, Peak(before))
  }

  /** The value of `outstanding_memory` after the last grant. */
  function LastGrant(h: Log): int {
    match h
    case Start => 0
    case Then(before, e) => if e.Granted? then After(h).outstanding else LastGrant(before)
  }

  predicate NoPlainFree(h: Log) {
    h.Then? ==> !h.last.Dropped? && NoPlainFree(h.before)
  }

  /** `g` is the run `h` up to some moment. */
  predicate Moment(g: Log, h: Log) {
    g == h || (h.Then? && Moment(g, h.before))
  }

  /** All regions of a set, charged once each. */
  ghost function ChargeOf(s: set<Region>): nat {
    if s == {} then 0
    else
      var r :| r in s;
      r.Charge() + ChargeOf(s - {r})
  }

  lemma {:induction false} ChargeWithout(s: set<Region>, r: Region)
    requires r in s
    ensures ChargeOf(s) == r.Charge() + ChargeOf(s - {r})
    decreases |s|
  {
    var q :| q in s && ChargeOf(s) == q.Charge() + ChargeOf(s - {q});
    if q != r {
      ChargeWithout(s - {q}, r);
      ChargeWithout(s - {r}, q);
      assert s - {q} - {r} == s - {r} - {q};
    }
  }

  lemma ChargeWith(s: set<Region>, r: Region)
    requires r !in s
    ensures ChargeOf(s + {r}) == ChargeOf(s) + r.Charge()
  {
    ChargeWithout(s + {r}, r);
    assert s + {r} - {r} == s;
  }

  lemma {:induction false} ChargeUnion(s: set<Region>, t: set<Region>)
    requires s !! t
    ensures ChargeOf(s + t) == ChargeOf(s) + ChargeOf(t)
    decreases |t|
  {
    if t == {} {
      assert s + t == s;
    } else {
      var r :| r in t;
      ChargeUnion(s, t - {r});
      ChargeWithout(t, r);
      ChargeWithout(s + t, r);
      assert s + t - {r} == s + (t - {r});
    }
  }

  lemma {:induction false} LiveIsCharged(h: Log)
    requires Legal(h)
    ensures After(h).live <= After(h).ledger
  {
    if h.Then? {
      LiveIsCharged(h.before);
    }
  }

  /** After any run, `outstanding_memory` is the sum of size plus header over the regions
      granted and not passed to `_free_region`. */
  lemma {:induction false} OutstandingIsLedger(h: Log)
    requires Legal(h)
    ensures After(h).outstanding == ChargeOf(After(h).ledger)
  {
    match h
    case Start =>
    case Then(before, e) =>
      OutstandingIsLedger(before);
      LiveIsCharged(before);
      match e
      case Granted(r) => ChargeWith(After(before).ledger, r);
      case Returned(r) => ChargeWithout(After(before).ledger, r);
      case Dropped(_) =>
  }

  /** It is the memory in use plus everything that plain frees have lost. */
  lemma {:induction false} OutstandingIsUseAndLeaks(h: Log)
    requires Legal(h)
    ensures After(h).outstanding == ChargeOf(After(h).live) + After(h).leaked
  {
    match h
    case Start =>
    case Then(before, e) =>
      OutstandingIsUseAndLeaks(before);
      LiveIsCharged(before);
      match e
      case Granted(r) => ChargeWith(After(before).live, r);
      case Returned(r) => ChargeWithout(After(before).live, r);
      case Dropped(r) => ChargeWithout(After(before).live, r);
  }

  lemma {:induction false} LeakedExactly(h: Log)
    ensures After(h).leaked == 0 <==> NoPlainFree(h)
  {
    if h.Then? {
      LeakedExactly(h.before);
    }
  }

  /** `outstanding_memory` is the memory in use exactly when no region went through `cMemFree`. */
  lemma OutstandingIsUseExactly(h: Log)
    requires Legal(h)
    ensures After(h).outstanding == ChargeOf(After(h).live) <==> NoPlainFree(h)
  {
    OutstandingIsUseAndLeaks(h);
    LeakedExactly(h);
  }

  /** `Peak` is the greatest of the values that `outstanding_memory` had along the run, those in
      the middle of a realloc included. */
  lemma {:induction false} PeakIsGreatest(h: Log)
    ensures forall g :: Moment(g, h) ==> After(g).outstanding <= Peak(h)
    ensures exists g :: Moment(g, h) && After(g).outstanding == Peak(h)
  {
    assert Moment(h, h);
    if h.Then? {
      PeakIsGreatest(h.before);
      if Peak(h) != After(h).outstanding {
        var g :| Moment(g, h.before) && After(g).outstanding == Peak(h.before);
        assert Moment(g, h);
      }
    }
  }

  lemma {:induction false} BelowPeak(h: Log)
    ensures 0 <= Peak(h) && LastGrant(h) <= Peak(h) && After(h).outstanding <= Peak(h)
  {
    if h.Then? {
      BelowPeak(h.before);
    }
  }

  /** Over any run: `max_memory` is the greatest value that `outstanding_memory` ever had,
      exactly when that value fits an `int` or the last grant reached it. */
  lemma {:induction false} RecordExactly(h: Log)
    ensures After(h).maxMemory == Peak(h) <==> Peak(h) <= INT_MAX || LastGrant(h) == Peak(h)
    ensures Peak(h) <= INT_MAX ==> 0 <= After(h).maxMemory
  {
    if h.Then? {
      RecordExactly(h.before);
      BelowPeak(h.before);
      BelowPeak(h);
    }
  }

  /** A realloc moves the total by the difference in size, and counts both regions towards
      the peak. */
  lemma ReallocPeak(h: Log, young: Region, stale: Region)
    ensures var g := Then(Then(h, Granted(young)), Returned(stale));
      && After(g).outstanding == After(h).outstanding + young.Charge() - stale.Charge()
      && Peak(g) == Max(Peak(h), After(h).outstanding + young.Charge())
  {
    var mid := Then(h, Granted(young));
    assert After(mid).outstanding == After(h).outstanding + young.Charge();
    BelowPeak(mid);
  }
}
