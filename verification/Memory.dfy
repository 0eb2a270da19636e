/** The allocator of os_composite_mem.c, malloc branch: usage counters, realloc by
    copying, and blocks whose recorded size is the length of the array. */
module Memory {
  import opened Base
  import opened Accounting

  class Mem {
    const env: Env
    var calls: nat
    var outstanding: int
    var maxMemory: int

    /** Everything that happened so far. */
    ghost var history: Log
    /** Regions a client may still use. */
    ghost var live: set<Region>
    /** Regions granted and not yet passed to `_free_region`. */
    ghost var ledger: set<Region>
    /** The charges of the regions that plain frees have lost. */
    ghost var leaked: nat
    /** The bytes that reallocs have copied. */
    ghost var copied: nat

    /** The counters and the sets are those that the history leaves. */
    ghost predicate Valid()
      reads this
    {
      Legal(history) && After(history) == Books(outstanding, maxMemory, live, ledger, leaked)
    }

    constructor (env: Env)
      ensures Valid() && this.env == env && calls == 0 && live == {} && history == Start
    {
      this.env := env;
      calls, outstanding, maxMemory := 0, 0, 0;
      history, live, ledger, leaked, copied := Start, {}, {}, 0, 0;
    }

    /** At any time, after any calls: `outstanding_memory` is the total charge of the regions not
        taken back, which is that of the live ones plus what plain frees have lost. */
    lemma Charged()
      requires Valid()
      ensures outstanding == ChargeOf(ledger) == ChargeOf(live) + leaked
      ensures outstanding == ChargeOf(live) <==> NoPlainFree(history)
    {
      OutstandingIsLedger(history);
      OutstandingIsUseAndLeaks(history);
      OutstandingIsUseExactly(history);
    }

    /** And `max_memory` is the greatest value that counter ever had, exactly while that fits an
        `int` or was reached by the last grant. */
    lemma Recorded()
      requires Valid()
      ensures maxMemory == Peak(history) <==> Peak(history) <= INT_MAX || LastGrant(history) == Peak(history)
      ensures forall g :: Moment(g, history) ==> After(g).outstanding <= Peak(history)
      ensures exists g :: Moment(g, history) && After(g).outstanding == Peak(history)
    {
      RecordExactly(history);
      PeakIsGreatest(history);
    }

    /** `_malloc_region`: decides the request for `r` and charges it. */
    method MallocRegion(r: Region, sz: nat) returns (granted: bool)
      requires Valid() && r.Charge() == sz + SIZEOF_INT && r !in ledger
      modifies this
      ensures Valid() && leaked == old(leaked) && copied == old(copied)
      ensures calls == old(calls) + 1 && granted == env.grants(old(calls))
      ensures history == if granted then Then(old(history), Granted(r)) else old(history)
      ensures live == if granted then old(live) + {r} else old(live)
      ensures ledger == if granted then old(ledger) + {r} else old(ledger)
      ensures outstanding == if granted then old(outstanding) + sz + SIZEOF_INT else old(outstanding)
      ensures !granted ==> maxMemory == old(maxMemory)
    {
      granted := env.grants(calls);
      calls := calls + 1;
      if !granted {
        return;
      }
      outstanding := outstanding + sz + SIZEOF_INT;
      maxMemory := NarrowingMax(outstanding, maxMemory);

      history, live, ledger := Then(history, Granted(r)), live + {r}, ledger + {r};
    }

    /** `_free_region`: takes the charge back and gives the region up. */
    method FreeRegion(data: array<byte>)
      requires Valid() && Bytes(data) in live
      modifies this
      ensures Valid() && calls == old(calls) && leaked == old(leaked) && copied == old(copied)
      ensures history == Then(old(history), Returned(Bytes(data)))
      ensures live == old(live) - {Bytes(data)} && ledger == old(ledger) - {Bytes(data)}
      ensures outstanding == old(outstanding) - data.Length - SIZEOF_INT && maxMemory == old(maxMemory)
    {
      outstanding := outstanding - (data.Length + SIZEOF_INT);

      history := Then(history, Returned(Bytes(data)));
      live, ledger := live - {Bytes(data)}, ledger - {Bytes(data)};
    }

    /** `cMemMalloc` for a byte block. */
    method Malloc(sz: nat) returns (p: array?<byte>)
      requires Valid()
      modifies this
      ensures Valid() && leaked == old(leaked) && copied == old(copied)
      ensures calls == old(calls) + 1 && (p != null <==> env.grants(old(calls)))
      ensures p == null ==> live == old(live) && ledger == old(ledger) && history == old(history)
      ensures p == null ==> outstanding == old(outstanding) && maxMemory == old(maxMemory)
      ensures p != null ==> fresh(p) && Bytes(p) !in old(ledger) && p.Length == sz && p[..] == env.Fresh(old(calls), sz)
      ensures p != null ==> live == old(live) + {Bytes(p)} && ledger == old(ledger) + {Bytes(p)}
      ensures p != null ==> history == Then(old(history), Granted(Bytes(p)))
      ensures p != null ==> outstanding == old(outstanding) + sz + SIZEOF_INT
    {
      var n := calls;
      var a := new byte[sz](i requires 0 <= i < sz => env.junk(n, i));
      var ok := MallocRegion(Bytes(a), sz);
      p := if ok then a else null;
    }

    /** `cMemFree`: the region goes back to the system, but no counter changes. */
    method Free(r: Region)
      requires Valid() && r in live
      modifies this
      ensures Valid() && calls == old(calls) && copied == old(copied)
      ensures history == Then(old(history), Dropped(r))
      ensures live == old(live) - {r} && ledger == old(ledger) && leaked == old(leaked) + r.Charge()
      ensures outstanding == old(outstanding) && maxMemory == old(maxMemory)
    {
      history, live, leaked := Then(history, Dropped(r)), live - {r}, leaked + r.Charge();
    }

    /** The copy loop of `cMemRealloc`. */
    method CopyFront(dst: array<byte>, src: array<byte>)
      requires dst != src && src.Length <= dst.Length
      modifies dst, this`copied
      ensures dst[..] == src[..] + old(dst[src.Length..]) && copied == old(copied) + src.Length
    {
      var i := 0;
      while i < src.Length
        invariant 0 <= i <= src.Length && copied == old(copied) + i
        invariant forall j :: 0 <= j < i ==> dst[j] == src[j]
        invariant forall j :: i <= j < dst.Length ==> dst[j] == old(dst[j])
      {
        dst[i] := src[i];
        copied := copied + 1;
        i := i + 1;
      }
    }

    /** `cMemRealloc`: a new region, the old bytes copied to its front, the old region freed.
        The old region is still charged while the new one is, so both count towards the peak. */
    method Realloc(mem: array<byte>, newSize: nat) returns (p: array?<byte>)
      requires Valid() && Bytes(mem) in live && mem.Length <= newSize
      modifies this
      ensures Valid() && leaked == old(leaked)
      ensures calls == old(calls) + 1 && (p != null <==> env.grants(old(calls)))
      ensures p == null ==> live == old(live) && ledger == old(ledger) && history == old(history) && copied == old(copied)
      ensures p == null ==> outstanding == old(outstanding) && maxMemory == old(maxMemory)
      ensures p != null ==> fresh(p) && Bytes(p) !in old(ledger) && p.Length == newSize
      ensures p != null ==> p[..] == mem[..] + env.Fresh(old(calls), newSize)[mem.Length..]
      ensures p != null ==> live == old(live) - {Bytes(mem)} + {Bytes(p)}
      ensures p != null ==> ledger == old(ledger) - {Bytes(mem)} + {Bytes(p)}
      ensures p != null ==> history == Then(Then(old(history), Granted(Bytes(p))), Returned(Bytes(mem)))
      ensures p != null ==> copied == old(copied) + mem.Length
      ensures p != null ==> outstanding == old(outstanding) + newSize - mem.Length
      ensures Peak(history) == if p == null then Peak(old(history))
                               else Max(Peak(old(history)), old(outstanding) + newSize + SIZEOF_INT)
    {
      p := Malloc(newSize);
      if p == null {
        return;
      }
      CopyFront(p, mem);
      FreeRegion(mem);
      ReallocPeak(old(history), Bytes(p), Bytes(mem));
      assert history == Then(Then(old(history), Granted(Bytes(p))), Returned(Bytes(mem)));
    }
  }
}
