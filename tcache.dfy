/**
 * The thread cache fast paths of include/jemalloc/internal/tcache_inlines.h.
 *
 * A bin caches freed objects of one size class on a fixed-size stack,
 * `avail`. In C, `avail` points one past the stack's slots and the object
 * on top is `*(avail - ncached)`; here the slots are an array of
 * `ncached_max` words and `*(avail - n)` is `avail[ncachedMax - n]`, so
 * the cached objects, top first, are `avail[ncachedMax - ncached..]`.
 *
 * What the fast paths hand to other code is a parameter: the result of
 * tcache_alloc_small_hard and large_malloc on a miss, whether
 * arena_choose finds an arena, index2size of the bin (`usize`), and the
 * new cache tcache_create_explicit makes. Pointers are numbers; NULL is 0.
 */
module ThreadCache {

  const NULL: nat := 0

  /** One bin, tcache_bin_t with its tcache_bin_info_t's ncached_max. */
  class TcacheBin {
    const ncachedMax: nat
    const avail: array<nat>
    var ncached: nat
    var lowWater: int
    /** tstats.nrequests: allocations served from this bin. */
    var nrequests: nat

    /**
     * The stack fits its slots, the low-water mark lies between -1 (the bin
     * ran dry) and the current count, and no cached pointer is NULL.
     */
    predicate Valid()
      reads this, avail
    {
      avail.Length == ncachedMax && ncached <= ncachedMax && -1 <= lowWater <= ncached
      && forall i :: ncachedMax - ncached <= i < ncachedMax ==> avail[i] != NULL
    }

    /** The cached pointers, the next one to be handed out first. */
    function Stack(): (s: seq<nat>)
      reads this, avail
      requires Valid()
      ensures |s| == ncached && forall i :: 0 <= i < |s| ==> s[i] != NULL
    {
      avail[ncachedMax - ncached..]
    }

    constructor(ncachedMax: nat)
      ensures Valid() && this.ncachedMax == ncachedMax && Stack() == [] && lowWater == 0 && nrequests == 0
      ensures fresh(avail)
    {
      this.ncachedMax := ncachedMax;
      avail := new nat[ncachedMax];
      ncached := 0;
      lowWater := 0;
      nrequests := 0;
    }

    /**
     * tcache_alloc_easy: pop the top pointer. An empty bin fails and records
     * that it ran dry (low water -1); otherwise the count drops by one and
     * the low-water mark follows it down.
     */
    method AllocEasy() returns (ret: nat, success: bool)
      requires Valid()
      modifies this
      ensures Valid() && nrequests == old(nrequests)
      ensures success == (old(ncached) > 0) && success == (ret != NULL)
      ensures !success ==> ncached == 0 && lowWater == -1
      ensures success ==> ret == old(Stack())[0] && Stack() == old(Stack())[1..] && ncached == old(ncached) - 1
      ensures success ==> lowWater == if ncached < old(lowWater) then ncached else old(lowWater)
    {
      if ncached == 0 {
        lowWater := -1;
        return NULL, false;
      }
      success := true;
      ret := avail[ncachedMax - ncached];
      ncached := ncached - 1;
      if ncached < lowWater {
        lowWater := ncached;
      }
    }

    /**
     * The effect on the bin of tcache_bin_flush_small/large with `rem`: the
     * `rem` pointers cached last stay (moved down to the bottom slots, as the
     * flush's memmove does), the others go back to their arenas.
     */
    method Flush(rem: nat)
      requires Valid() && rem <= ncached
      modifies this, avail
      ensures Valid() && nrequests == old(nrequests)
      ensures ncached == rem && Stack() == old(Stack())[..rem]
      ensures lowWater == if rem < old(lowWater) then rem else old(lowWater)
    {
      var src, dst := ncachedMax - ncached, ncachedMax - rem;
      forall i | 0 <= i < rem {
        avail[dst + i] := avail[src + i];
      }
      ncached := rem;
      if rem < lowWater {
        lowWater := rem;
      }
    }

    /**
     * The bin half of tcache_dalloc_small/large: a full bin is first flushed
     * down to half (`ncached_max >> 1`), then the freed pointer goes on top.
     */
    method Dalloc(ptr: nat)
      requires Valid() && ptr != NULL && ncachedMax > 0
      modifies this, avail
      ensures Valid() && nrequests == old(nrequests) && ncached <= ncachedMax
      ensures Stack() == [ptr] + if old(ncached) == ncachedMax then old(Stack())[..ncachedMax / 2] else old(Stack())
      ensures lowWater == if old(ncached) == ncachedMax && ncachedMax / 2 < old(lowWater) then ncachedMax / 2
                          else old(lowWater)
    {
      if ncached == ncachedMax {
        Flush(ncachedMax / 2);
      }
      ghost var before := Stack();
      ncached := ncached + 1;
      avail[ncachedMax - ncached] := ptr;
      assert Stack() == [ptr] + before;
    }
  }

  /** A freed pointer is the next one handed out: the bins are LIFO. */
  method DallocThenAlloc(bin: TcacheBin, ptr: nat) returns (ret: nat, success: bool)
    requires bin.Valid() && ptr != NULL && bin.ncachedMax > 0
    modifies bin, bin.avail
    ensures bin.Valid() && success && ret == ptr
  {
    bin.Dalloc(ptr);
    ret, success := bin.AllocEasy();
  }

  /** The thread's cache: the counters the fast paths update, and the size limits they assert. */
  class Tcache {
    const configStats: bool
    const configProf: bool
    /** SMALL_MAXCLASS and tcache_maxclass: the largest small size class and the largest cached one. */
    const smallMaxclass: nat
    const tcacheMaxclass: nat
    var profAccumbytes: nat

    constructor(configStats: bool, configProf: bool, smallMaxclass: nat, tcacheMaxclass: nat)
      ensures this.configStats == configStats && this.configProf == configProf
      ensures this.smallMaxclass == smallMaxclass && this.tcacheMaxclass == tcacheMaxclass
      ensures profAccumbytes == 0
    {
      this.configStats := configStats;
      this.configProf := configProf;
      this.smallMaxclass := smallMaxclass;
      this.tcacheMaxclass := tcacheMaxclass;
      profAccumbytes := 0;
    }

    /**
     * tcache_alloc_small: pop from the bin; on a miss go to the arena
     * (NULL when there is none, else what tcache_alloc_small_hard returns).
     * Every allocation that succeeds counts one request and `usize` bytes.
     */
    method AllocSmall(bin: TcacheBin, usize: nat, arenaFound: bool, hard: nat) returns (ret: nat)
      requires bin.Valid()
      modifies this, bin
      ensures bin.Valid()
      ensures old(bin.ncached) > 0 ==> ret == old(bin.Stack())[0] && bin.Stack() == old(bin.Stack())[1..]
      ensures old(bin.ncached) == 0 ==> ret == (if arenaFound then hard else NULL) && bin.lowWater == -1
      ensures bin.nrequests == old(bin.nrequests) + if ret != NULL && configStats then 1 else 0
      ensures profAccumbytes == old(profAccumbytes) + if ret != NULL && configProf then usize else 0
    {
      var success;
      ret, success := bin.AllocEasy();
      if !success {
        if !arenaFound {
          return NULL;
        }
        ret := hard;
        if ret == NULL {
          return NULL;
        }
      }
      if configStats {
        bin.nrequests := bin.nrequests + 1;
      }
      if configProf {
        profAccumbytes := profAccumbytes + usize;
      }
    }

    /**
     * tcache_alloc_large: pop from the bin; on a miss allocate one object
     * from the arena with large_malloc. Only a hit counts the request and
     * the bytes.
     */
    method AllocLarge(bin: TcacheBin, usize: nat, arenaFound: bool, large: nat) returns (ret: nat)
      requires bin.Valid()
      modifies this, bin
      ensures bin.Valid()
      ensures old(bin.ncached) > 0 ==> ret == old(bin.Stack())[0] && bin.Stack() == old(bin.Stack())[1..]
      ensures old(bin.ncached) == 0 ==> ret == (if arenaFound then large else NULL) && bin.lowWater == -1
      ensures bin.nrequests == old(bin.nrequests) + if old(bin.ncached) > 0 && configStats then 1 else 0
      ensures profAccumbytes == old(profAccumbytes) + if old(bin.ncached) > 0 && configProf then usize else 0
    {
      var success;
      ret, success := bin.AllocEasy();
      if !success {
        if !arenaFound {
          return NULL;
        }
        return large;
      }
      if configStats {
        bin.nrequests := bin.nrequests + 1;
      }
      if configProf {
        profAccumbytes := profAccumbytes + usize;
      }
    }

    /** tcache_dalloc_small: cache a freed small object (of size `usize`) in its bin. */
    method DallocSmall(bin: TcacheBin, ptr: nat, usize: nat)
      requires bin.Valid() && ptr != NULL && bin.ncachedMax > 0
      requires usize <= smallMaxclass
      modifies bin, bin.avail
      ensures bin.Valid() && bin.ncached <= bin.ncachedMax && bin.nrequests == old(bin.nrequests)
      ensures bin.Stack() == [ptr] + if old(bin.ncached) == bin.ncachedMax then old(bin.Stack())[..bin.ncachedMax / 2]
                                     else old(bin.Stack())
      ensures bin.lowWater == if old(bin.ncached) == bin.ncachedMax && bin.ncachedMax / 2 < old(bin.lowWater)
                              then bin.ncachedMax / 2 else old(bin.lowWater)
    {
      bin.Dalloc(ptr);
    }

    /** tcache_dalloc_large: cache a freed large object (above the small classes, within the cache's limit). */
    method DallocLarge(bin: TcacheBin, ptr: nat, usize: nat)
      requires bin.Valid() && ptr != NULL && bin.ncachedMax > 0
      requires smallMaxclass < usize <= tcacheMaxclass
      modifies bin, bin.avail
      ensures bin.Valid() && bin.ncached <= bin.ncachedMax && bin.nrequests == old(bin.nrequests)
      ensures bin.Stack() == [ptr] + if old(bin.ncached) == bin.ncachedMax then old(bin.Stack())[..bin.ncachedMax / 2]
                                     else old(bin.Stack())
      ensures bin.lowWater == if old(bin.ncached) == bin.ncachedMax && bin.ncachedMax / 2 < old(bin.lowWater)
                              then bin.ncachedMax / 2 else old(bin.lowWater)
    {
      bin.Dalloc(ptr);
    }
  }

  // ---------------------------------------------------------------------
  // Enabling and disabling the cache
  // ---------------------------------------------------------------------

  /** tcache_enabled_t: false, true, and the not-yet-decided default. */
  datatype TcacheEnabled = Disabled | Enabled | Default

  /** What tcache_enabled_set calls, with the state it sees then. */
  datatype TsdEvent = DataInit(seen: TcacheEnabled) | Cleanup(seen: TcacheEnabled)

  /** The state tcache_enabled_set commits. */
  function EnabledState(enabled: bool): TcacheEnabled
  {
    if enabled then Enabled else Disabled
  }

  /**
   * The calls tcache_enabled_set makes before it commits: tsd_tcache_data_init
   * on a change into enabled, tcache_cleanup on a change from enabled to
   * disabled, nothing otherwise.
   */
  function EnabledSetCalls(old_: TcacheEnabled, enabled: bool): (r: seq<TsdEvent>)
    ensures |r| <= 1
    ensures forall e :: e in r ==> e.seen == old_
    ensures DataInit(old_) in r <==> old_ != Enabled && enabled
    ensures Cleanup(old_) in r <==> old_ == Enabled && !enabled
  {
    if old_ != Enabled && enabled then [DataInit(old_)]
    else if old_ == Enabled && !enabled then [Cleanup(old_)]
    else []
  }

  /** Setting the same value twice does the work once: the second call makes no call. */
  lemma EnabledSetIdempotent(enabled: bool)
    ensures EnabledSetCalls(EnabledState(enabled), enabled) == []
  {
  }

  /** The thread's tcache_enabled state, and the calls that tcache_enabled_set has made. */
  class Tsd {
    var tcacheEnabled: TcacheEnabled
    var events: seq<TsdEvent>

    constructor()
      ensures tcacheEnabled == Default && events == []
    {
      tcacheEnabled := Default;
      events := [];
    }

    /** tcache_enabled_get: the decided state. */
    function EnabledGet(): (r: bool)
      reads this
      requires tcacheEnabled != Default
      ensures r <==> tcacheEnabled == Enabled
    {
      tcacheEnabled == Enabled
    }

    /** tcache_enabled_set: make the calls the old state calls for, then commit the new state. */
    method EnabledSet(enabled: bool)
      modifies this
      ensures events == old(events) + EnabledSetCalls(old(tcacheEnabled), enabled)
      ensures tcacheEnabled == EnabledState(enabled)
    {
      var old_ := tcacheEnabled;
      if old_ != Enabled && enabled {
        events := events + [DataInit(tcacheEnabled)];
      } else if old_ == Enabled && !enabled {
        events := events + [Cleanup(tcacheEnabled)];
      }
      tcacheEnabled := if enabled then Enabled else Disabled;
    }
  }

  // ---------------------------------------------------------------------
  // Explicit caches
  // ---------------------------------------------------------------------

  /** The `tcaches` array: one slot per explicit cache index, NULL until created. */
  class Tcaches {
    const elms: array<nat>

    constructor(n: nat)
      ensures elms.Length == n && forall i :: 0 <= i < n ==> elms[i] == NULL
      ensures fresh(elms)
    {
      elms := new nat[n](_ => NULL);
    }

    /**
     * tcaches_get: the cache in slot `ind`, created (as `created`) only if
     * the slot is NULL. Once the slot holds a cache every later call
     * returns that cache and changes nothing.
     */
    method Get(ind: nat, created: nat) returns (t: nat)
      requires ind < elms.Length
      modifies elms
      ensures t == if old(elms[ind]) == NULL then created else old(elms[ind])
      ensures elms[..] == old(elms[..])[ind := t]
      ensures old(elms[ind]) != NULL ==> elms[..] == old(elms[..])
    {
      if elms[ind] == NULL {
        elms[ind] := created;
      }
      t := elms[ind];
    }
  }
}
