/**
 * How jemalloc/src/jemalloc.c sizes and hands out its arenas: the CPU
 * count read at boot, the derivation of `narenas` from it and the
 * `opt_narenas_lshift` option in malloc_init_hard, the zeroed `arenas`
 * array, and the round-robin assignment of threads to arenas in
 * choose_arena_hard.
 *
 * `narenas`, `ncpus` and `next_arena` are C `unsigned` (32 bits);
 * `opt_narenas_lshift` is an `int`. Arenas themselves are opaque: an arena
 * is named by a number, and NULL slots of `arenas` are None.
 */
module Arenas {
  import opened Arith

  /** sizeof(arena_t *) on a 64-bit target. */
  const SIZEOF_ARENA_PTR: nat := 8

  /** The table of hash-arena counts used when the build has no TLS. */
  const PRIMES: seq<nat> := [1, 3, 5, 7, 11, 13, 17, 19,
    23, 29, 31, 37, 41, 43, 47, 53, 59, 61, 67, 71, 73, 79, 83,
    89, 97, 101, 103, 107, 109, 113, 127, 131, 137, 139, 149,
    151, 157, 163, 167, 173, 179, 181, 191, 193, 197, 199, 211,
    223, 227, 229, 233, 239, 241, 251, 257, 263]

  predicate IsU32(x: int) { 0 <= x < UINT_LIMIT }

  /** `x << k` on a 32-bit unsigned: the bits shifted out are lost. */
  function Shl32(x: nat, k: nat): (r: nat)
    ensures IsU32(r)
  {
    (x * Pow2(k)) % UINT_LIMIT
  }

  // ---------------------------------------------------------------------
  // The CPU count
  // ---------------------------------------------------------------------

  /**
   * malloc_ncpus as written: the fallback of 1 for a failed sysconf is
   * overwritten by the unconditional `(unsigned)result`.
   */
  function NcpusAsWritten(sysconfResult: int): (r: nat)
    ensures IsU32(r)
  {
    sysconfResult % UINT_LIMIT
  }

  /** malloc_ncpus as its comment intends: 1 CPU when sysconf reports an error. */
  function Ncpus(sysconfResult: int): (r: nat)
    ensures IsU32(r)
    ensures sysconfResult == -1 ==> r == 1
    ensures 0 <= sysconfResult < UINT_LIMIT ==> r == sysconfResult
  {
    if sysconfResult == -1 then 1 else sysconfResult % UINT_LIMIT
  }

  /** A failed sysconf makes the code as written report 2^32 - 1 CPUs. */
  lemma NcpusErrorWraps()
    ensures NcpusAsWritten(-1) == UINT_LIMIT - 1
    ensures Ncpus(-1) == 1
  {
    DivModUnique(-1, UINT_LIMIT, -1, UINT_LIMIT - 1);
  }

  // ---------------------------------------------------------------------
  // The narenas derivation
  // ---------------------------------------------------------------------

  /**
   * The lshift after the SMP adjustment: one more arena doubling with a
   * thread cache that has slots, two more otherwise, nothing on one CPU.
   */
  function SmpLshift(lshift: int, ncpus: nat, tcacheBuild: bool, tcacheSlots: bool): int
  {
    if ncpus > 1 then (if tcacheBuild && tcacheSlots then lshift + 1 else lshift + 2)
    else lshift
  }

  /** narenas as `ncpus` shifted by `lshift`, before the prime rounding. */
  function ShiftedNarenas(ncpus: nat, lshift: int, chunksize: nat): nat
  {
    if lshift > 0 then
      var n := if Shl32(ncpus, lshift) > ncpus then Shl32(ncpus, lshift) else ncpus;
      if n * SIZEOF_ARENA_PTR > chunksize then chunksize / SIZEOF_ARENA_PTR else n
    else if lshift < 0 then
      var n := if Shr(ncpus, -lshift) < ncpus then Shr(ncpus, -lshift) else ncpus;
      if n == 0 then 1 else n
    else ncpus
  }

  /**
   * The consequence of the wrapped CPU count: with the default 2 MiB chunk
   * and a thread cache, a failed sysconf yields one arena per pointer slot
   * of a chunk (262144) where the intended fallback of one CPU yields a
   * single arena.
   */
  lemma NcpusErrorArenaCount()
    ensures var ncpus := NcpusAsWritten(-1);
      Narenas(ncpus, SmpLshift(0, ncpus, true, true), 0x20_0000, false) == 0x4_0000
    ensures var ncpus := Ncpus(-1);
      Narenas(ncpus, SmpLshift(0, ncpus, true, true), 0x20_0000, false) == 1
  {
    NcpusErrorWraps();
    var ncpus := UINT_LIMIT - 1;
    assert Pow2(1) == 2;
    DivModUnique(ncpus * 2, UINT_LIMIT, 1, UINT_LIMIT - 2);
    assert Shl32(ncpus, 1) == UINT_LIMIT - 2;
  }

  /** The first table entry past the leading 1 that exceeds n, or the last entry. */
  function PrimeAbove(n: nat): nat
  {
    PrimeFrom(n, 1)
  }

  function PrimeFrom(n: nat, i: nat): nat
    requires 1 <= i <= |PRIMES|
    decreases |PRIMES| - i
  {
    if i == |PRIMES| then PRIMES[|PRIMES| - 1]
    else if PRIMES[i] > n then PRIMES[i]
    else PrimeFrom(n, i + 1)
  }

  /** The arena count malloc_init_hard settles on. */
  function Narenas(ncpus: nat, lshift: int, chunksize: nat, noTls: bool): nat
  {
    var n := ShiftedNarenas(ncpus, lshift, chunksize);
    if noTls && n > 1 then PrimeAbove(n) else n
  }

  /** With a positive lshift the shift is applied when it fits in 32 bits: `ncpus << lshift` is the true product and exceeds ncpus. */
  lemma LeftShiftApplied(ncpus: nat, k: nat)
    requires ncpus >= 1 && k >= 1 && ncpus * Pow2(k) < UINT_LIMIT
    ensures Shl32(ncpus, k) == ncpus * Pow2(k) > ncpus
  {
    Pow2Monotone(1, k);
    MulMonotone(2, Pow2(k), ncpus);
    DivModUnique(ncpus * Pow2(k), UINT_LIMIT, 0, ncpus * Pow2(k));
  }

  /**
   * A positive lshift never takes narenas past what one chunk of arena
   * pointers holds, applies the shift only when the 32-bit result grows,
   * and keeps the true product whenever it fits both limits.
   */
  lemma PositiveShiftBounds(ncpus: nat, lshift: int, chunksize: nat)
    requires lshift > 0 && IsU32(ncpus)
    ensures ShiftedNarenas(ncpus, lshift, chunksize) * SIZEOF_ARENA_PTR <= chunksize
    ensures var r := ShiftedNarenas(ncpus, lshift, chunksize);
      r == ncpus || r == Shl32(ncpus, lshift) || r == chunksize / SIZEOF_ARENA_PTR
    ensures ShiftedNarenas(ncpus, lshift, chunksize)
            >= if ncpus * SIZEOF_ARENA_PTR > chunksize then chunksize / SIZEOF_ARENA_PTR else ncpus
    ensures Shl32(ncpus, lshift) <= ncpus
            ==> ShiftedNarenas(ncpus, lshift, chunksize)
                == if ncpus * SIZEOF_ARENA_PTR > chunksize then chunksize / SIZEOF_ARENA_PTR else ncpus
    ensures ncpus >= 1 && ncpus * Pow2(lshift) < UINT_LIMIT
            && ncpus * Pow2(lshift) * SIZEOF_ARENA_PTR <= chunksize
            ==> ShiftedNarenas(ncpus, lshift, chunksize) == ncpus * Pow2(lshift)
  {
    DivMod(chunksize, SIZEOF_ARENA_PTR);
    if ncpus >= 1 && ncpus * Pow2(lshift) < UINT_LIMIT {
      LeftShiftApplied(ncpus, lshift);
    }
  }

  /** A negative lshift divides ncpus by 2^-lshift, and yields at least one arena. */
  lemma NegativeShiftExact(ncpus: nat, lshift: int, chunksize: nat)
    requires lshift < 0
    ensures ShiftedNarenas(ncpus, lshift, chunksize) == if ncpus / Pow2(-lshift) == 0 then 1 else ncpus / Pow2(-lshift)
    ensures 1 <= ShiftedNarenas(ncpus, lshift, chunksize) <= if ncpus == 0 then 1 else ncpus
  {
    var k := -lshift;
    ShrIsDiv(ncpus, k);
    Pow2Monotone(1, k);
    if ncpus >= 1 {
      DivMod(ncpus, Pow2(k));
      MulMonotone(2, Pow2(k), ncpus / Pow2(k));
      assert ncpus / Pow2(k) < ncpus;
    }
  }

  /**
   * Without TLS the count becomes the first table entry past the leading 1
   * that exceeds n; when none does, the last entry, 263. Below 263 the
   * result therefore always exceeds n.
   */
  lemma PrimeAboveIsFirst(n: nat)
    ensures exists idx :: (1 <= idx < |PRIMES| && PRIMES[idx] == PrimeAbove(n)
                           && (PRIMES[idx] > n || idx == |PRIMES| - 1)
                           && (forall k :: 1 <= k < idx ==> PRIMES[k] <= n))
    ensures n < 263 ==> PrimeAbove(n) > n
  {
    var idx := PrimeFromIndex(n, 1);
  }

  lemma {:induction false} PrimeFromIndex(n: nat, i: nat) returns (idx: nat)
    requires 1 <= i <= |PRIMES|
    requires forall k :: 1 <= k < i ==> PRIMES[k] <= n
    ensures 1 <= idx < |PRIMES| && PRIMES[idx] == PrimeFrom(n, i)
    ensures PRIMES[idx] > n || idx == |PRIMES| - 1
    ensures forall k :: 1 <= k < idx ==> PRIMES[k] <= n
    decreases |PRIMES| - i
  {
    if i == |PRIMES| {
      idx := |PRIMES| - 1;
    } else if PRIMES[i] > n {
      idx := i;
    } else {
      idx := PrimeFromIndex(n, i + 1);
    }
  }

  // ---------------------------------------------------------------------
  // The arena globals
  // ---------------------------------------------------------------------

  /** An arena, by identity. */
  type Arena = nat

  datatype Option<T> = None | Some(value: T)

  /**
   * The narenas computation of malloc_init_hard: ncpus shifted by lshift
   * and bounded by the pointer slots of a chunk, then, without TLS, rounded
   * to a prime.
   */
  method DeriveNarenas(ncpus: nat, lshift: int, chunksize: nat, noTls: bool) returns (narenas: nat)
    requires IsU32(ncpus) && ncpus >= 1 && chunksize >= SIZEOF_ARENA_PTR
    ensures narenas == Narenas(ncpus, lshift, chunksize, noTls) && narenas >= 1
  {
    narenas := ncpus;
    if lshift > 0 {
      if Shl32(narenas, lshift) > narenas {
        narenas := Shl32(narenas, lshift);
      }
      if narenas * SIZEOF_ARENA_PTR > chunksize {
        narenas := chunksize / SIZEOF_ARENA_PTR;
      }
    } else if lshift < 0 {
      if Shr(narenas, -lshift) < narenas {
        narenas := Shr(narenas, -lshift);
      }
      if narenas == 0 {
        narenas := 1;
      }
    }
    assert narenas == ShiftedNarenas(ncpus, lshift, chunksize);
    assert narenas >= 1;
    if noTls && narenas > 1 {
      PrimeAboveIsFirst(narenas);
      narenas := HashArenaCount(narenas);
    }
  }

  /** narenas, opt_narenas_lshift, next_arena, the arenas array and this thread's arenas_map. */
  class ArenaGlobals {
    var narenas: nat
    var lshift: int
    var nextArena: nat
    var arenas: seq<Option<Arena>>
    var arenasMap: Option<Arena>

    /** What malloc_init_hard establishes on success. */
    predicate Valid()
      reads this
    {
      narenas >= 1 && |arenas| == narenas && arenas[0].Some? && nextArena < narenas
    }

    /**
     * The scaffolding malloc_init_hard sets up before it counts the CPUs:
     * one arena, the static init_arenas array whose slot 0 holds the
     * bootstrap arena, and the parsed lshift.
     */
    constructor (parsedLshift: int, initArena: Arena)
      ensures lshift == parsedLshift && narenas == 1 && nextArena == 0
      ensures arenas == [Some(initArena)] && arenasMap == Some(initArena)
      ensures Valid()
    {
      lshift := parsedLshift;
      narenas := 1;
      nextArena := 0;
      arenas := [Some(initArena)];
      arenasMap := Some(initArena);
    }

    /**
     * The tail of malloc_init_hard from the CPU count on: adjust lshift for
     * SMP, derive narenas, pick a prime without TLS, reset next_arena, and
     * allocate the zeroed arenas array whose slot 0 is the bootstrap arena.
     * `arrayAllocFails` is base_alloc's outcome; on failure its NULL is
     * what `arenas` then holds (the empty sequence) and the call reports
     * true.
     */
    method BootArenas(ncpus: nat, tcacheBuild: bool, tcacheSlots: bool, chunksize: nat,
                      noTls: bool, initArena: Arena, arrayAllocFails: bool) returns (failed: bool)
      requires IsU32(ncpus) && ncpus >= 1 && chunksize >= SIZEOF_ARENA_PTR
      modifies this
      ensures lshift == SmpLshift(old(lshift), ncpus, tcacheBuild, tcacheSlots)
      ensures narenas == Narenas(ncpus, lshift, chunksize, noTls) && narenas >= 1
      ensures nextArena == 0 && arenasMap == old(arenasMap)
      ensures failed == arrayAllocFails
      ensures failed ==> arenas == []
      ensures !failed ==> arenas == [Some(initArena)] + seq(narenas - 1, _ => None)
      ensures !failed ==> Valid()
    {
      if ncpus > 1 {
        if tcacheBuild && tcacheSlots {
          lshift := lshift + 1;
        } else {
          lshift := lshift + 2;
        }
      }
      narenas := DeriveNarenas(ncpus, lshift, chunksize, noTls);
      nextArena := 0;
      if arrayAllocFails {
        arenas := [];
        return true;
      }
      arenas := [Some(initArena)] + seq(narenas - 1, _ => None);
      return false;
    }

    /**
     * choose_arena_hard: with several arenas, take the one at next_arena,
     * creating it when the slot is empty, and advance next_arena round
     * robin; with one arena, take arenas[0]. The result becomes this
     * thread's arenas_map. `created` is what arena creation yields: Some
     * new arena, or None when it runs out of memory and arenas_extend
     * falls back to arenas[0].
     */
    method ChooseArenaHard(created: Option<Arena>) returns (ret: Arena)
      requires Valid()
      modifies this
      ensures Valid() && narenas == old(narenas) && lshift == old(lshift)
      ensures arenasMap == Some(ret)
      ensures old(narenas) > 1 ==> nextArena == (old(nextArena) + 1) % narenas
      ensures old(narenas) == 1 ==> nextArena == old(nextArena) && ret == old(arenas[0]).value
                                     && arenas == old(arenas)
      ensures old(narenas) > 1 && old(arenas[nextArena]).Some? ==>
                ret == old(arenas[nextArena]).value && arenas == old(arenas)
      ensures old(narenas) > 1 && old(arenas[nextArena]).None? && created.Some? ==>
                ret == created.value && arenas == old(arenas)[old(nextArena) := created]
      ensures old(narenas) > 1 && old(arenas[nextArena]).None? && created.None? ==>
                ret == old(arenas[0]).value && arenas == old(arenas)
    {
      if narenas > 1 {
        match arenas[nextArena] {
          case Some(a) =>
            ret := a;
          case None =>
            match created {
              case Some(a) =>
                arenas := arenas[nextArena := created];
                ret := a;
              case None =>
                ret := arenas[0].value;
            }
        }
        nextArena := (nextArena + 1) % narenas;
      } else {
        ret := arenas[0].value;
      }
      arenasMap := Some(ret);
    }
  }

  /** The loop that scans the prime table for the first entry past n. */
  method HashArenaCount(n: nat) returns (parenas: nat)
    ensures parenas == PrimeAbove(n)
  {
    parenas := PRIMES[|PRIMES| - 1];
    var i := 1;
    while i < |PRIMES|
      invariant 1 <= i <= |PRIMES|
      invariant PrimeFrom(n, i) == PrimeAbove(n)
    {
      if PRIMES[i] > n {
        parenas := PRIMES[i];
        return;
      }
      i := i + 1;
    }
  }

  /** next_arena after k further round-robin steps from `start`. */
  function NextAfter(start: nat, n: nat, k: nat): nat
    requires n >= 1
  {
    if k == 0 then start % n else (NextAfter(start, n, k - 1) + 1) % n
  }

  /** After k steps next_arena is start + k modulo narenas. */
  lemma {:induction false} NextAfterIsSum(start: nat, n: nat, k: nat)
    requires n >= 1
    ensures NextAfter(start, n, k) == (start + k) % n
  {
    if k > 0 {
      NextAfterIsSum(start, n, k - 1);
      ModSuccessor(start + k - 1, n);
    }
  }

  lemma ModSuccessor(x: nat, n: nat)
    requires n >= 1
    ensures (x % n + 1) % n == (x + 1) % n
  {
    var q, r := x / n, x % n;
    DivMod(x, n);
    if r + 1 < n {
      DivModUnique(x + 1, n, q, r + 1);
      DivModUnique(r + 1, n, 0, r + 1);
    } else {
      DivModUnique(x + 1, n, q + 1, 0);
      DivModUnique(r + 1, n, 1, 0);
    }
  }

  /** Round robin is fair: within any narenas consecutive steps every arena index comes up. */
  lemma RoundRobinVisitsAll(start: nat, n: nat, i: nat)
    requires n >= 1 && start < n && i < n
    ensures exists k :: 0 <= k < n && NextAfter(start, n, k) == i
  {
    var k := if i >= start then i - start else i + n - start;
    NextAfterIsSum(start, n, k);
    if i >= start {
      DivModUnique(start + k, n, 0, i);
    } else {
      DivModUnique(start + k, n, 1, i);
    }
  }
}
