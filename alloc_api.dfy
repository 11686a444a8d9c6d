/**
 * The request-size logic of the malloc(3)-compatible entry points in
 * jemalloc/src/jemalloc.c: the size-0 rule of malloc, the alignment checks
 * of posix_memalign, the dispatch and overflow checks of ipalloc, and the
 * multiplication-overflow check of calloc.
 *
 * The allocators these functions hand a request to (arena_malloc,
 * arena_palloc, huge_malloc, huge_palloc, icalloc) are not modelled: the
 * functions return which one is called with which arguments, and whether
 * that allocator runs out of memory is a parameter.
 */
module MallocApi {
  import opened Arith
  import opened ChunkH
  import opened MallocOptions

  /** 4 KiB pages: PAGE_SIZE == 1 << PAGE_SHIFT. */
  const PAGE_SIZE: nat := 0x1000
  /** sizeof(void *) on a 64-bit target. */
  const SIZEOF_PTR: nat := 8
  /** The Linux errno values posix_memalign returns. */
  const EINVAL: int := 22
  const ENOMEM: int := 12
  /** `SIZE_T_MAX << (sizeof(size_t) << 2)`: the upper 32 bits of a size_t. */
  const HIGH_HALF_MASK: nat := SIZE_T_LIMIT - UINT_LIMIT

  lemma PageSize()
    ensures PAGE_SIZE == Pow2(PAGE_SHIFT) && IsPow2(PAGE_SIZE)
  {
    assert Pow2(12) == 0x1000;
    Pow2IsPow2(PAGE_SHIFT);
  }

  lemma HighHalfMaskIsShift()
    ensures Wrap(SIZE_T_MAX * UINT_LIMIT) == HIGH_HALF_MASK
  {
    DivModUnique(SIZE_T_MAX * UINT_LIMIT, SIZE_T_LIMIT, UINT_LIMIT - 1, HIGH_HALF_MASK);
  }

  function Max(a: nat, b: nat): nat
  {
    if a >= b then a else b
  }

  /** PAGE_CEILING(s) = (s + PAGE_MASK) & ~PAGE_MASK, in size_t. */
  function PageCeiling(s: nat): (r: nat)
    requires IsSizeT(s)
    ensures r % PAGE_SIZE == 0 && IsSizeT(r)
  {
    PageSize();
    AlignUp(s, PAGE_SIZE)
  }

  /** PAGE_CEILING of a power of two raises it to at least a page and leaves it a power of two. */
  lemma PageCeilingOfPow2(a: nat)
    requires IsPow2(a) && a < SIZE_T_LIMIT
    ensures PageCeiling(a) == Max(a, PAGE_SIZE)
    ensures IsPow2(PageCeiling(a)) && PageCeiling(a) % a == 0
  {
    PageCeilingIsMax(a);
    MaxPageDivisible(a);
  }

  lemma PageCeilingIsMax(a: nat)
    requires IsPow2(a) && a < SIZE_T_LIMIT
    ensures PageCeiling(a) == Max(a, PAGE_SIZE)
  {
    if a >= PAGE_SIZE {
      PageCeilingOfLarge(a);
    } else {
      PageCeilingOfSmall(a);
    }
  }

  /** A power of two of at least a page is a whole number of pages already. */
  lemma PageCeilingOfLarge(a: nat)
    requires IsPow2(a) && PAGE_SIZE <= a < SIZE_T_LIMIT
    ensures PageCeiling(a) == a
  {
    PageSize();
    Pow2Divides(PAGE_SIZE, a);
    AlignUpOfMultiple(a, PAGE_SIZE);
  }

  /** A nonzero size below a page rounds up to one page. */
  lemma PageCeilingOfSmall(a: nat)
    requires 0 < a < PAGE_SIZE
    ensures PageCeiling(a) == PAGE_SIZE
  {
    PageSize();
    AlignUpNoWrap(a, PAGE_SIZE);
    AlignUpLeast(a, PAGE_SIZE, PAGE_SIZE);
    MultiplesSpaced(0, PageCeiling(a), PAGE_SIZE);
  }

  /** The larger of a power of two and the page size is a power of two that the smaller divides. */
  lemma MaxPageDivisible(a: nat)
    requires IsPow2(a)
    ensures IsPow2(Max(a, PAGE_SIZE)) && Max(a, PAGE_SIZE) % a == 0
  {
    PageSize();
    if a >= PAGE_SIZE {
      MulMod(1, a);
    } else {
      Pow2Divides(a, PAGE_SIZE);
    }
  }

  // ---------------------------------------------------------------------
  // malloc: the size-0 rule
  // ---------------------------------------------------------------------

  /** What malloc does with a requested size before looking for memory. */
  datatype SizeRule = Allocate(size: nat) | ReturnNull | AbortProcess

  /**
   * A zero size becomes one byte, except in a SYSV build with opt_sysv set,
   * where it yields NULL, or an abort when opt_xmalloc is set too.
   */
  function MallocSizeRule(build: Features, sw: Switches, size: nat): SizeRule
  {
    if size == 0 && build.sysv && sw.sysv then
      if build.xmalloc && sw.xmalloc then AbortProcess else ReturnNull
    else
      Allocate(if size == 0 then 1 else size)
  }

  /** Every nonzero size is passed on unchanged; 0 is refused exactly under SYSV semantics. */
  lemma MallocSizeRuleMeaning(build: Features, sw: Switches, size: nat)
    ensures size > 0 ==> MallocSizeRule(build, sw, size) == Allocate(size)
    ensures MallocSizeRule(build, sw, size).Allocate? <==> size > 0 || !(build.sysv && sw.sysv)
    ensures MallocSizeRule(build, sw, size).Allocate? ==> MallocSizeRule(build, sw, size).size >= 1
    ensures MallocSizeRule(build, sw, size) == AbortProcess <==>
              size == 0 && build.sysv && sw.sysv && build.xmalloc && sw.xmalloc
  {
  }

  // ---------------------------------------------------------------------
  // ipalloc
  // ---------------------------------------------------------------------

  /** Where ipalloc sends an aligned request, with the arguments it passes. */
  datatype Placement =
    | ArenaMalloc(size: nat)
    | ArenaPalloc(alignment: nat, size: nat, runSize: nat)
    | HugeMalloc(size: nat)
    | HugePalloc(alignment: nat, size: nat)
    | Overflow

  /**
   * ipalloc(alignment, size) for a power-of-two alignment. arena_maxclass
   * and chunksize are the values malloc_init_hard computed.
   */
  function Ipalloc(alignment: nat, size: nat, arenaMaxclass: nat, chunksize: nat): Placement
    requires IsPow2(alignment) && alignment < SIZE_T_LIMIT && IsSizeT(size)
  {
    var ceil := AlignUp(size, alignment);
    if ceil < size then Overflow
    else if ceil <= PAGE_SIZE || (alignment <= PAGE_SIZE && ceil <= arenaMaxclass) then ArenaMalloc(ceil)
    else PageAligned(size, PageCeiling(size), PageCeiling(alignment), arenaMaxclass, chunksize)
  }

  /**
   * The branch of ipalloc that works in pages: `ceil` and `align` are
   * PAGE_CEILING(size) and PAGE_CEILING(alignment).
   */
  function PageAligned(size: nat, ceil: nat, align: nat, arenaMaxclass: nat, chunksize: nat): Placement
  {
    if ceil < size || Wrap(ceil + align) < ceil then Overflow
    else
      var runSize := PallocRunSize(ceil, align);
      if runSize <= arenaMaxclass then ArenaPalloc(align, ceil, runSize)
      else if align <= chunksize then HugeMalloc(ceil)
      else HugePalloc(align, ceil)
  }

  /**
   * The run size ipalloc asks arena_palloc for: enough pages that an
   * alignment boundary falls within reach of any page-aligned start, in size_t.
   */
  function PallocRunSize(ceil: nat, align: nat): nat
  {
    if ceil >= align then Wrap(ceil + align - PAGE_SIZE)
    else Wrap(Wrap(align * 2) - PAGE_SIZE)
  }

  /** The decision between arena_malloc and the page-aligned paths, on the true rounded size. */
  predicate SmallPath(alignment: nat, size: nat, arenaMaxclass: nat)
    requires alignment > 0
  {
    RoundUp(size, alignment) <= PAGE_SIZE || (alignment <= PAGE_SIZE && RoundUp(size, alignment) <= arenaMaxclass)
  }

  /** The first overflow test fires exactly when the true rounded size does not fit; otherwise it is that size. */
  lemma FirstRounding(alignment: nat, size: nat)
    requires IsPow2(alignment) && alignment < SIZE_T_LIMIT && IsSizeT(size)
    ensures (AlignUp(size, alignment) < size) == (RoundUp(size, alignment) >= SIZE_T_LIMIT)
    ensures RoundUp(size, alignment) < SIZE_T_LIMIT ==> AlignUp(size, alignment) == RoundUp(size, alignment)
  {
    AlignUpIsRoundUp(size, alignment);
  }

  /**
   * Which branch ipalloc takes: Overflow when the rounded size does not
   * fit, arena_malloc of the rounded size on the small path, and the
   * page-aligned branch otherwise.
   */
  lemma IpallocBranches(alignment: nat, size: nat, arenaMaxclass: nat, chunksize: nat, p: Placement)
    requires IsPow2(alignment) && alignment < SIZE_T_LIMIT && IsSizeT(size)
    requires p == Ipalloc(alignment, size, arenaMaxclass, chunksize)
    ensures RoundUp(size, alignment) >= SIZE_T_LIMIT ==> p == Overflow
    ensures RoundUp(size, alignment) < SIZE_T_LIMIT && SmallPath(alignment, size, arenaMaxclass) ==>
              p == ArenaMalloc(RoundUp(size, alignment))
    ensures RoundUp(size, alignment) < SIZE_T_LIMIT && !SmallPath(alignment, size, arenaMaxclass) ==>
              p == PageAligned(size, PageCeiling(size), PageCeiling(alignment), arenaMaxclass, chunksize)
  {
    FirstRounding(alignment, size);
  }

  /**
   * The page-aligned branch overflows exactly when the page-rounded size
   * plus the page-rounded alignment does not fit; `ceil` and `align` are
   * PAGE_CEILING(size) and PAGE_CEILING(alignment).
   */
  lemma SecondRounding(alignment: nat, size: nat, ceil: nat, align: nat, arenaMaxclass: nat, chunksize: nat)
    requires IsPow2(alignment) && alignment < SIZE_T_LIMIT && IsSizeT(size)
    requires ceil == PageCeiling(size) && align == PageCeiling(alignment)
    ensures (PageAligned(size, ceil, align, arenaMaxclass, chunksize) == Overflow)
         == (RoundUp(size, PAGE_SIZE) + align >= SIZE_T_LIMIT)
    ensures (ceil < size || Wrap(ceil + align) < ceil) == (RoundUp(size, PAGE_SIZE) + align >= SIZE_T_LIMIT)
    ensures RoundUp(size, PAGE_SIZE) < SIZE_T_LIMIT ==> ceil == RoundUp(size, PAGE_SIZE)
    ensures align == Max(alignment, PAGE_SIZE) && IsPow2(align) && align % alignment == 0
  {
    PageSize();
    AlignUpIsRoundUp(size, PAGE_SIZE);
    SumOverflowTest(size, ceil, align, RoundUp(size, PAGE_SIZE));
    PageCeilingOfPow2(alignment);
    PageAlignedShape(size, ceil, align, arenaMaxclass, chunksize);
  }

  /** The shape of the page-aligned branch: which test picks which placement, with which arguments. */
  lemma PageAlignedShape(size: nat, ceil: nat, align: nat, arenaMaxclass: nat, chunksize: nat)
    ensures var p := PageAligned(size, ceil, align, arenaMaxclass, chunksize);
      && (p == Overflow) == (ceil < size || Wrap(ceil + align) < ceil)
      && !p.ArenaMalloc?
      && (p.ArenaPalloc? ==> p == ArenaPalloc(align, ceil, PallocRunSize(ceil, align))
                               && PallocRunSize(ceil, align) <= arenaMaxclass)
      && (p.HugeMalloc? ==> p == HugeMalloc(ceil) && PallocRunSize(ceil, align) > arenaMaxclass
                              && align <= chunksize)
      && (p.HugePalloc? ==> p == HugePalloc(align, ceil) && PallocRunSize(ceil, align) > arenaMaxclass
                               && align > chunksize)
  {
  }

  /** The two size_t tests of the page-aligned path, on plain numbers. */
  lemma SumOverflowTest(size: nat, c: nat, a: nat, r: nat)
    requires IsSizeT(size) && IsSizeT(c) && IsSizeT(a)
    requires size <= r < size + PAGE_SIZE
    requires c == if r < SIZE_T_LIMIT then r else 0
    ensures (c < size || Wrap(c + a) < c) == (r + a >= SIZE_T_LIMIT)
  {
    WrapAdd(c, a);
  }

  /**
   * What the page-aligned paths are given, on the page-rounded inputs: the
   * page-rounded size, the page-rounded alignment for the palloc paths, and
   * for arena_palloc a run within arena_maxclass that spans the size plus
   * the alignment less a page, or two alignments less a page when the size
   * is below the alignment; huge_malloc only when chunk alignment suffices.
   */
  lemma PageAlignedRun(size: nat, ceil: nat, align: nat, arenaMaxclass: nat, chunksize: nat)
    requires IsSizeT(ceil) && IsPow2(align) && PAGE_SIZE <= align < SIZE_T_LIMIT
    requires arenaMaxclass < SIZE_T_LIMIT - PAGE_SIZE
    ensures var p := PageAligned(size, ceil, align, arenaMaxclass, chunksize);
      && !p.ArenaMalloc?
      && (p.ArenaPalloc? || p.HugePalloc? ==> p.alignment == align)
      && (p.ArenaPalloc? || p.HugeMalloc? || p.HugePalloc? ==> p.size == ceil && ceil + align < SIZE_T_LIMIT)
      && (p.ArenaPalloc? ==>
            p.runSize <= arenaMaxclass
            && p.runSize == if ceil >= align then ceil + align - PAGE_SIZE else 2 * align - PAGE_SIZE)
      && (p.HugeMalloc? ==> align <= chunksize)
      && (p.HugePalloc? ==> align > chunksize)
  {
    PageAlignedShape(size, ceil, align, arenaMaxclass, chunksize);
    var p := PageAligned(size, ceil, align, arenaMaxclass, chunksize);
    if p != Overflow {
      WrapAdd(ceil, align);
    }
    if p.ArenaPalloc? {
      PallocRunSizeExact(ceil, align);
      PallocRunSizeBelow(ceil, align, p.runSize);
    }
  }

  /** A run size below SIZE_T_MAX - PAGE_SIZE + 1 is the true one. */
  lemma PallocRunSizeBelow(ceil: nat, align: nat, runSize: nat)
    requires runSize == PallocRunSize(ceil, align) && runSize < SIZE_T_LIMIT - PAGE_SIZE
    requires runSize == if ceil >= align then ceil + align - PAGE_SIZE
      else if 2 * align < SIZE_T_LIMIT then 2 * align - PAGE_SIZE
      else SIZE_T_LIMIT - PAGE_SIZE
    ensures runSize == if ceil >= align then ceil + align - PAGE_SIZE else 2 * align - PAGE_SIZE
  {
  }

  /** PallocRunSize is the true page count unless `align << 1` overflows, and then it exceeds any arena_maxclass. */
  lemma PallocRunSizeExact(ceil: nat, align: nat)
    requires IsPow2(align) && PAGE_SIZE <= align && ceil + align < SIZE_T_LIMIT
    ensures PallocRunSize(ceil, align) ==
      if ceil >= align then ceil + align - PAGE_SIZE
      else if 2 * align < SIZE_T_LIMIT then 2 * align - PAGE_SIZE
      else SIZE_T_LIMIT - PAGE_SIZE
  {
    if ceil >= align {
      WrapSub(ceil + align, PAGE_SIZE);
    } else {
      RunSizeOfLargeAlignment(align);
    }
  }

  /**
   * `(alignment << 1) - PAGE_SIZE` is the true value unless the shift
   * overflows, and then it is SIZE_T_MAX - PAGE_SIZE + 1, beyond any
   * arena_maxclass: the bogus value is never used.
   */
  lemma RunSizeOfLargeAlignment(align: nat)
    requires IsPow2(align) && PAGE_SIZE <= align < SIZE_T_LIMIT
    ensures 2 * align < SIZE_T_LIMIT ==> Wrap(Wrap(align * 2) - PAGE_SIZE) == 2 * align - PAGE_SIZE
    ensures 2 * align >= SIZE_T_LIMIT ==> Wrap(Wrap(align * 2) - PAGE_SIZE) == SIZE_T_LIMIT - PAGE_SIZE
  {
    if 2 * align >= SIZE_T_LIMIT {
      DoubledTopPow2(align);
      assert Wrap(align * 2) == 0;
      WrapSub(0, PAGE_SIZE);
    } else {
      WrapSub(align * 2, PAGE_SIZE);
    }
  }

  /** The only power of two below 2^64 whose double is not is 2^63, whose double is 2^64. */
  lemma DoubledTopPow2(align: nat)
    requires IsPow2(align) && align < SIZE_T_LIMIT <= 2 * align
    ensures 2 * align == SIZE_T_LIMIT
  {
    Pow2SixtyFour();
    Pow2Between(align, 63);
  }

  /** The padding arena_palloc skips at the front of a run starting at `base` to reach alignment `a`. */
  function LeadPad(base: nat, a: nat): nat
    requires a > 0
  {
    if base % a == 0 then 0 else a - base % a
  }

  /**
   * The run size ipalloc computes for arena_palloc is enough: whatever
   * page-aligned address the run starts at, an object of the page-rounded
   * size at the requested alignment fits inside it after the padding.
   */
  lemma RunHoldsAlignedObject(alignment: nat, a: nat, size: nat, runSize: nat, base: nat)
    requires IsPow2(alignment) && a == Max(alignment, PAGE_SIZE)
    requires runSize == if size >= a then size + a - PAGE_SIZE else 2 * a - PAGE_SIZE
    requires base % PAGE_SIZE == 0
    ensures (base + LeadPad(base, a)) % a == 0 && (base + LeadPad(base, a)) % alignment == 0
    ensures LeadPad(base, a) + size <= runSize
  {
    PageSize();
    if alignment >= PAGE_SIZE {
      Pow2Divides(PAGE_SIZE, alignment);
    } else {
      Pow2Divides(alignment, PAGE_SIZE);
    }
    PadBounds(base, a);
    ModTransitive(base + LeadPad(base, a), a, alignment);
  }

  /** The padding reaches the alignment and, between page-aligned values, is at most a - PAGE_SIZE. */
  lemma PadBounds(base: nat, a: nat)
    requires a >= PAGE_SIZE && a % PAGE_SIZE == 0 && base % PAGE_SIZE == 0
    ensures (base + LeadPad(base, a)) % a == 0
    ensures LeadPad(base, a) <= a - PAGE_SIZE
  {
    var q, r := base / a, base % a;
    assert base == q * a + r;
    if r != 0 {
      var t, u := a / PAGE_SIZE, base / PAGE_SIZE;
      assert a == t * PAGE_SIZE && base == u * PAGE_SIZE;
      assert r == (u - q * t) * PAGE_SIZE;
      MulMod(u - q * t, PAGE_SIZE);
      MultiplesSpaced(0, r, PAGE_SIZE);
      assert base + LeadPad(base, a) == (q + 1) * a;
      MulMod(q + 1, a);
    }
  }

  /** The alignment each placement guarantees for the object it returns. */
  predicate MeetsAlignment(p: Placement, alignment: nat, chunksize: nat)
    requires alignment > 0
  {
    match p
    case ArenaMalloc(size) => size % alignment == 0
    case ArenaPalloc(a, _, _) => a % alignment == 0
    case HugeMalloc(_) => chunksize % alignment == 0
    case HugePalloc(a, _) => a % alignment == 0
    case Overflow => false
  }

  /**
   * Every placement is at least as aligned as requested: the size handed to
   * arena_malloc is a multiple of the alignment (each small size class is
   * aligned to the lowest set bit of its size), huge_malloc returns chunks,
   * and the palloc paths get an alignment that the requested one divides.
   */
  lemma IpallocMeetsAlignment(alignment: nat, size: nat, arenaMaxclass: nat, chunksize: nat, p: Placement)
    requires IsPow2(alignment) && alignment < SIZE_T_LIMIT && IsSizeT(size)
    requires ValidChunksize(chunksize) && arenaMaxclass < SIZE_T_LIMIT - PAGE_SIZE
    requires p == Ipalloc(alignment, size, arenaMaxclass, chunksize)
    ensures p != Overflow ==> MeetsAlignment(p, alignment, chunksize)
  {
    IpallocBranches(alignment, size, arenaMaxclass, chunksize, p);
    if RoundUp(size, alignment) < SIZE_T_LIMIT && !SmallPath(alignment, size, arenaMaxclass) {
      PageBranch(alignment, size, arenaMaxclass, chunksize, p);
      PageAlignedMeetsAlignment(alignment, size, PageCeiling(size), Max(alignment, PAGE_SIZE), arenaMaxclass, chunksize, p);
    }
  }

  /** The page-aligned branch of ipalloc, with PAGE_CEILING(alignment) written as max(alignment, page). */
  lemma PageBranch(alignment: nat, size: nat, arenaMaxclass: nat, chunksize: nat, p: Placement)
    requires IsPow2(alignment) && alignment < SIZE_T_LIMIT && IsSizeT(size)
    requires p == Ipalloc(alignment, size, arenaMaxclass, chunksize)
    requires RoundUp(size, alignment) < SIZE_T_LIMIT && !SmallPath(alignment, size, arenaMaxclass)
    ensures p == PageAligned(size, PageCeiling(size), Max(alignment, PAGE_SIZE), arenaMaxclass, chunksize)
  {
    IpallocBranches(alignment, size, arenaMaxclass, chunksize, p);
    PageCeilingIsMax(alignment);
  }

  /** The page-aligned paths meet the requested alignment once it is raised to at least a page. */
  lemma PageAlignedMeetsAlignment(alignment: nat, size: nat, ceil: nat, align: nat, arenaMaxclass: nat, chunksize: nat,
                                  p: Placement)
    requires IsPow2(alignment) && alignment < SIZE_T_LIMIT && IsSizeT(ceil) && align == Max(alignment, PAGE_SIZE)
    requires ValidChunksize(chunksize) && arenaMaxclass < SIZE_T_LIMIT - PAGE_SIZE
    requires p == PageAligned(size, ceil, align, arenaMaxclass, chunksize)
    ensures p != Overflow ==> MeetsAlignment(p, alignment, chunksize)
  {
    MaxPageDivisible(alignment);
    PageSize();
    PageAlignedRun(size, ceil, align, arenaMaxclass, chunksize);
    if p.HugeMalloc? {
      Pow2Divides(alignment, chunksize);
    }
  }

  // ---------------------------------------------------------------------
  // posix_memalign
  // ---------------------------------------------------------------------

  /** What posix_memalign leaves in *memptr. */
  datatype Memptr = Untouched | StoredNull | Stored(placement: Placement)

  /** Its return value and *memptr, or the abort of an xmalloc build. */
  datatype MemalignResult = Returned(ret: int, memptr: Memptr) | Aborted

  /**
   * posix_memalign(memptr, alignment, size). `allocatorFails` says whether
   * the allocator ipalloc picks returns NULL.
   */
  function PosixMemalign(build: Features, sw: Switches, alignment: nat, size: nat,
                         arenaMaxclass: nat, chunksize: nat, allocatorFails: bool): MemalignResult
    requires IsSizeT(alignment) && IsSizeT(size)
  {
    var xmalloc := build.xmalloc && sw.xmalloc;
    match MallocSizeRule(build, sw, size)
    case AbortProcess => Aborted
    case ReturnNull => Returned(0, StoredNull)
    case Allocate(size') =>
      if AlignmentRejected(alignment) then
        if xmalloc then Aborted else Returned(EINVAL, Untouched)
      else
        PredecessorAndIsPow2Test(alignment);
        var p := Ipalloc(alignment, size', arenaMaxclass, chunksize);
        if p == Overflow || allocatorFails then
          if xmalloc then Aborted else Returned(ENOMEM, Untouched)
        else Returned(0, Stored(p))
  }

  /** posix_memalign's test `((alignment - 1) & alignment) != 0 || alignment < sizeof(void *)`, in size_t. */
  predicate AlignmentRejected(alignment: nat)
    requires IsSizeT(alignment)
  {
    BitAnd(Wrap(alignment - 1), alignment) != 0 || alignment < SIZEOF_PTR
  }

  /** The alignments posix_memalign allows. */
  predicate AlignmentAccepted(alignment: nat)
  {
    IsPow2(alignment) && alignment >= SIZEOF_PTR
  }

  /** The alignment test accepts exactly the powers of two that are at least sizeof(void *), 0 included in the refusal. */
  lemma AlignmentTestExact(alignment: nat)
    requires IsSizeT(alignment)
    ensures AlignmentRejected(alignment) == !AlignmentAccepted(alignment)
  {
    if alignment >= 1 {
      PredecessorAndIsPow2Test(alignment);
    }
  }

  /**
   * posix_memalign's outcomes: EINVAL exactly for a bad alignment, ENOMEM
   * exactly when ipalloc overflows or the allocator fails, and 0 with the
   * ipalloc placement otherwise; *memptr is written only on success.
   */
  lemma PosixMemalignOutcomes(build: Features, sw: Switches, alignment: nat, size: nat,
                              arenaMaxclass: nat, chunksize: nat, allocatorFails: bool)
    requires IsSizeT(alignment) && IsSizeT(size)
    requires size > 0 || !(build.sysv && sw.sysv)
    requires !(build.xmalloc && sw.xmalloc)
    ensures var r := PosixMemalign(build, sw, alignment, size, arenaMaxclass, chunksize, allocatorFails);
      && r.Returned?
      && (r.ret == EINVAL <==> !AlignmentAccepted(alignment))
      && (r.ret != 0 <==> r.memptr == Untouched)
      && (r.ret == 0 ==>
            (AlignmentAccepted(alignment)
             && r.memptr == Stored(Ipalloc(alignment, if size == 0 then 1 else size, arenaMaxclass, chunksize))
             && r.memptr.placement != Overflow
             && !allocatorFails))
      && (r.ret == ENOMEM <==>
            (AlignmentAccepted(alignment)
             && (Ipalloc(alignment, if size == 0 then 1 else size, arenaMaxclass, chunksize) == Overflow
                 || allocatorFails)))
  {
    AlignmentTestExact(alignment);
    var r := PosixMemalign(build, sw, alignment, size, arenaMaxclass, chunksize, allocatorFails);
    var size' := if size == 0 then 1 else size;
    assert MallocSizeRule(build, sw, size) == Allocate(size');
    if !AlignmentAccepted(alignment) {
      assert r == Returned(EINVAL, Untouched);
    } else {
      var p := Ipalloc(alignment, size', arenaMaxclass, chunksize);
      if p == Overflow || allocatorFails {
        assert r == Returned(ENOMEM, Untouched);
      } else {
        assert r == Returned(0, Stored(p));
      }
    }
  }

  /**
   * With opt_xmalloc in an xmalloc build every error path aborts: a zero
   * size under SYSV semantics, a bad alignment, an ipalloc overflow or a
   * failed allocator. Whatever returns, returns 0 with the placement stored.
   */
  lemma PosixMemalignXmalloc(build: Features, sw: Switches, alignment: nat, size: nat,
                             arenaMaxclass: nat, chunksize: nat, allocatorFails: bool)
    requires IsSizeT(alignment) && IsSizeT(size)
    requires build.xmalloc && sw.xmalloc
    ensures var r := PosixMemalign(build, sw, alignment, size, arenaMaxclass, chunksize, allocatorFails);
      && (r == Aborted <==>
            ((size == 0 && build.sysv && sw.sysv) || !AlignmentAccepted(alignment) || allocatorFails
             || Ipalloc(alignment, if size == 0 then 1 else size, arenaMaxclass, chunksize) == Overflow))
      && (r != Aborted ==>
            AlignmentAccepted(alignment)
            && r == Returned(0, Stored(Ipalloc(alignment, if size == 0 then 1 else size, arenaMaxclass, chunksize))))
  {
    AlignmentTestExact(alignment);
  }

  /** Under SYSV semantics a zero size is answered with 0 and a NULL *memptr. */
  lemma PosixMemalignZeroSysv(build: Features, sw: Switches, alignment: nat,
                              arenaMaxclass: nat, chunksize: nat, allocatorFails: bool)
    requires IsSizeT(alignment) && build.sysv && sw.sysv && !(build.xmalloc && sw.xmalloc)
    ensures PosixMemalign(build, sw, alignment, 0, arenaMaxclass, chunksize, allocatorFails)
         == Returned(0, StoredNull)
  {
  }

  // ---------------------------------------------------------------------
  // calloc
  // ---------------------------------------------------------------------

  /** What calloc asks icalloc for, or NULL. */
  datatype CallocRequest = Zeroed(size: nat) | CallocNull

  /** The fast-path test `(num | size) & HIGH_HALF_MASK`: one of the operands uses the upper half. */
  lemma HighHalfTest(num: nat, size: nat)
    requires IsSizeT(num) && IsSizeT(size)
    ensures (BitAnd(BitOr(num, size), HIGH_HALF_MASK) != 0) == (num >= UINT_LIMIT || size >= UINT_LIMIT)
  {
    Pow2SixtyFour();
    var v := BitOr(num, size);
    BitOrBelow(num, size, 64);
    BitOrBelow(num, size, 32);
    HighMaskClearsLow(v, 64, 32);
    Pow2StrictMonotone(32, 64);
    if v >= UINT_LIMIT {
      assert v - v % UINT_LIMIT >= UINT_LIMIT - v % UINT_LIMIT by {
        DivMod(v, UINT_LIMIT);
        if v / UINT_LIMIT == 0 {
          assert false;
        }
        MulMonotone(1, v / UINT_LIMIT, UINT_LIMIT);
      }
    } else {
      DivModUnique(v, UINT_LIMIT, 0, v);
    }
  }

  /** Operands below 2^32 cannot overflow a 64-bit product. */
  lemma HalfWidthProductFits(num: nat, size: nat)
    requires num < UINT_LIMIT && size < UINT_LIMIT
    ensures num * size < SIZE_T_LIMIT
  {
    MulMonotone(num, UINT_LIMIT - 1, size);
    MulMonotone(size, UINT_LIMIT - 1, UINT_LIMIT - 1);
  }

  /** The division check detects overflow exactly, whenever the wrapped product is nonzero. */
  lemma DivisionDetectsOverflow(num: nat, size: nat)
    requires IsSizeT(num) && IsSizeT(size) && Wrap(num * size) != 0
    ensures size > 0
    ensures (Wrap(num * size) / size != num) == (num * size >= SIZE_T_LIMIT)
  {
    var w := Wrap(num * size);
    if num * size >= SIZE_T_LIMIT {
      DivMod(num * size, SIZE_T_LIMIT);
      var q := (num * size) / SIZE_T_LIMIT;
      assert q >= 1 by {
        if q == 0 {
          assert false;
        }
      }
      assert w < num * size;
      DivMod(w, size);
      if w / size >= num {
        MulMonotone(num, w / size, size);
        assert false;
      }
    } else {
      MulMod(num, size);
    }
  }

  /** calloc(num, size) as written: in a build without SYSV support a product that wraps to 0 becomes 1 byte. */
  function CallocAsWritten(build: Features, sw: Switches, num: nat, size: nat): CallocRequest
    requires IsSizeT(num) && IsSizeT(size)
  {
    var numSize := Wrap(num * size);
    if numSize == 0 then
      if build.sysv && !(!sw.sysv && (num == 0 || size == 0)) then CallocNull else Zeroed(1)
    else if BitAnd(BitOr(num, size), HIGH_HALF_MASK) != 0 && numSize / size != num then CallocNull
    else Zeroed(numSize)
  }

  /** calloc with the wrapped-to-zero product refused in every build, as the SYSV build already does. */
  function Calloc(build: Features, sw: Switches, num: nat, size: nat): CallocRequest
    requires IsSizeT(num) && IsSizeT(size)
  {
    var numSize := Wrap(num * size);
    if numSize == 0 then
      if num == 0 || size == 0 then
        if build.sysv && sw.sysv then CallocNull else Zeroed(1)
      else CallocNull
    else if BitAnd(BitOr(num, size), HIGH_HALF_MASK) != 0 && numSize / size != num then CallocNull
    else Zeroed(numSize)
  }

  /**
   * calloc asks for exactly num * size bytes when that fits in a size_t,
   * for one byte when it is 0 (NULL under SYSV semantics), and returns NULL
   * on overflow.
   */
  lemma CallocMeetsRequest(build: Features, sw: Switches, num: nat, size: nat)
    requires IsSizeT(num) && IsSizeT(size)
    ensures Calloc(build, sw, num, size) ==
      if num * size >= SIZE_T_LIMIT then CallocNull
      else if num * size == 0 then (if build.sysv && sw.sysv then CallocNull else Zeroed(1))
      else Zeroed(num * size)
  {
    var numSize := Wrap(num * size);
    if numSize != 0 {
      HighHalfTest(num, size);
      DivisionDetectsOverflow(num, size);
      if num < UINT_LIMIT && size < UINT_LIMIT {
        HalfWidthProductFits(num, size);
      }
    } else if num != 0 && size != 0 {
      assert num * size != 0;
    }
  }

  /** The code as written and the corrected calloc differ only on a nonzero overflow that wraps to 0, in a non-SYSV build. */
  lemma CallocAsWrittenDiffers(build: Features, sw: Switches, num: nat, size: nat)
    requires IsSizeT(num) && IsSizeT(size)
    ensures CallocAsWritten(build, sw, num, size) != Calloc(build, sw, num, size) <==>
      !build.sysv && num != 0 && size != 0 && Wrap(num * size) == 0
    ensures CallocAsWritten(build, sw, num, size) != Calloc(build, sw, num, size) ==>
      CallocAsWritten(build, sw, num, size) == Zeroed(1) && num * size >= SIZE_T_LIMIT
  {
    if num != 0 && size != 0 {
      assert num * size != 0;
    }
  }

  /** calloc(2^32, 2^32) asks for 2^64 bytes; as written, a non-SYSV build allocates one byte. */
  lemma CallocWrapToOneByte(build: Features, sw: Switches)
    requires !build.sysv
    ensures UINT_LIMIT * UINT_LIMIT == SIZE_T_LIMIT
    ensures CallocAsWritten(build, sw, UINT_LIMIT, UINT_LIMIT) == Zeroed(1)
    ensures Calloc(build, sw, UINT_LIMIT, UINT_LIMIT) == CallocNull
  {
    DivModUnique(UINT_LIMIT * UINT_LIMIT, SIZE_T_LIMIT, 1, 0);
  }
}
