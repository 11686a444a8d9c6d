# jemalloc core, modelled in Dafny

This project models several sequential cores of the jemalloc allocator and of its
test-matrix generator, and proves properties of them. Each part is its own module:

- `RunTests` (gen_run_tests.dfy) models `scripts/gen_run_tests.py`. It covers `powerset`
  and the four nested loops that print the test script. The loops are written as
  methods that append lines to an output sequence, and each method is proved equal to a
  specification function `Script`. The counts, the iteration order, the clang/prof skip
  rule and the Darwin guard are then proved about `Script`.
- `MallocOptions` (options.dfy) models the legacy `JEMALLOC_OPTIONS` parser of
  `malloc_init_hard`: the repeat count, the flag switch with its clamped adjusters, and
  the "Unsupported character" report. The parser is a class over the `opt_*` globals, and
  its loops are proved equal to a functional `Parse`.
- `MallocApi` (alloc_api.dfy) models the size arithmetic behind `malloc`,
  `posix_memalign`, `calloc` and `ipalloc`, all in 64-bit `size_t` with explicit
  wrap-around.
- `Arenas` (arenas.dfy) models `malloc_ncpus`, the `narenas` derivation, the prime table
  used without TLS, and the `choose_arena_hard` round robin over the `arenas` array.
- `ChunkH` (chunk_ceiling.dfy) models `CHUNK_CEILING` and `LG_CHUNK_DEFAULT`.
- `Extents` (extents.dfy) models a pair of extent trees. The two trees are kept as one
  address-ordered sequence of free ranges, and the module holds their searches and
  editing lemmas.
- `Chunk` (chunk.dfy) models `chunk_record` (coalescing), `chunk_recycle` (first best fit
  and the lead/trail split), the cache and retained wrappers with `stats.retained`,
  `chunk_alloc_core` and `chunk_boot`. The results of the split, merge, commit, decommit,
  purge and dalloc hooks are parameters.
- `RadixTree` (rtree.dfy) models the start level and the subkey bit arithmetic, the
  node-validity test, and the lock-bit encoding of an element. The tree itself is the set
  of leaf nodes that exist and a map from leaf key to the word written in that element.
- `ThreadCache` (tcache.dfy) models a thread-cache bin as a class over its slot array,
  with the allocation and deallocation fast paths, `tcache_enabled_set` and
  `tcaches_get`.
- `Large` (large.dfy) models the `large_ralloc_no_move` decision, `large_ralloc` and its
  move helper, and the per-arena `large` list.
- `Arith` (arith.dfy) holds the shared `size_t` arithmetic: wrap-around, powers of two,
  masks and `ALIGNMENT_CEILING`.

Calls into the operating system and into arena code the model does not contain are
parameters: the outcome of a hook, the pointer an allocator returns, the value of
`s2u` or `sa2u`.

## Model

| member | source | states |
|---|---|---|
| ChunkH.ChunkCeiling | include/jemalloc/internal/chunk.h:10-12 | CHUNK_CEILING with a power-of-two chunk size gives a chunk multiple that fits a size_t |
| ChunkH.CeilingIsLeastMultiple | include/jemalloc/internal/chunk.h:10-12 | within a chunk of SIZE_T_MAX the result is the smallest chunk multiple at or above s, and less than a chunk above it; beyond that the sum wraps to 0 |
| ChunkH.CeilingIdempotent | include/jemalloc/internal/chunk.h:10-12 | identity on chunk multiples, so applying it twice is applying it once |
| ChunkH.DefaultChunksize | include/jemalloc/internal/chunk.h:8 | LG_CHUNK_DEFAULT = 21 gives a 2 MiB chunk, and that is a valid chunk size |
| Arith.AlignUpIsRoundUp | jemalloc/src/jemalloc.c:268 | `(x + a - 1) & -a` equals the true least multiple of a at or above x while that fits a size_t, and is 0 otherwise |
| Arith.AlignUp | jemalloc/src/jemalloc.c:268 | `(x + (a - 1)) & -a` in size_t is a multiple of a that fits a size_t; AlignUpIsRoundUp gives its value |
| Arith.PredecessorAndIsPow2Test | jemalloc/src/jemalloc.c:991 | `((a - 1) & a) == 0` holds for a nonzero a exactly when a is a power of two |
| MallocApi.MallocSizeRule | jemalloc/src/jemalloc.c:910-929 | defines malloc's size-0 rule as a value: allocate the size (0 becoming 1), NULL, or an abort; MallocSizeRuleMeaning states its cases |
| MallocApi.MallocSizeRuleMeaning | jemalloc/src/jemalloc.c:910-929 | a nonzero size goes on unchanged; a zero size becomes 1 byte unless SYSV semantics are on, in which case it gives NULL, or an abort with opt_xmalloc |
| MallocApi.FirstRounding | jemalloc/src/jemalloc.c:268-276 | the `ceil_size < size` test fires exactly when the true rounded size overflows a size_t; otherwise ceil_size is that size |
| MallocApi.Ipalloc | jemalloc/src/jemalloc.c:250-335 | defines where ipalloc sends an aligned request and with which arguments, or Overflow; IpallocBranches, SecondRounding and IpallocMeetsAlignment state its meaning |
| MallocApi.PageCeiling | jemalloc/src/jemalloc.c:288-289 | PAGE_CEILING in size_t yields a multiple of the page size that fits a size_t |
| MallocApi.SmallPath | jemalloc/src/jemalloc.c:278-279 | defines the test that sends a rounded request to arena_malloc: at most a page, or a sub-page alignment and at most arena_maxclass; IpallocBranches uses it |
| MallocApi.PageAligned | jemalloc/src/jemalloc.c:288-332 | defines the page-aligned branch with its overflow test and the choice of arena_palloc, huge_malloc or huge_palloc; PageAlignedShape and PageAlignedMeetsAlignment state its meaning |
| MallocApi.PallocRunSize | jemalloc/src/jemalloc.c:311-324 | defines the over-size run, ceil + align - page or (align << 1) - page in size_t; PageAlignedRun and PallocRunSizeExact state its value |
| MallocApi.IpallocBranches | jemalloc/src/jemalloc.c:268-289 | ipalloc returns NULL on overflow, uses arena_malloc of the rounded size on the small path, and takes the page-aligned branch otherwise |
| MallocApi.SecondRounding | jemalloc/src/jemalloc.c:288-305 | the second overflow test fires exactly when the page-rounded size plus the page-rounded alignment overflows; the page-rounded alignment is max(alignment, page) |
| MallocApi.PageAlignedShape | jemalloc/src/jemalloc.c:302-332 | which test of the page-aligned branch picks arena_palloc, huge_malloc or huge_palloc, and with which arguments |
| MallocApi.PageAlignedRun | jemalloc/src/jemalloc.c:311-332 | the run size given to arena_palloc is ceil + align - page or 2 * align - page, and it stays within arena_maxclass |
| MallocApi.RunSizeOfLargeAlignment | jemalloc/src/jemalloc.c:314-324 | `(alignment << 1) - PAGE_SIZE` is exact unless the shift overflows; then it is SIZE_T_MAX - PAGE_SIZE + 1, which is never used |
| MallocApi.PallocRunSizeExact | jemalloc/src/jemalloc.c:311-324 | the computed run size is the true page count, unless the doubling overflows, and then it exceeds any arena_maxclass |
| MallocApi.RunHoldsAlignedObject | jemalloc/src/jemalloc.c:307-312 | whatever page-aligned address the run starts at, an aligned object of the page-rounded size fits inside it after the padding |
| MallocApi.IpallocMeetsAlignment | jemalloc/src/jemalloc.c:250-335 | every placement that does not overflow is at least as aligned as requested, which is the assert at the end of ipalloc |
| MallocApi.PageBranch | jemalloc/src/jemalloc.c:280-289 | off the small path ipalloc takes the page-aligned branch with the alignment raised to max(alignment, page) |
| MallocApi.PageAlignedMeetsAlignment | jemalloc/src/jemalloc.c:290-335 | every page-aligned placement that does not overflow meets the requested alignment |
| MallocApi.PageCeilingOfPow2 | jemalloc/src/jemalloc.c:284-288 | PAGE_CEILING of a power-of-two alignment is max(alignment, page), a power of two that the alignment divides |
| MallocApi.AlignmentTestExact | jemalloc/src/jemalloc.c:990-992 | the alignment test refuses exactly the values that are not powers of two or are below sizeof(void *); 0 is refused |
| MallocApi.PosixMemalign | jemalloc/src/jemalloc.c:959-1031 | defines posix_memalign's return value, *memptr or abort; PosixMemalignOutcomes, PosixMemalignZeroSysv and PosixMemalignXmalloc state its outcomes |
| MallocApi.AlignmentRejected | jemalloc/src/jemalloc.c:991-992 | defines the size_t test that refuses an alignment that is not a power of two or is below sizeof(void *); AlignmentTestExact states which alignments it rejects |
| MallocApi.PosixMemalignOutcomes | jemalloc/src/jemalloc.c:959-1031 | EINVAL exactly for a bad alignment, ENOMEM exactly when ipalloc overflows or the allocator fails, and 0 with the ipalloc placement otherwise; *memptr is written only on success |
| MallocApi.PosixMemalignZeroSysv | jemalloc/src/jemalloc.c:967-987 | under SYSV semantics a zero size returns 0 and stores NULL in *memptr |
| MallocApi.PosixMemalignXmalloc | jemalloc/src/jemalloc.c:967-1025 | with opt_xmalloc set in an xmalloc build, posix_memalign aborts exactly on a SYSV zero size, a bad alignment, an ipalloc overflow or a failed allocator; otherwise it returns 0 with the ipalloc placement stored |
| MallocApi.HighHalfTest | jemalloc/src/jemalloc.c:1059-1064 | the mask test on num or size is nonzero exactly when an operand uses the upper half of the bits |
| MallocApi.HalfWidthProductFits | jemalloc/src/jemalloc.c:1059-1063 | operands below 2^32 cannot overflow the product, so skipping the division on them misses nothing |
| MallocApi.DivisionDetectsOverflow | jemalloc/src/jemalloc.c:1064-1069 | when the wrapped product is nonzero, `num_size / size != num` holds exactly when the true product overflows |
| MallocApi.CallocAsWritten | jemalloc/src/jemalloc.c:1047-1071 | defines calloc's request as written, including the wrap to 0 turned into 1 byte; CallocAsWrittenDiffers and CallocWrapToOneByte state where it goes wrong |
| MallocApi.Calloc | jemalloc/src/jemalloc.c:1047-1071 | defines the corrected calloc request, which tests overflow before the zero case; CallocMeetsRequest states that it asks for exactly num * size bytes or NULL |
| MallocApi.CallocMeetsRequest | jemalloc/src/jemalloc.c:1047-1071 | the corrected calloc asks for exactly num * size bytes when that fits, for 1 byte when it is 0 (NULL under SYSV), and returns NULL on any overflow |
| MallocApi.CallocAsWrittenDiffers | jemalloc/src/jemalloc.c:1047-1058 | the calloc as written differs from the corrected one exactly on a nonzero overflow that wraps to 0 in a non-SYSV build |
| MallocApi.CallocWrapToOneByte | jemalloc/src/jemalloc.c:1047-1052 | calloc(2^32, 2^32) as written allocates 1 byte where 2^64 were asked for |
| Arenas.NcpusAsWritten | jemalloc/src/jemalloc.c:398-405 | malloc_ncpus as written: the result fits an unsigned; NcpusErrorWraps gives its value when sysconf fails |
| Arenas.Ncpus | jemalloc/src/jemalloc.c:398-402 | the intended malloc_ncpus: 1 when sysconf reports an error, the reported count otherwise |
| Arenas.NcpusErrorWraps | jemalloc/src/jemalloc.c:392-406 | a failed sysconf makes the code as written report 2^32 - 1 CPUs instead of 1 |
| Arenas.NcpusErrorArenaCount | jemalloc/src/jemalloc.c:793-838 | with a 2 MiB chunk and a thread cache, that count gives 262144 arenas where one CPU gives 1 |
| Arenas.Shl32 | jemalloc/src/jemalloc.c:824-825 | `narenas << lshift` on an unsigned stays within 32 bits; LeftShiftApplied gives its value when nothing is lost |
| Arenas.LeftShiftApplied | jemalloc/src/jemalloc.c:823-825 | a positive shift whose product fits 32 bits is applied, and it grows narenas |
| Arenas.PositiveShiftBounds | jemalloc/src/jemalloc.c:823-831 | a positive lshift never makes narenas exceed the arena pointers one chunk holds; it is applied only when the 32-bit result grows, so a shift that wraps to a value at or below ncpus leaves ncpus (capped at the chunk limit) and the result never falls below that; it keeps the true product when that fits both limits |
| Arenas.NegativeShiftExact | jemalloc/src/jemalloc.c:832-838 | a negative lshift divides ncpus by 2^-lshift, and narenas stays at least 1 and at most ncpus |
| Arenas.SmpLshift | jemalloc/src/jemalloc.c:796-819 | defines the SMP adjustment of opt_narenas_lshift: +1 with a thread cache that has slots, +2 otherwise, none on one CPU; NcpusErrorArenaCount and DeriveNarenas use it |
| Arenas.ShiftedNarenas | jemalloc/src/jemalloc.c:822-838 | defines narenas after the shift by opt_narenas_lshift; LeftShiftApplied, PositiveShiftBounds and NegativeShiftExact state its bounds |
| Arenas.PrimeAbove | jemalloc/src/jemalloc.c:841-863 | defines the table-prime rounding of narenas without TLS; PrimeAboveIsFirst states that it is the first table prime above n |
| Arenas.Narenas | jemalloc/src/jemalloc.c:822-863 | defines the arena count from ncpus, the shift and the prime rounding; DeriveNarenas equates the method with it, and NcpusErrorArenaCount evaluates it |
| Arenas.PrimeAboveIsFirst | jemalloc/src/jemalloc.c:841-863 | without TLS narenas becomes the first prime of the table after the leading 1 that exceeds it, or 263 when none does |
| Arenas.DeriveNarenas | jemalloc/src/jemalloc.c:822-863 | the narenas computation yields the specified count, which is at least 1 |
| Arenas.HashArenaCount | jemalloc/src/jemalloc.c:855-863 | the prime-table scan loop returns the first entry past the leading 1 that exceeds n |
| Arenas.ArenaGlobals.constructor | jemalloc/src/jemalloc.c:765-772 | before the CPU count, narenas is 1 and arenas is init_arenas with the bootstrap arena in slot 0 |
| Arenas.ArenaGlobals.BootArenas | jemalloc/src/jemalloc.c:793-881 | the SMP lshift adjustment, narenas, next_arena = 0, and a zeroed array whose slot 0 is the bootstrap arena; a failed array allocation leaves `arenas` NULL (the empty sequence) and reports failure |
| Arenas.ArenaGlobals.ChooseArenaHard | jemalloc/src/jemalloc.c:224-241 | with several arenas it takes arenas[next_arena] (creating it when the slot is empty, falling back to arenas[0]) and advances next_arena modulo narenas; with one arena it takes arenas[0]; arenas_map becomes the result |
| Arenas.NextAfterIsSum | jemalloc/src/jemalloc.c:233 | after k round-robin steps next_arena is start + k modulo narenas |
| Arenas.RoundRobinVisitsAll | jemalloc/src/jemalloc.c:229-236 | within narenas consecutive calls every arena index comes up |
| MallocOptions.Decode | jemalloc/src/jemalloc.c:546-699 | defines the switch's case labels, with letters of compiled-out features falling to default; NonLetterUnsupported, FeatureLettersLower and FeatureLettersUpper state which characters are supported |
| MallocOptions.SetSwitch | jemalloc/src/jemalloc.c:547-552 | defines the boolean-option cases; LastSwitchWins and SwitchRepeat state their meaning |
| MallocOptions.AdjustClasses | jemalloc/src/jemalloc.c:553-657 | defines the size-class cases with their guards; ClassesKeepBounds, ChunkStaysAboveMedium and the Repeat lemmas state what they keep |
| MallocOptions.AdjustTuning | jemalloc/src/jemalloc.c:565-634 | defines the tuning cases with their guards; AdjustKeepsBounds and the lshift Repeat lemmas state what they do |
| MallocOptions.Step | jemalloc/src/jemalloc.c:546-700 | defines one pass of the switch: a case body, or one "Unsupported character" report; UnsupportedChangesNothing and SupportedReportsNothing state which |
| MallocOptions.Adjust | jemalloc/src/jemalloc.c:546-689 | defines the case body of a supported flag, dispatching to SetSwitch, AdjustClasses or AdjustTuning; AdjustKeepsBounds states that it keeps the bounds |
| MallocOptions.Repeat | jemalloc/src/jemalloc.c:545-701 | defines the switch applied nreps times, as the `k < nreps` loop does; RepeatInPlace equates the loop with it, and SwitchRepeat and the Repeat* lemmas state its effect |
| MallocOptions.RepeatCount | jemalloc/src/jemalloc.c:528-543 | defines the repeat count: 1 without digits, else the unsigned accumulator; SmallCountExact and CountWrapsToZero state its value |
| MallocOptions.Parse | jemalloc/src/jemalloc.c:524-702 | defines the whole option string's effect, flag by flag from left to right; ParseFlag, ParseAppend and ParseKeepsBounds state its properties, and ParseOptions equates the loop with it |
| MallocOptions.LeadingDigits | jemalloc/src/jemalloc.c:529-540 | the digit run in front of a flag ends at the first character that is not a digit |
| MallocOptions.Nreps | jemalloc/src/jemalloc.c:534-535 | the unsigned accumulation of the repeat count stays below 2^32 |
| MallocOptions.NrepsIsDecimalModulo | jemalloc/src/jemalloc.c:534-535 | the digit-by-digit unsigned accumulation is the decimal value modulo 2^32 |
| MallocOptions.SmallCountExact | jemalloc/src/jemalloc.c:529-543 | a decimal count below 2^32 is parsed exactly, and no digits means a count of 1 |
| MallocOptions.ParseFlag | jemalloc/src/jemalloc.c:524-545 | a flag with its count applies count times, then parsing goes on with the rest of the string |
| MallocOptions.ParseAppend | jemalloc/src/jemalloc.c:524-702 | parsing two well-formed strings one after the other is parsing their concatenation |
| MallocOptions.CountWrapsToZero | jemalloc/src/jemalloc.c:541-545 | a count that is a multiple of 2^32, 0 among them, skips its flag entirely |
| MallocOptions.UnsupportedChangesNothing | jemalloc/src/jemalloc.c:690-699 | an unsupported character changes no option variable and is reported once per repetition, after the earlier reports |
| MallocOptions.NonLetterUnsupported | jemalloc/src/jemalloc.c:690-699 | every character that is not a letter is unsupported in every build |
| MallocOptions.FeatureLettersLower | jemalloc/src/jemalloc.c:574-689 | the lower-case letters of tcache, fill, swap, trace, sysv and xmalloc are unsupported exactly when the build leaves that feature out |
| MallocOptions.FeatureLettersUpper | jemalloc/src/jemalloc.c:574-689 | the same for the upper-case letters |
| MallocOptions.SupportedReportsNothing | jemalloc/src/jemalloc.c:546-689 | a supported flag adds no report |
| MallocOptions.LastSwitchWins | jemalloc/src/jemalloc.c:547-552 | of two letters for the same boolean option, the second decides it |
| MallocOptions.SwitchRepeat | jemalloc/src/jemalloc.c:545-552 | repeating a switch letter any positive number of times is applying it once |
| MallocOptions.RepeatLowerQspace | jemalloc/src/jemalloc.c:649-652 | 'q' n times lowers opt_lg_qspace_max by n, but not below LG_QUANTUM |
| MallocOptions.RepeatRaiseQspace | jemalloc/src/jemalloc.c:653-657 | 'Q' n times raises opt_lg_qspace_max by n while it stays below opt_lg_cspace_max |
| MallocOptions.RepeatLowerMedium | jemalloc/src/jemalloc.c:620-623 | 'm' n times lowers opt_lg_medium_max by n, but not below PAGE_SHIFT |
| MallocOptions.RepeatRaiseMedium | jemalloc/src/jemalloc.c:624-628 | 'M' n times raises opt_lg_medium_max by n while it stays below opt_lg_chunk |
| MallocOptions.RepeatLowerLshift | jemalloc/src/jemalloc.c:629-631 | 'n' n times lowers opt_narenas_lshift by exactly n |
| MallocOptions.RepeatRaiseLshift | jemalloc/src/jemalloc.c:632-634 | 'N' n times raises opt_narenas_lshift by exactly n |
| MallocOptions.CspaceGuardIgnoresWrap | jemalloc/src/jemalloc.c:553-559 | the size_t wrap of `opt_lg_cspace_max - 1` never changes the outcome of the 'c' guard |
| MallocOptions.SignedGuard | jemalloc/src/jemalloc.c:565-583 | after conversion to size_t only a signed value in 0..63 passes the `< sizeof(size_t) << 3` guard |
| MallocOptions.ChunkStaysAboveMedium | jemalloc/src/jemalloc.c:602-614 | 'k' lowers opt_lg_chunk only while it stays above opt_lg_medium_max |
| MallocOptions.ClassesKeepBounds | jemalloc/src/jemalloc.c:553-628 | no size-class flag takes the size-class variables out of their bounds |
| MallocOptions.AdjustKeepsBounds | jemalloc/src/jemalloc.c:546-700 | no flag takes a bounded set of option variables out of its bounds |
| MallocOptions.RepeatKeepsBounds | jemalloc/src/jemalloc.c:545-701 | a repeated flag keeps the bounds |
| MallocOptions.ParseKeepsBounds | jemalloc/src/jemalloc.c:524-702 | parsing any option string keeps every option variable within its bounds |
| MallocOptions.OptionVars.StepInPlace | jemalloc/src/jemalloc.c:546-700 | one pass of the switch updates the globals as Step specifies |
| MallocOptions.OptionVars.SetSwitchInPlace | jemalloc/src/jemalloc.c:547-552 | the switch-letter cases set their boolean as Step specifies |
| MallocOptions.OptionVars.AdjustClassesInPlace | jemalloc/src/jemalloc.c:553-657 | the c, C, q, Q, m, M, k and K cases update the globals as Step specifies |
| MallocOptions.OptionVars.AdjustTuningInPlace | jemalloc/src/jemalloc.c:565-634 | the d, D, g, G, h, H, n and N cases update the globals as Step specifies |
| MallocOptions.OptionVars.RepeatInPlace | jemalloc/src/jemalloc.c:545-701 | the `k < nreps` loop applies the switch nreps times |
| MallocOptions.OptionVars.ParseOptions | jemalloc/src/jemalloc.c:524-702 | the parsing loop leaves the globals and reports equal to Parse of the string |
| MallocOptions.ScanCount | jemalloc/src/jemalloc.c:528-543 | the count loop stops at the flag letter after the digits and yields its repeat count |
| MallocOptions.ParseStep | jemalloc/src/jemalloc.c:524-545 | one outer-loop iteration is one step of Parse over the remaining input |
| MallocOptions.DigitValue | jemalloc/src/jemalloc.c:535 | `opts[j] - '0'` of a digit is below 10 |
| Extents.NSearch | src/chunk.c:537-539 | the address search gives the first free range at or above the address |
| Extents.AddrSearch | src/chunk.c:271-275 | the exact address search finds the range starting at the address, or reports that none does |
| Extents.BestFrom | src/chunk.c:234-244 | the best fit, if any, holds the size, is smallest, and is the lowest address among equal sizes; none means nothing holds the size |
| Extents.FirstBestFit | src/chunk.c:230-244 | defines chunk_first_best_fit as the szad search; FirstBestFitIsLowestSmallest states that it is the smallest fitting range at the lowest address |
| Extents.FirstBestFitIsLowestSmallest | src/chunk.c:230-244 | chunk_first_best_fit selects the smallest free range holding the size and, among equals, the lowest address; none exactly when no range is large enough |
| Chunk.Recorded | src/chunk.c:524-606 | defines the trees after chunk_record: the chunk merged with its free neighbours, or unchanged when it leaks; RecordedShape, RecordedWellFormed, RecordedTotal and RecordedCovers state its meaning |
| Chunk.Leaks | src/chunk.c:541-573 | defines the leak case of chunk_record: no forward merge and no extent node for a new range; RecordedTotal and RecordedCovers state its effect |
| Chunk.ForwardMerged | src/chunk.c:540-579 | defines the range after the forward merge, or the new range when there is none; a cached or non-zeroed chunk makes it non-zeroed; RecordedShape states its effect |
| Chunk.RecordPos | src/chunk.c:537-539 | defines the position chunk_record's `extent_tree_ad_nsearch` finds: the first free range at or above chunk + size; NSearch states its meaning and RecordedShape uses it |
| Chunk.ForwardMerges | src/chunk.c:541-544 | defines the forward-coalescing test: the next range starts at chunk + size, has the same committed flag, and the merge hook succeeds; RecordedShape and RecordedCovers state its effect |
| Chunk.BackwardMerges | src/chunk.c:582-586 | defines the backward-coalescing test: the previous range ends at chunk, has the same committed flag, and the merge hook succeeds; RecordedShape and RecordedCovers state its effect |
| Chunk.BackwardMerged | src/chunk.c:581-606 | defines the predecessor widened over the chunk, zeroed only when both were; RecordedShape states its effect |
| Chunk.RecordedByEdits | src/chunk.c:540-606 | the recorded trees are what chunk_record's edits produce: widen the range at the insertion point or insert one there, then fold in the predecessor |
| Chunk.LeakedState | src/chunk.c:559-573 | without a forward merge or an extent node, chunk_record leaves the trees as they were |
| Chunk.RecordStep | src/chunk.c:524-610 | the edits chunk_record makes give well-formed recorded trees |
| Chunk.RecordedShape | src/chunk.c:540-606 | chunk_record splices one merged range in place of the merged run; the range starts at the predecessor if that merges, ends at the successor's end if that merges, and is zeroed only if every part was |
| Chunk.RecordedWellFormed | src/chunk.c:524-610 | chunk_record keeps the trees ordered, disjoint and made of whole chunks |
| Chunk.RecordedTotal | src/chunk.c:524-610 | chunk_record adds exactly the chunk's bytes to the free total, unless the chunk is leaked |
| Chunk.RecordedAdds | src/chunk.c:559-579 | with an extent node at hand nothing leaks, and the chunk's bytes join the free total |
| Chunk.RecordedCovers | src/chunk.c:524-610 | the free addresses after chunk_record are the old ones plus the chunk's, unless the chunk is leaked |
| Chunk.RecordedCount | src/chunk.c:540-606 | coalescing adds one free range for the chunk and removes one for each neighbour it merges with |
| Chunk.Candidate | src/chunk.c:271-284 | chunk_recycle takes the range at new_addr when it holds size bytes, otherwise the first best fit for the search size |
| Chunk.AllocSize | src/chunk.c:265-268 | defines chunk_recycle's search size as the chunk ceiling of the size class; AllocSizeCovers states what it covers |
| Chunk.LeadSize | src/chunk.c:285-288 | defines the lead before the first alignment boundary; LeadBound and RecycledPiece state its bounds and alignment |
| Chunk.AllocSizeCovers | src/chunk.c:265-268 | when the search size covers size, no wrap happened and it is at least size + alignment - chunksize |
| Chunk.LeadBound | src/chunk.c:285-288 | the lead before the alignment boundary of a chunk-aligned range is a whole number of chunks, less than the alignment |
| Chunk.CandidateFits | src/chunk.c:280-290 | the lead plus the piece fit inside the chosen range, and the rounding does not wrap |
| Chunk.CarvedWellFormed | src/chunk.c:304-345 | replacing the range by its lead and trail keeps the trees well formed |
| Chunk.CarvedTotal | src/chunk.c:304-345 | the carve removes exactly size free bytes |
| Chunk.CarvedCovers | src/chunk.c:304-345 | after the carve exactly the returned piece stops being free, and it was free before |
| Chunk.CarvedUnzeroed | src/chunk.c:304-345 | carving an unzeroed range leaves only unzeroed ranges, so the cache keeps holding no zeroed range |
| Chunk.Carved | src/chunk.c:304-345 | defines the trees once the chosen piece is cut out, keeping the lead and the trail; CarvedWellFormed, CarvedTotal and CarvedCovers state its meaning |
| Chunk.LeadOnly | src/chunk.c:304-315 | defines the trees once the range is taken out and only its lead is put back; LeadOnlyWellFormed and LeadOnlyTotal state its meaning |
| Chunk.LeadOnlyWellFormed | src/chunk.c:304-315 | keeping only the lead of the range keeps the trees well formed |
| Chunk.LeadOnlyTotal | src/chunk.c:304-315 | keeping only the lead drops the rest of the range from the free total |
| Chunk.RestTotal | src/chunk.c:316-337 | when the trail split or its node fails the rest of the range is given back free, unless its node cannot be had |
| Chunk.PieceTotal | src/chunk.c:346-351 | when the commit fails the carved piece is given back free, unless its node cannot be had |
| Chunk.RecycleStateTotal | src/chunk.c:297-351 | a recycle that fails after choosing its range loses no free bytes unless chunk_record leaks; one that succeeds removes exactly size bytes |
| Chunk.RecycleState | src/chunk.c:297-351 | defines the trees after a range is chosen, one case per failing hook; RecycleStateCases and RecycleStateTotal state them |
| Chunk.RecycleStateCases | src/chunk.c:297-351 | the four outcomes after a range is chosen, one for each hook that can fail |
| Chunk.RecycleFails | src/chunk.c:297-351 | defines the failures after a range is chosen: the lead split, the trail split, the trail node or the commit; RecycleStateCases and RecycleStateTotal state their effect |
| Chunk.RecordInto | src/chunk.c:524-610 | chunk_record's edits, as a method on the trees, yield Recorded |
| Chunk.TakeFrom | src/chunk.c:285-296 | once chunk_recycle has its range it raises *zero and *commit by the range's flags, then carves it |
| Chunk.CarveFrom | src/chunk.c:297-345 | the range leaves both trees, its lead and trail go back, and what was taken is given back on a hook failure |
| Chunk.CarvePiece | src/chunk.c:316-351 | the trail goes back beside the lead, then the piece is committed, or recorded again when the commit fails |
| Chunk.ExtentTree.Record | src/chunk.c:524-610 | chunk_record on an extent-tree pair: the new trees are Recorded, and they stay well formed |
| Chunk.ExtentTree.Recycle | src/chunk.c:246-369 | chunk_recycle on an extent-tree pair: the result and the new trees are as Recycled says, and the trees stay well formed |
| Chunk.Recycled | src/chunk.c:246-369 | relates the trees before and after chunk_recycle to its result, *zero and *commit; NothingRecycled, PieceRecycled, RecycledTotal and RecycledPiece state its consequences |
| Chunk.NothingRecycled | src/chunk.c:265-284 | when the search size wraps or no range holds the request, chunk_recycle returns NULL and changes nothing |
| Chunk.PieceRecycled | src/chunk.c:285-368 | when a range is chosen the results are those Recycled names |
| Chunk.RecycledCommits | src/chunk.c:294-296 | asked for committed memory, chunk_recycle reports it committed whatever it returns |
| Chunk.RecycledTotal | src/chunk.c:246-369 | chunk_recycle takes exactly size free bytes out of the trees when it returns a piece and none when it fails, unless chunk_record leaks |
| Chunk.RecyclePlan | src/chunk.c:265-290 | the range chunk_recycle chooses can be carved at its alignment boundary |
| Chunk.RecycledPiece | src/chunk.c:285-368 | a piece handed out is aligned and was free; all of it stops being free, and every other free address stays free |
| Chunk.ChunkArena.AllocCache | src/chunk.c:427-448 | chunk_alloc_cache recycles from the cached trees, asking for committed memory, and the result is what chunk_recycle gives for them |
| Chunk.ChunkArena.AllocRetained | src/chunk.c:482-501 | chunk_alloc_retained recycles from the retained trees, and a success takes size off stats.retained |
| Chunk.ChunkArena.AllocWrapper | src/chunk.c:503-521 | chunk_alloc_wrapper tries the retained trees first: the retained trees afterwards and the retained attempt are as Recycled states, and stats.retained drops by size when that attempt succeeds; a retained success is returned with its *zero and *commit, otherwise the alloc hook's chunk, *zero and *commit are |
| Chunk.ChunkArena.DallocCache | src/chunk.c:612-625 | chunk_dalloc_cache records the chunk in the cached trees, never as zeroed |
| Chunk.ChunkArena.DallocWrapper | src/chunk.c:637-663 | if the dalloc hook succeeds nothing is recorded; otherwise the chunk is recorded in the retained trees, zeroed when it was decommitted or purged, and stats.retained grows by size |
| Chunk.RetainedAccounting | src/chunk.c:637-663 | stats.retained minus the bytes in the retained trees is unchanged by a dalloc that records there and by a successful retained recycle |
| Chunk.AllocCore | src/chunk.c:377-405 | chunk_alloc_core tries dss first only when it is primary, then mmap, then dss when it is secondary; it returns NULL only if every tried source failed |
| Chunk.ChunkSizeValid | src/chunk.c:760-763 | 2^opt_lg_chunk with opt_lg_chunk below 64 is a valid chunk size |
| Chunk.ChunkPages | src/chunk.c:764 | chunk_npages is a whole number of pages, so the shift loses nothing |
| Chunk.ChunkSettings.Boot | src/chunk.c:734-773 | chunk_boot defaults opt_lg_chunk to 21, sets chunksize, its mask and its page count, gives rtree_new 64 - opt_lg_chunk key bits, and fails exactly when the dss boot or rtree_new fails |
| RunTests.CombosShape | scripts/gen_run_tests.py:3-8 | every tuple combinations yields has k strictly increasing positions in range |
| RunTests.CombosTooMany | scripts/gen_run_tests.py:3-8 | asking for more elements than there are positions yields nothing |
| RunTests.CombosSorted | scripts/gen_run_tests.py:3-8 | combinations yields its tuples in strictly increasing lexicographic order |
| RunTests.CombosCount | scripts/gen_run_tests.py:3-8 | combinations yields C(n, k) tuples |
| RunTests.Combos | scripts/gen_run_tests.py:3-8 | defines the index tuples itertools.combinations produces; CombosShape, CombosSorted, CombosCount and CombosTooMany state its meaning |
| RunTests.Combinations | scripts/gen_run_tests.py:3-8 | defines combinations(items, k) as the items at the positions of those tuples |
| RunTests.IndexSubsetsShape | scripts/gen_run_tests.py:5-9 | every subset powerset builds is an increasing tuple of positions |
| RunTests.IndexSubsetsOrdered | scripts/gen_run_tests.py:5-9 | subsets come by increasing size and, within a size, in lexicographic index order |
| RunTests.Subsets | scripts/gen_run_tests.py:5-9 | defines the value powerset returns; Powerset equates the loop with it, and PowersetCount, PowersetFirst and PowersetLast state its shape |
| RunTests.Powerset | scripts/gen_run_tests.py:5-9 | the `result +=` loop returns exactly the specified subsets |
| RunTests.PowersetCount | scripts/gen_run_tests.py:5-9 | powerset returns 2^n tuples |
| RunTests.PowersetFirst | scripts/gen_run_tests.py:5-9 | the empty tuple comes first |
| RunTests.PowersetLast | scripts/gen_run_tests.py:5-9 | the whole catalog, in catalog order, comes last |
| RunTests.SubsetsPick | scripts/gen_run_tests.py:5-9 | subset i holds the catalog entries at the positions of index subset i |
| RunTests.LackingHalf | scripts/gen_run_tests.py:5-9 | exactly half of the subsets of a nonempty range leave out a given position |
| RunTests.HalfWithout | scripts/gen_run_tests.py:5-9 | exactly half of the subsets powerset yields leave out an entry that occurs once in the catalog |
| RunTests.DecimalString | scripts/gen_run_tests.py:55 | str of a number is never empty |
| RunTests.IterationOrder | scripts/gen_run_tests.py:32-35 | combination number i * W + j * V + k * len(R) + l is (pairs[i], P[j], Q[k], R[l]): compiler pair outermost, malloc-conf subset innermost |
| RunTests.SkipRule | scripts/gen_run_tests.py:36-39 | defines the skip test for clang with -m32 in the catalog and --enable-prof; GccThenClang and ClangProfSkipped state its effect |
| RunTests.DarwinUnsupported | scripts/gen_run_tests.py:48-50 | defines the Darwin guard test; BlockCounts states when the guard lines appear |
| RunTests.ConfigureLine | scripts/gen_run_tests.py:40-47 | defines the configure line; ConfigureLineShape, MallocConfSuffixShape and ExampleConfigureLine state its shape |
| RunTests.Join | scripts/gen_run_tests.py:42-45 | defines `sep.join(xs)`, used for the space- and comma-joined option lists; ExampleConfigureLine states one instance |
| RunTests.Block | scripts/gen_run_tests.py:36-57 | defines the lines one combination prints; EmitBlock, BlockCounts and ExampleBlock state them |
| RunTests.ConfigureLineShape | scripts/gen_run_tests.py:40-47 | the configure line starts with the fixed -Werror prefix |
| RunTests.MallocConfSuffixShape | scripts/gen_run_tests.py:44-46 | the ` --with-malloc-conf=` suffix is present exactly when the malloc-conf subset is nonempty |
| RunTests.MallocConfSuffix | scripts/gen_run_tests.py:44-46 | defines the malloc-conf suffix; MallocConfSuffixShape states when it is present |
| RunTests.EmitBlock | scripts/gen_run_tests.py:36-57 | the innermost loop body appends exactly the specified block |
| RunTests.EmitConfigLoops | scripts/gen_run_tests.py:34-57 | the two inner loops append the rendered blocks of their combinations, in order |
| RunTests.EmitPlanes | scripts/gen_run_tests.py:33-57 | the compiler-option loop appends the rendered blocks of its combinations, in order |
| RunTests.EmitCubes | scripts/gen_run_tests.py:32-57 | the compiler-pair loop appends the rendered blocks of all combinations, in order |
| RunTests.Script | scripts/gen_run_tests.py:11-57 | defines the whole printed script; Generate equates the program with it, and ScriptPreamble, ScriptCounts and ShippedScript state its contents |
| RunTests.AllCombinations | scripts/gen_run_tests.py:32-35 | defines the four nested loops' sequence of combinations, compiler pair outermost; IterationOrder states the exact position of each combination |
| RunTests.Render | scripts/gen_run_tests.py:36-57 | defines the lines printed for a sequence of combinations, one Block each in order; RenderCounts states the configure and guard counts |
| RunTests.Generate | scripts/gen_run_tests.py:28-57 | the script body prints exactly Script: the preamble, then every block in iteration order |
| RunTests.BlockCounts | scripts/gen_run_tests.py:36-57 | a skipped combination prints nothing; otherwise a block has one configure line, and one guard-open and one guard-close line exactly when it is Darwin-unsupported |
| RunTests.RenderCounts | scripts/gen_run_tests.py:32-57 | the printed lines hold one configure line per combination not skipped, and the guard lines once per emitted Darwin-unsupported combination |
| RunTests.ScriptPreamble | scripts/gen_run_tests.py:28-30 | the output opens with `set -e`, `autoconf`, ``unamestr=`uname` ``, which hold no configure line |
| RunTests.ScriptCounts | scripts/gen_run_tests.py:28-57 | the script is the preamble, then one configure line per emitted combination |
| RunTests.MatrixEmitted | scripts/gen_run_tests.py:32-39 | each compiler pair prints len(P) * len(R) blocks per configure subset the skip rule keeps for it |
| RunTests.GccThenClang | scripts/gen_run_tests.py:36-39 | for gcc then clang with -m32 in the catalog, gcc prints every combination and clang only those without --enable-prof |
| RunTests.MatrixCount | scripts/gen_run_tests.py:13-39 | catalogs shaped like the shipped ones give 256 combinations, of which 192 print |
| RunTests.CatalogSizes | scripts/gen_run_tests.py:13-26 | catalogs of one, four and two options give 2, 16 and 4 subsets, 8 of the 16 without --enable-prof |
| RunTests.ProfOnceInConfigCatalog | scripts/gen_run_tests.py:17-22 | --enable-prof is entry 1 of the configure catalog, and no other entry |
| RunTests.ShippedMatrix | scripts/gen_run_tests.py:11-39 | the shipped catalogs give 256 combinations, 192 of them printed |
| RunTests.ShippedScript | scripts/gen_run_tests.py:11-57 | the shipped script holds 192 configure lines |
| RunTests.ExampleBlock | scripts/gen_run_tests.py:40-57 | the block of (gcc, {}, {--enable-debug}, {tcache:false}) is its configure line, make clean and make -j32 check, without a guard |
| RunTests.ExampleConfigureLine | scripts/gen_run_tests.py:40-47 | the exact configure line of that combination |
| RunTests.ClangProfSkipped | scripts/gen_run_tests.py:36-39 | a clang combination with --enable-prof prints nothing, whatever the other subsets hold |
| RadixTree.Widths | include/jemalloc/internal/rtree.h:17-21 | 16 bits per level and a maximum height of 4 for 64-bit pointers |
| RadixTree.LgFloor | include/jemalloc/internal/rtree.h:144-146 | lg_floor is the index of the highest set bit of a nonzero key |
| RadixTree.StartIndexInRange | include/jemalloc/internal/rtree.h:144-146 | for a nonzero key `lg_floor(key) >> 4` indexes the start-level table |
| RadixTree.StartLevel | include/jemalloc/internal/rtree.h:136-148 | key 0 starts at height - 1, and every start level is below the height |
| RadixTree.Subkey | include/jemalloc/internal/rtree.h:150-157 | the subkey is the level's digit of the key, below 2^bits |
| RadixTree.LeafKey | include/jemalloc/internal/rtree.h:150-157 | defines the key bits the tree distinguishes; SubkeyOfLeafKey and SameLeafIffSamePath state that it picks the leaf |
| RadixTree.SubkeyOfLeafKey | include/jemalloc/internal/rtree.h:150-157 | every subkey is a digit of the key bits the tree distinguishes |
| RadixTree.PrefixFromSubkeys | include/jemalloc/internal/rtree.h:252-290 | keys whose subkeys agree on levels 0 to l agree on their top cumbits(l) bits |
| RadixTree.SameLeafIffSamePath | include/jemalloc/internal/rtree.h:252-346 | two keys reach the same leaf element exactly when their lookups take the same subkey at every level |
| RadixTree.NodeValid | include/jemalloc/internal/rtree.h:159-164 | a node is valid exactly when its pointer is above 0x1, so NULL and RTREE_NODE_INITIALIZING are not |
| RadixTree.LockBit | include/jemalloc/internal/rtree.h:405 | `pun & 0x1` is the word's bit 0 |
| RadixTree.ElmRead | include/jemalloc/internal/rtree.h:192-218 | rtree_elm_read returns the word with bit 0 cleared |
| RadixTree.ElmLocked | include/jemalloc/internal/rtree.h:393 | setting bit 0 of an even pointer adds 1 to it |
| RadixTree.ElmReadAcquired | include/jemalloc/internal/rtree.h:400-410 | rtree_elm_read_acquired of a locked word returns the pointer without the lock bit |
| RadixTree.ElmReadMasksLock | include/jemalloc/internal/rtree.h:214-215 | what rtree_elm_read returns is even and differs from the word only in bit 0 |
| RadixTree.WriteAcquiredThenRead | include/jemalloc/internal/rtree.h:412-420 | rtree_elm_write_acquired keeps the lock bit set, and rtree_elm_read_acquired then returns the written extent |
| RadixTree.ReleaseKeepsPayload | include/jemalloc/internal/rtree.h:422-427 | rtree_elm_release leaves the word unlocked, with the pointer it held while acquired |
| RadixTree.RTree.Read | include/jemalloc/internal/rtree.h:365-375 | rtree_read returns NULL when the key's leaf node is missing, and otherwise the element's word with the lock bit cleared (NULL for an element never written); a dependent read demands the node |
| RadixTree.RTree.ReadAcquired | include/jemalloc/internal/rtree.h:400-410 | the acquired read of the key's locked element returns its word less the lock bit |
| RadixTree.RTree.Lookup | include/jemalloc/internal/rtree.h:252-346 | rtree_elm_lookup finds the key's element exactly when its leaf node is present, or is missing and created (zeroed, as a whole node) because init_missing is set and the allocation succeeds; no element changes |
| RadixTree.RTree.Write | include/jemalloc/internal/rtree.h:348-363 | rtree_write fails exactly when the key's leaf node is missing and cannot be allocated, leaving the tree unchanged; otherwise the node is present, the extent is stored, rtree_read then returns it, and no other element changes |
| RadixTree.RTree.Acquire | include/jemalloc/internal/rtree.h:377-398 | rtree_elm_acquire finds the element exactly as the lookup does, and then sets its lock bit and keeps the pointer it holds; without an element nothing changes |
| RadixTree.WriteThenSiblingLookup | include/jemalloc/internal/rtree.h:252-363 | after a successful rtree_write, a lookup of another key in the same leaf node finds its element without allocating, and reading it gives NULL |
| RadixTree.RTree.WriteAcquired | include/jemalloc/internal/rtree.h:412-420 | a write to a locked element stores the extent and keeps it locked |
| RadixTree.RTree.Release | include/jemalloc/internal/rtree.h:422-427 | release writes the acquired pointer back unlocked |
| RadixTree.RTree.Clear | include/jemalloc/internal/rtree.h:429-437 | after rtree_clear the key's element is unlocked and rtree_read returns NULL |
| ThreadCache.TcacheBin.Stack | include/jemalloc/internal/tcache_inlines.h:79 | the cached pointers, top first: ncached of them, none NULL |
| ThreadCache.TcacheBin.AllocEasy | include/jemalloc/internal/tcache_inlines.h:62-87 | an empty bin fails with low_water = -1; otherwise it pops the top pointer, ncached drops by one, and low_water follows it down |
| ThreadCache.TcacheBin.Flush | include/jemalloc/internal/tcache_inlines.h:226-229 | a flush to rem keeps the rem pointers cached last and lowers low_water to rem if needed |
| ThreadCache.TcacheBin.Dalloc | include/jemalloc/internal/tcache_inlines.h:224-232 | a full bin is flushed to half first, which lowers low_water to ncached_max >> 1 when it was higher; then the freed pointer goes on top and ncached stays within ncached_max |
| ThreadCache.DallocThenAlloc | include/jemalloc/internal/tcache_inlines.h:62-235 | a freed pointer is the next one handed out: the bins are LIFO |
| ThreadCache.Tcache.AllocSmall | include/jemalloc/internal/tcache_inlines.h:89-150 | a hit pops the bin; a miss goes to the arena, or gives NULL without one; each success counts one request and usize bytes |
| ThreadCache.Tcache.AllocLarge | include/jemalloc/internal/tcache_inlines.h:152-210 | a hit pops the bin; a miss allocates from the arena with large_malloc; only a hit counts the request and the bytes |
| ThreadCache.Tcache.DallocSmall | include/jemalloc/internal/tcache_inlines.h:212-235 | a freed small object goes on top of its bin, after a flush to half when the bin is full, and low_water is lowered to ncached_max >> 1 by that flush when it was higher |
| ThreadCache.Tcache.DallocLarge | include/jemalloc/internal/tcache_inlines.h:237-261 | a freed large object goes on top of its bin, after a flush to half when the bin is full, and low_water is lowered to ncached_max >> 1 by that flush when it was higher |
| ThreadCache.EnabledSetCalls | include/jemalloc/internal/tcache_inlines.h:35-45 | tsd_tcache_data_init runs only on a transition into enabled, and tcache_cleanup only on a transition from enabled to disabled |
| ThreadCache.EnabledSetIdempotent | include/jemalloc/internal/tcache_inlines.h:35-49 | setting the same value a second time makes no call |
| ThreadCache.Tsd.EnabledGet | include/jemalloc/internal/tcache_inlines.h:23-33 | tcache_enabled_get is true exactly when the decided state is enabled |
| ThreadCache.Tsd.EnabledSet | include/jemalloc/internal/tcache_inlines.h:35-49 | the calls the old state calls for are made first, and the new state is committed last |
| ThreadCache.EnabledState | include/jemalloc/internal/tcache_inlines.h:47-48 | defines the `(tcache_enabled_t)enabled` conversion committed last; EnabledSetIdempotent and Tsd.EnabledGet state that it reads back as set |
| ThreadCache.Tcaches.Get | include/jemalloc/internal/tcache_inlines.h:263-270 | the cache is created only when the slot is NULL; later calls return the same cache and change nothing |
| Large.Retries | src/large.c:201-205 | defines the guard of the retry with usize_min; NoMoveDecision and AsWrittenMisreportsFailedRetry use it |
| Large.Settle | src/large.c:215-228 | defines the final bounds test and shrink of large_ralloc_no_move; NoMoveMeaning states its outcome |
| Large.NoMoveAsWritten | src/large.c:182-229 | defines large_ralloc_no_move as written, with the unnegated retry test; AsWrittenMisreportsFailedRetry exhibits the discrepancy |
| Large.NoMoveDecision | src/large.c:182-229 | the corrected decision tries to expand to usize_max only when that is larger, retries with usize_min only with the guard, and shrinks only an extent above usize_max; a failure leaves the size as it was |
| Large.NoMoveMeaning | src/large.c:182-229 | no move is needed exactly when the extent ends with a size in [usize_min, usize_max]; a size already in range never moves |
| Large.AsWrittenAgreesOtherwise | src/large.c:193-208 | the code as written and the corrected decision agree unless both expands fail after the retry is made |
| Large.AsWrittenMisreportsFailedRetry | src/large.c:201-208 | when both expands fail, the code as written reports that no move is needed although the size is still below usize_min |
| Large.AsWrittenMisreportsExample | src/large.c:201-208 | a 16 KiB extent asked to grow to 20-24 KiB with no room behind it is reported as resized |
| Large.MoveHelper | src/large.c:231-239 | large_malloc is used exactly when the alignment is at most CACHELINE, and the new space is aligned to at least the request and to CACHELINE |
| Large.Ralloc | src/large.c:241-273 | defines large_ralloc's result: in place, a copy and free, or NULL; RallocOutcome states its outcomes |
| Large.RallocOutcome | src/large.c:241-273 | large_ralloc returns the original address exactly when the extent now has the requested size; a move copies min(usize, old usize) bytes and frees the old extent; a failed move keeps it |
| Large.RallocUnaffected | src/large.c:254-256 | large_ralloc passes usize_min == usize_max, so the inverted retry test never affects it |
| Large.Removed | src/large.c:283 | ql_remove of a present entry shortens the list by one and removes one occurrence of that entry |
| Large.RemovedDistinct | src/large.c:283 | removing an entry from a list of distinct entries removes it for good, and the list stays distinct |
| Large.TailInsertThenRemove | src/large.c:43-44 | removing an extent just inserted at the tail gives back the list as it was |
| Large.LargeList.Palloc | src/large.c:15-61 | large_palloc returns NULL exactly when sa2u gives 0 or more than LARGE_MAXCLASS, or there is no arena or no extent; otherwise the extent joins the tail of the list |
| Large.LargeList.DallocImpl | src/large.c:275-294 | the extent leaves the list, and the other extents stay in order |

## Left out

- Threads and atomics: the mutexes in chunk.c and large.c, the `init_lock` wait, and the atomic reads and compare-and-swap of the radix tree have no sequential meaning. They are not modelled.
- Option sources: reading the symbolic link, the environment and `malloc_options` is I/O. The parser starts from an already obtained string.
- MallocOptions.OptionVars.ParseOptions: requires a well-formed string whose last character is not a digit. With trailing digits the C loop steps past the terminating NUL, which is undefined behaviour.
- Arenas.ArenaGlobals.BootArenas: requires ncpus >= 1 and a chunk of at least one arena pointer. The assert that narenas is even before the prime rounding is not modelled.
- Arenas.ArenaGlobals.ChooseArenaHard: arena creation is a parameter. arenas_extend's fallback to arenas[0] on OOM is modelled; the error message and `opt_abort` are not.
- MallocApi: arena_malloc, arena_palloc, huge_malloc, huge_palloc and icalloc are placements, not allocations. Whether the allocator returns NULL is a parameter. `malloc_init` failure and the trace and ENOMEM error paths are not modelled.
- Chunk: chunk_register, chunk_deregister, the extent-hook getters and setters, purging, profiling (`highchunks`) and the Windows branch of chunk_boot are not modelled.
- Chunk: chunk_alloc_base and chunk_alloc_default are thin wrappers around chunk_alloc_core, and they are not modelled separately.
- Chunk: the OS back ends and the mmap, dss, split, merge, commit, decommit, purge and dalloc hooks are parameters. memset, the debug zero check and arena_chunk_cache_maybe_insert/remove are not modelled.
- Chunk.ExtentTree.Recycle: `s2u` is a parameter, bounded to what a size class can be. The two extent trees are one address-ordered sequence rather than two red-black trees sharing nodes. Node allocation, reuse and freeing are hook outcomes.
- RadixTree: rtree_new and the subtree and child reads (`*_read_hard`, `*_tryread`) are not modelled one by one. A leaf node is named by the key bits above the leaf level; the per-start-level subtree roots and the interior nodes on its path are not told apart, so a lookup either finds or creates the whole path or finds nothing. Dependent and non-dependent reads are the same once the node is present.
- RadixTree.RTree.Acquire: requires the element to be unlocked. The spin loop, which only waits for another thread, is not modelled.
- ThreadCache.TcacheBin.Flush: models only the effect on the bin. Returning the flushed objects to their arenas is done in tcache.c, which is not part of this model.
- ThreadCache: the hard-path bin fill, the `tcache_event` garbage collection tick and the junk and zero memsets are not modelled. The `tcache_salloc` asserts are requires.
- Large: LARGE_MINCLASS and LARGE_MAXCLASS asserts are not modelled. The expand and shrink helpers are hook outcomes. `sa2u`, `arena_choose` and `arena_chunk_alloc_large` are parameters. The memcpy, `isdalloct`, junk filling, profiling and `arena_decay_tick` are not modelled, and neither is the unconditional memset at src/large.c:88-90.
- Large.LargeList.Palloc: requires an extent that is not already on the list, as an extent fresh from the arena is. A NULL extent is handled and gives NULL.
- MallocOptions.AdjustClasses: the 'k' guard is computed in unbounded integers. In C, `1U << (opt_lg_chunk - 1)` and `1U << opt_lg_medium_max` are 32-bit shifts, and a count of 32 or more (reachable with 'K') is undefined behaviour. The model compares the true powers of two, and since the guard also asks for lg_chunk >= 1, lg_chunk = 0 stays unchanged where C would shift by `(size_t)-1`.
- MallocOptions.OptionVars.AdjustClassesInPlace: the same unbounded 'k' guard as AdjustClasses, for the same undefined shifts.
- MallocOptions.AdjustTuning: opt_narenas_lshift is an unbounded integer. 'n' and 'N' repeated past the range of an `int` overflow it in C, which is undefined behaviour. RepeatLowerLshift and RepeatRaiseLshift state a change of exactly n with no bound.
- Arenas.Shl32: a shift count of 32 or more is undefined behaviour in C. The model takes the product modulo 2^32, which is 0 for such counts.
- Arenas.ShiftedNarenas: `narenas << opt_narenas_lshift` and `narenas >> -opt_narenas_lshift` with a count of 32 or more are undefined behaviour in C. The model's shifts yield 0 there, so such a left shift leaves narenas at ncpus before the chunk-size cap and such a right shift gives 1.
- RunTests: Python 2 `print` becomes appending a line to the output. `cc is 'clang'` is string equality.
- RunTests.MallocConfSuffixShape: speaks of the suffix only. The configure-option catalog holds `--with-malloc-conf=tcache:false`, so a configure line can contain `--with-malloc-conf=` even when the malloc-conf subset is empty. The model follows the script.

## Findings

| source | as written | input that shows it | evidently intended | confidence | as-written member | corrected member |
|---|---|---|---|---|---|---|
| jemalloc/src/jemalloc.c:1047-1052 | a product that wraps to 0 with both operands nonzero becomes a 1-byte request in a build without SYSV support | calloc(2^32, 2^32) on a 64-bit size_t | refuse the request with NULL, as the SYSV build does | not executed | MallocApi.CallocAsWritten, MallocApi.CallocWrapToOneByte | MallocApi.Calloc, MallocApi.CallocMeetsRequest |
| src/large.c:201-208 | the retry's result is tested without the `!` the first expand has, so a failed expand to usize_min reports that no move is needed | old usize 0x4000, usize_min 0x5000, usize_max 0x6000, both expands failing | return false only when the retry succeeds, and otherwise go on to the bounds and shrink tests | not executed | Large.NoMoveAsWritten, Large.AsWrittenMisreportsFailedRetry | Large.NoMoveDecision, Large.NoMoveMeaning |
| jemalloc/src/jemalloc.c:398-405 | the fallback `ret = 1` for a failed sysconf is overwritten by the unconditional `ret = (unsigned)result` | sysconf returning -1 gives ncpus 2^32 - 1 and, with a 2 MiB chunk and a thread cache, 262144 arenas | report 1 CPU when sysconf fails | not executed | Arenas.NcpusAsWritten, Arenas.NcpusErrorWraps | Arenas.Ncpus, Arenas.NcpusErrorArenaCount |
