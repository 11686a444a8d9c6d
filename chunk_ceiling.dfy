/**
 * The chunk-size constants and the CHUNK_CEILING rounding macro of
 * include/jemalloc/internal/chunk.h.
 */
module ChunkH {
  import opened Arith

  /** log2 of the default chunk size: 2 MiB chunks. */
  const LG_CHUNK_DEFAULT: nat := 21

  /** What chunk_boot establishes: chunksize is a power of two that a size_t holds. */
  predicate ValidChunksize(chunksize: nat)
  {
    IsPow2(chunksize) && chunksize < SIZE_T_LIMIT
  }

  /**
   * CHUNK_CEILING(s) = (s + chunksize_mask) & ~chunksize_mask, computed in
   * size_t, where chunksize_mask = chunksize - 1.
   */
  function ChunkCeiling(s: nat, chunksize: nat): (r: nat)
    requires ValidChunksize(chunksize) && IsSizeT(s)
    ensures r % chunksize == 0 && IsSizeT(r)
  {
    AlignUp(s, chunksize)
  }

  /**
   * For every size within a chunk of SIZE_T_MAX the result is the smallest
   * chunk multiple at or above it; above that the sum wraps and the result is 0.
   */
  lemma CeilingIsLeastMultiple(s: nat, chunksize: nat, m: nat)
    requires ValidChunksize(chunksize) && IsSizeT(s)
    ensures s <= SIZE_T_LIMIT - chunksize ==>
      s <= ChunkCeiling(s, chunksize) && ChunkCeiling(s, chunksize) - s < chunksize
      && (m % chunksize == 0 && m >= s ==> m >= ChunkCeiling(s, chunksize))
    ensures s > SIZE_T_LIMIT - chunksize ==> ChunkCeiling(s, chunksize) == 0
  {
    AlignUpWrapsIff(s, chunksize);
    if s <= SIZE_T_LIMIT - chunksize {
      AlignUpNoWrap(s, chunksize);
      if m % chunksize == 0 && m >= s {
        AlignUpLeast(s, chunksize, m);
      }
    } else {
      AlignUpWrap(s, chunksize);
    }
  }

  /** CHUNK_CEILING is the identity on chunk multiples, hence idempotent. */
  lemma CeilingIdempotent(s: nat, chunksize: nat)
    requires ValidChunksize(chunksize) && IsSizeT(s)
    ensures s % chunksize == 0 ==> ChunkCeiling(s, chunksize) == s
    ensures ChunkCeiling(ChunkCeiling(s, chunksize), chunksize) == ChunkCeiling(s, chunksize)
  {
    if s % chunksize == 0 {
      AlignUpOfMultiple(s, chunksize);
    }
    AlignUpOfMultiple(ChunkCeiling(s, chunksize), chunksize);
  }

  /** The default chunk size is 2 MiB, a valid chunk size. */
  lemma DefaultChunksize()
    ensures Pow2(LG_CHUNK_DEFAULT) == 0x20_0000
    ensures ValidChunksize(Pow2(LG_CHUNK_DEFAULT))
  {
    Pow2IsPow2(LG_CHUNK_DEFAULT);
    assert Pow2(8) == 256;
    Pow2Add(8, 8);
    Pow2Add(16, 5);
  }
}
