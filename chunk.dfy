/**
 * Chunk recycling and coalescing in src/chunk.c: chunk_record returns a
 * range to an arena's free trees and merges it with its address
 * neighbours; chunk_recycle carves an aligned piece out of the first best
 * fit and gives the lead and trail back to the trees. The split, merge,
 * commit, purge, decommit and dalloc hooks and the extent-node allocator
 * are outcomes passed in by the caller.
 */
module Chunk {
  import opened Arith
  import opened ChunkH
  import opened Extents

  /** What the hooks chunk_record calls report, true meaning failure as in C. */
  datatype RecordHooks = RecordHooks(forwardMergeFails: bool, nodeAllocFails: bool, backwardMergeFails: bool)

  /** What the hooks chunk_recycle calls report, including the chunk_record it may fall back to. */
  datatype RecycleHooks = RecycleHooks(leadSplitFails: bool, trailSplitFails: bool,
                                       trailNodeAllocFails: bool, commitFails: bool,
                                       record: RecordHooks)

  // ---------------------------------------------------------------------
  // chunk_record
  // ---------------------------------------------------------------------

  /** Where [chunk, chunk + size) goes in address order: the first free range at or above its end. */
  function RecordPos(s: seq<Extent>, chunk: nat, size: nat): nat
  {
    NSearch(s, chunk + size)
  }

  /** The free range right after the chunk starts at its end, agrees on commit state, and merges. */
  predicate ForwardMerges(s: seq<Extent>, chunk: nat, size: nat, committed: bool, h: RecordHooks)
  {
    var j := RecordPos(s, chunk, size);
    j < |s| && s[j].addr == chunk + size && s[j].committed == committed && !h.forwardMergeFails
  }

  /** The free range right before the chunk ends at its start, agrees on commit state, and merges. */
  predicate BackwardMerges(s: seq<Extent>, chunk: nat, size: nat, committed: bool, h: RecordHooks)
  {
    var j := RecordPos(s, chunk, size);
    j > 0 && End(s[j - 1]) == chunk && s[j - 1].committed == committed && !h.backwardMergeFails
  }

  /** No forward merge and no extent node for a new entry: the chunk is leaked. */
  predicate Leaks(s: seq<Extent>, chunk: nat, size: nat, committed: bool, h: RecordHooks)
  {
    !ForwardMerges(s, chunk, size, committed, h) && h.nodeAllocFails
  }

  /**
   * The trees after chunk_record: the chunk, widened by the neighbours it
   * merges with, replaces them as one free range. A range from the cache or
   * not known to be zeroed is recorded as not zeroed, and a merged range is
   * zeroed only when all its parts are.
   */
  function Recorded(s: seq<Extent>, chunk: nat, size: nat, zeroed: bool, committed: bool,
                    cache: bool, h: RecordHooks): seq<Extent>
  {
    var j := RecordPos(s, chunk, size);
    if Leaks(s, chunk, size, committed, h) then s
    else
      var mid := ForwardMerged(s, chunk, size, zeroed, committed, cache, h);
      var q := if ForwardMerges(s, chunk, size, committed, h) then j + 1 else j;
      if BackwardMerges(s, chunk, size, committed, h) then Splice(s, j - 1, q, [BackwardMerged(s[j - 1], mid)])
      else Splice(s, j, q, [mid])
  }

  /** The chunk after the forward merge (or as a new range when there is none). */
  function ForwardMerged(s: seq<Extent>, chunk: nat, size: nat, zeroed: bool, committed: bool,
                         cache: bool, h: RecordHooks): Extent
  {
    var unzeroed := cache || !zeroed;
    var j := RecordPos(s, chunk, size);
    if ForwardMerges(s, chunk, size, committed, h) then Extent(chunk, size + s[j].size, s[j].zeroed && !unzeroed, s[j].committed)
    else Extent(chunk, size, !unzeroed, committed)
  }

  /** The predecessor widened over the chunk it merges with. */
  function BackwardMerged(prev: Extent, mid: Extent): Extent
  {
    Extent(prev.addr, prev.size + mid.size, prev.zeroed && mid.zeroed, mid.committed)
  }

  /**
   * Recorded as the edits chunk_record makes: widen the range at the
   * insertion point or insert a new one there, then fold in the predecessor.
   */
  lemma RecordedByEdits(s: seq<Extent>, chunk: nat, size: nat, zeroed: bool, committed: bool, cache: bool, h: RecordHooks,
                        j: nat, m: Extent, t0: seq<Extent>, t: seq<Extent>)
    requires j == NSearch(s, chunk + size)
    requires j < |s| && s[j].addr == chunk + size && s[j].committed == committed && !h.forwardMergeFails ==>
      m == Extent(chunk, size + s[j].size, s[j].zeroed && !(cache || !zeroed), s[j].committed) && t0 == s[j := m]
    requires !(j < |s| && s[j].addr == chunk + size && s[j].committed == committed && !h.forwardMergeFails) ==>
      !h.nodeAllocFails && m == Extent(chunk, size, zeroed && !cache, committed) && t0 == s[..j] + [m] + s[j..]
    requires t == if j > 0 && End(t0[j - 1]) == chunk && t0[j - 1].committed == committed && !h.backwardMergeFails
                  then t0[..j - 1] + [BackwardMerged(t0[j - 1], m)] + t0[j + 1..] else t0
    ensures t == Recorded(s, chunk, size, zeroed, committed, cache, h)
  {
    var q := if ForwardMerges(s, chunk, size, committed, h) then j + 1 else j;
    if ForwardMerges(s, chunk, size, committed, h) {
      UpdateIsSplice(s, j, m);
    } else {
      InsertIsSplice(s, j, m);
    }
    if j > 0 {
      MergeBackIsSplice(s, j - 1, q, m, BackwardMerged(s[j - 1], m));
    }
  }

  /** Without a forward merge or an extent node chunk_record leaves the trees as they were. */
  lemma LeakedState(s: seq<Extent>, chunk: nat, size: nat, zeroed: bool, committed: bool, cache: bool, h: RecordHooks)
    requires !ForwardMerges(s, chunk, size, committed, h) && h.nodeAllocFails
    ensures Recorded(s, chunk, size, zeroed, committed, cache, h) == s
  {
  }

  /** The edits chunk_record makes give the recorded trees, which are well formed. */
  lemma RecordStep(s: seq<Extent>, chunksize: nat, chunk: nat, size: nat, zeroed: bool, committed: bool, cache: bool,
                   h: RecordHooks, j: nat, m: Extent, t0: seq<Extent>, t: seq<Extent>)
    requires Recordable(s, chunksize, chunk, size)
    requires cache ==> !zeroed && forall i :: 0 <= i < |s| ==> !s[i].zeroed
    requires j == NSearch(s, chunk + size)
    requires j < |s| && s[j].addr == chunk + size && s[j].committed == committed && !h.forwardMergeFails ==>
      m == Extent(chunk, size + s[j].size, s[j].zeroed && !(cache || !zeroed), s[j].committed) && t0 == s[j := m]
    requires !(j < |s| && s[j].addr == chunk + size && s[j].committed == committed && !h.forwardMergeFails) ==>
      !h.nodeAllocFails && m == Extent(chunk, size, zeroed && !cache, committed) && t0 == s[..j] + [m] + s[j..]
    requires t == if j > 0 && End(t0[j - 1]) == chunk && t0[j - 1].committed == committed && !h.backwardMergeFails
                  then t0[..j - 1] + [BackwardMerged(t0[j - 1], m)] + t0[j + 1..] else t0
    ensures t == Recorded(s, chunk, size, zeroed, committed, cache, h)
    ensures WellFormed(t, chunksize) && (cache ==> forall i :: 0 <= i < |t| ==> !t[i].zeroed)
  {
    RecordedByEdits(s, chunk, size, zeroed, committed, cache, h, j, m, t0, t);
    RecordedWellFormed(s, chunksize, chunk, size, zeroed, committed, cache, h);
  }

  /** What chunk_record demands: a whole-chunk range that is not already free. */
  predicate Recordable(s: seq<Extent>, chunksize: nat, chunk: nat, size: nat)
  {
    WellFormed(s, chunksize) && size > 0 && chunk % chunksize == 0 && size % chunksize == 0
    && chunk + size <= SIZE_T_LIMIT && RangeFree(s, chunk, size)
  }

  /** The single range that replaces the merged run: its start, end and zeroed flag. */
  function MergedLow(s: seq<Extent>, chunk: nat, size: nat, committed: bool, h: RecordHooks): nat
  {
    if BackwardMerges(s, chunk, size, committed, h) then s[RecordPos(s, chunk, size) - 1].addr else chunk
  }

  function MergedHigh(s: seq<Extent>, chunk: nat, size: nat, committed: bool, h: RecordHooks): nat
  {
    if ForwardMerges(s, chunk, size, committed, h) then End(s[RecordPos(s, chunk, size)]) else chunk + size
  }

  /** The replaced run is s[MergedFirst .. MergedLast]: the chunk's position widened by each neighbour that merges. */
  function MergedFirst(s: seq<Extent>, chunk: nat, size: nat, committed: bool, h: RecordHooks): nat
  {
    var j := RecordPos(s, chunk, size);
    if BackwardMerges(s, chunk, size, committed, h) then j - 1 else j
  }

  function MergedLast(s: seq<Extent>, chunk: nat, size: nat, committed: bool, h: RecordHooks): nat
  {
    var j := RecordPos(s, chunk, size);
    if ForwardMerges(s, chunk, size, committed, h) then j + 1 else j
  }

  /** The merged range as one extent; Recorded splices exactly this in. */
  lemma RecordedShape(s: seq<Extent>, chunk: nat, size: nat, zeroed: bool, committed: bool,
                      cache: bool, h: RecordHooks)
    requires !Leaks(s, chunk, size, committed, h)
    ensures var p, q := MergedFirst(s, chunk, size, committed, h), MergedLast(s, chunk, size, committed, h);
      var j := RecordPos(s, chunk, size);
      var fwd, bwd := ForwardMerges(s, chunk, size, committed, h), BackwardMerges(s, chunk, size, committed, h);
      p <= q <= |s|
      && Recorded(s, chunk, size, zeroed, committed, cache, h)
         == Splice(s, p, q, [Extent(MergedLow(s, chunk, size, committed, h),
                                    MergedHigh(s, chunk, size, committed, h) - MergedLow(s, chunk, size, committed, h),
                                    !(cache || !zeroed) && (fwd ==> s[j].zeroed) && (bwd ==> s[j - 1].zeroed),
                                    committed)])
  {
  }

  /** chunk_record keeps the trees ordered, disjoint and made of whole chunks. */
  lemma RecordedWellFormed(s: seq<Extent>, chunksize: nat, chunk: nat, size: nat, zeroed: bool, committed: bool,
                           cache: bool, h: RecordHooks)
    requires Recordable(s, chunksize, chunk, size)
    ensures WellFormed(Recorded(s, chunk, size, zeroed, committed, cache, h), chunksize)
    ensures (cache && forall k :: 0 <= k < |s| ==> !s[k].zeroed) ==>
      forall k :: 0 <= k < |Recorded(s, chunk, size, zeroed, committed, cache, h)| ==>
        !Recorded(s, chunk, size, zeroed, committed, cache, h)[k].zeroed
  {
    if !Leaks(s, chunk, size, committed, h) {
      RecordedShape(s, chunk, size, zeroed, committed, cache, h);
      var p, q := MergedFirst(s, chunk, size, committed, h), MergedLast(s, chunk, size, committed, h);
      var lo, hi := MergedLow(s, chunk, size, committed, h), MergedHigh(s, chunk, size, committed, h);
      var r := Recorded(s, chunk, size, zeroed, committed, cache, h);
      var m := r[p];
      assert r == Splice(s, p, q, [m]);
      MergedBounds(s, chunksize, chunk, size, committed, h);
      SpanShaped(lo, hi, chunksize, m.zeroed, committed);
      SpliceWellFormed(s, chunksize, p, q, m);
      if cache && forall k :: 0 <= k < |s| ==> !s[k].zeroed {
        SpliceUnzeroed(s, p, q, [m]);
      }
    }
  }

  lemma MergedBounds(s: seq<Extent>, chunksize: nat, chunk: nat, size: nat, committed: bool, h: RecordHooks)
    requires Recordable(s, chunksize, chunk, size)
    ensures MergedHigh(s, chunk, size, committed, h) % chunksize == 0
    ensures MergedLow(s, chunk, size, committed, h) % chunksize == 0
    ensures MergedLow(s, chunk, size, committed, h) <= chunk
    ensures chunk + size <= MergedHigh(s, chunk, size, committed, h) <= SIZE_T_LIMIT
    ensures var p, q := MergedFirst(s, chunk, size, committed, h), MergedLast(s, chunk, size, committed, h);
      p <= q <= |s|
      && (p > 0 ==> End(s[p - 1]) <= MergedLow(s, chunk, size, committed, h))
      && (q < |s| ==> MergedHigh(s, chunk, size, committed, h) <= s[q].addr)
  {
    var j := RecordPos(s, chunk, size);
    InsertionPoint(s, chunk, size);
    var p, q := MergedFirst(s, chunk, size, committed, h), MergedLast(s, chunk, size, committed, h);
    if p > 0 && p < j {
      assert End(s[p - 1]) <= s[j - 1].addr;
    }
    if q < |s| && q > j {
      assert End(s[j]) <= s[q].addr;
    }
    if ForwardMerges(s, chunk, size, committed, h) {
      assert Shaped(s[j], chunksize);
      MultipleSum(s[j].addr, s[j].size, chunksize);
    } else {
      MultipleSum(chunk, size, chunksize);
    }
    if BackwardMerges(s, chunk, size, committed, h) {
      assert Shaped(s[j - 1], chunksize);
    }
  }

  lemma SpanShaped(lo: nat, hi: nat, chunksize: nat, zeroed: bool, committed: bool)
    requires chunksize > 0 && lo % chunksize == 0 && hi % chunksize == 0 && lo < hi <= SIZE_T_LIMIT
    ensures Shaped(Extent(lo, hi - lo, zeroed, committed), chunksize)
  {
    MultipleSum(hi, lo, chunksize);
  }

  /** chunk_record adds exactly the chunk's bytes to the free total, unless the chunk is leaked. */
  lemma RecordedTotal(s: seq<Extent>, chunksize: nat, chunk: nat, size: nat, zeroed: bool, committed: bool,
                      cache: bool, h: RecordHooks)
    requires Recordable(s, chunksize, chunk, size)
    ensures Leaks(s, chunk, size, committed, h) ==> Recorded(s, chunk, size, zeroed, committed, cache, h) == s
    ensures !Leaks(s, chunk, size, committed, h) ==>
      Total(Recorded(s, chunk, size, zeroed, committed, cache, h)) == Total(s) + size
  {
    if !Leaks(s, chunk, size, committed, h) {
      RecordedShape(s, chunk, size, zeroed, committed, cache, h);
      InsertionPoint(s, chunk, size);
      var p, q := MergedFirst(s, chunk, size, committed, h), MergedLast(s, chunk, size, committed, h);
      var r := Recorded(s, chunk, size, zeroed, committed, cache, h);
      SpliceParts(s, p, q, [r[p]]);
      assert r == Splice(s, p, q, [r[p]]);
      TotalSmall(s[p..q]);
      TotalSmall([r[p]]);
    }
  }
  /** With an extent node to hand nothing leaks: the chunk's bytes join the free total. */
  lemma RecordedAdds(s: seq<Extent>, chunksize: nat, chunk: nat, size: nat, zeroed: bool, committed: bool,
                     cache: bool, h: RecordHooks)
    requires Recordable(s, chunksize, chunk, size) && !h.nodeAllocFails
    ensures Total(Recorded(s, chunk, size, zeroed, committed, cache, h)) == Total(s) + size
  {
    RecordedTotal(s, chunksize, chunk, size, zeroed, committed, cache, h);
  }


  /** The free addresses after chunk_record are the old ones plus the chunk's, unless it is leaked. */
  lemma RecordedCovers(s: seq<Extent>, chunksize: nat, chunk: nat, size: nat, zeroed: bool, committed: bool,
                       cache: bool, h: RecordHooks, x: nat)
    requires Recordable(s, chunksize, chunk, size)
    requires !Leaks(s, chunk, size, committed, h)
    ensures Covers(Recorded(s, chunk, size, zeroed, committed, cache, h), x)
            == (Covers(s, x) || chunk <= x < chunk + size)
  {
    RecordedShape(s, chunk, size, zeroed, committed, cache, h);
    InsertionPoint(s, chunk, size);
    var p, q := MergedFirst(s, chunk, size, committed, h), MergedLast(s, chunk, size, committed, h);
    var r := Recorded(s, chunk, size, zeroed, committed, cache, h);
    assert r == Splice(s, p, q, [r[p]]);
    SpliceCovers(s, p, q, [r[p]], x);
    CoversSingle(r[p], x);
    CoversSmall(s[p..q], x);
  }

  /**
   * The effect of coalescing on the number of free ranges: the chunk adds
   * one, and each neighbour it merges with removes one (the predecessor is
   * taken out of both trees).
   */
  lemma RecordedCount(s: seq<Extent>, chunksize: nat, chunk: nat, size: nat, zeroed: bool, committed: bool,
                      cache: bool, h: RecordHooks)
    requires Recordable(s, chunksize, chunk, size)
    requires !Leaks(s, chunk, size, committed, h)
    ensures |Recorded(s, chunk, size, zeroed, committed, cache, h)|
            == |s| + 1 - (if ForwardMerges(s, chunk, size, committed, h) then 1 else 0)
                       - (if BackwardMerges(s, chunk, size, committed, h) then 1 else 0)
    ensures var lo, hi := MergedLow(s, chunk, size, committed, h), MergedHigh(s, chunk, size, committed, h);
      exists k :: 0 <= k < |Recorded(s, chunk, size, zeroed, committed, cache, h)|
        && Recorded(s, chunk, size, zeroed, committed, cache, h)[k].addr == lo
        && End(Recorded(s, chunk, size, zeroed, committed, cache, h)[k]) == hi
  {
    RecordedShape(s, chunk, size, zeroed, committed, cache, h);
    InsertionPoint(s, chunk, size);
    var p := MergedFirst(s, chunk, size, committed, h);
    assert Recorded(s, chunk, size, zeroed, committed, cache, h)[p].addr == MergedLow(s, chunk, size, committed, h);
  }

  lemma TotalSmall(t: seq<Extent>)
    requires |t| <= 2
    ensures Total(t) == (if |t| == 0 then 0 else t[0].size + (if |t| == 2 then t[1].size else 0))
  {
    if |t| > 0 {
      assert Total(t[1..]) == (if |t| == 2 then t[1].size else 0) by {
        if |t| == 2 {
          assert t[1..][0] == t[1];
          assert t[1..][1..] == [];
        }
      }
    }
  }

  lemma CoversSmall(t: seq<Extent>, x: nat)
    requires |t| <= 2
    ensures Covers(t, x) == ((|t| >= 1 && Within(t[0], x)) || (|t| == 2 && Within(t[1], x)))
  {
    if |t| == 2 {
      assert t == [t[0]] + [t[1]];
      CoversConcat([t[0]], [t[1]], x);
      CoversSingle(t[0], x);
      CoversSingle(t[1], x);
    } else if |t| == 1 {
      assert t == [t[0]];
      CoversSingle(t[0], x);
    }
  }

  // ---------------------------------------------------------------------
  // chunk_recycle
  // ---------------------------------------------------------------------

  /** chunk_recycle's search size: CHUNK_CEILING of the size class of size + alignment - chunksize. */
  function AllocSize(usize: nat, chunksize: nat): nat
    requires ValidChunksize(chunksize) && IsSizeT(usize)
  {
    ChunkCeiling(usize, chunksize)
  }

  /**
   * The free range chunk_recycle takes: the one at newAddr when a specific
   * address is asked for and it holds `size` bytes, else the first best fit
   * for allocSize.
   */
  function Candidate(s: seq<Extent>, newAddr: Option<nat>, allocSize: nat, size: nat): (r: Option<nat>)
    requires Sorted(s)
    ensures r.Some? ==> r.value < |s|
  {
    match newAddr
    case Some(a) =>
      var k := AddrSearch(s, a);
      if k.Some? && s[k.value].size >= size then k else None
    case None => FirstBestFit(s, allocSize)
  }

  /** The gap between a range's start and the first `alignment` boundary in it. */
  function LeadSize(e: Extent, alignment: nat): nat
    requires alignment > 0
  {
    RoundUp(e.addr, alignment) - e.addr
  }

  /** The lead of s[k], when it is not empty, as a free range of its own. */
  function LeadPart(e: Extent, lead: nat): seq<Extent>
  {
    if lead != 0 then [Extent(e.addr, lead, e.zeroed, e.committed)] else []
  }

  /** The trail of s[k] beyond the carved piece, when it is not empty. */
  function TrailPart(e: Extent, lead: nat, size: nat): seq<Extent>
    requires lead + size <= e.size
  {
    var trail := e.size - lead - size;
    if trail != 0 then [Extent(e.addr + lead + size, trail, e.zeroed, e.committed)] else []
  }

  /** The trees with s[k] taken out and only its lead put back. */
  function LeadOnly(s: seq<Extent>, k: nat, lead: nat): seq<Extent>
    requires k < |s|
  {
    Splice(s, k, k + 1, LeadPart(s[k], lead))
  }

  /** The trees with [s[k].addr + lead, + size) carved out of s[k]. */
  function Carved(s: seq<Extent>, k: nat, lead: nat, size: nat): seq<Extent>
    requires k < |s| && lead + size <= s[k].size
  {
    Splice(s, k, k + 1, LeadPart(s[k], lead) + TrailPart(s[k], lead, size))
  }

  /** A hook failure after the range was chosen: the lead split, the trail split or node, or the commit. */
  predicate RecycleFails(e: Extent, lead: nat, size: nat, h: RecycleHooks)
    requires lead + size <= e.size
  {
    var trail := e.size - lead - size;
    (lead != 0 && h.leadSplitFails)
    || (trail != 0 && (h.trailSplitFails || (lead != 0 && h.trailNodeAllocFails)))
    || (!e.committed && h.commitFails)
  }

  /**
   * The trees after chunk_recycle took s[k]: untouched when the lead split
   * fails; the lead kept and the rest recorded again when the trail split or
   * its node fails; the carved piece recorded again when the commit fails;
   * otherwise the piece is allocated and the lead and trail stay free.
   */
  function RecycleState(s: seq<Extent>, k: nat, lead: nat, size: nat, cache: bool, h: RecycleHooks): seq<Extent>
    requires k < |s| && lead + size <= s[k].size
  {
    var e := s[k];
    var trail := e.size - lead - size;
    var ret := e.addr + lead;
    if lead != 0 && h.leadSplitFails then s
    else if trail != 0 && (h.trailSplitFails || (lead != 0 && h.trailNodeAllocFails)) then
      Recorded(LeadOnly(s, k, lead), ret, e.size - lead, e.zeroed, e.committed, cache, h.record)
    else if !e.committed && h.commitFails then
      Recorded(Carved(s, k, lead, size), ret, size, e.zeroed, e.committed, cache, h.record)
    else Carved(s, k, lead, size)
  }

  /** What the carve of s[k] demands: a whole-chunk lead and piece inside it. */
  predicate Carvable(s: seq<Extent>, chunksize: nat, k: nat, lead: nat, size: nat)
  {
    WellFormed(s, chunksize) && k < |s| && size > 0 && lead % chunksize == 0 && size % chunksize == 0
    && lead + size <= s[k].size
  }

  /** The lead and the trail are whole-chunk ranges inside s[k], in address order around the piece. */
  lemma CarvedParts(s: seq<Extent>, chunksize: nat, k: nat, lead: nat, size: nat)
    requires Carvable(s, chunksize, k, lead, size)
    ensures var mid := LeadPart(s[k], lead) + TrailPart(s[k], lead, size);
      Sorted(mid) && (forall i :: 0 <= i < |mid| ==> Shaped(mid[i], chunksize))
      && (forall i :: 0 <= i < |mid| ==> s[k].addr <= mid[i].addr && End(mid[i]) <= End(s[k]))
      && Total(mid) + size == s[k].size
  {
    var e := s[k];
    assert Shaped(e, chunksize);
    var l, t := LeadPart(e, lead), TrailPart(e, lead, size);
    LeadShaped(e, chunksize, lead);
    TrailShaped(e, chunksize, lead, size);
    TotalConcat(l, t);
    TotalSmall(l);
    TotalSmall(t);
    var mid := l + t;
    forall i | 0 <= i < |mid|
      ensures Shaped(mid[i], chunksize) && e.addr <= mid[i].addr && End(mid[i]) <= End(e)
    {
      if i < |l| {
        assert mid[i] == l[0];
      } else {
        assert mid[i] == t[0];
      }
    }
    forall i, j | 0 <= i < j < |mid|
      ensures End(mid[i]) <= mid[j].addr
    {
      assert mid[i] == l[0] && mid[j] == t[0];
    }
  }

  lemma LeadShaped(e: Extent, chunksize: nat, lead: nat)
    requires chunksize > 0 && Shaped(e, chunksize) && lead % chunksize == 0 && lead <= e.size
    ensures |LeadPart(e, lead)| <= 1
    ensures lead != 0 ==> var l := LeadPart(e, lead)[0];
      Shaped(l, chunksize) && l.addr == e.addr && End(l) == e.addr + lead && l.size == lead
  {
  }

  lemma TrailShaped(e: Extent, chunksize: nat, lead: nat, size: nat)
    requires chunksize > 0 && Shaped(e, chunksize) && lead % chunksize == 0 && size % chunksize == 0
    requires lead + size <= e.size
    ensures |TrailPart(e, lead, size)| <= 1
    ensures |TrailPart(e, lead, size)| == 1 ==> var t := TrailPart(e, lead, size)[0];
      Shaped(t, chunksize) && t.addr == e.addr + lead + size && End(t) == End(e) && t.size == e.size - lead - size
  {
    if e.size - lead - size != 0 {
      MultipleSum(e.addr, lead, chunksize);
      MultipleSum(e.addr + lead, size, chunksize);
      MultipleSum(lead, size, chunksize);
      MultipleSum(e.size, lead + size, chunksize);
    }
  }

  lemma NeighboursOf(s: seq<Extent>, k: nat, mid: seq<Extent>)
    requires Sorted(s) && k < |s|
    requires forall i :: 0 <= i < |mid| ==> s[k].addr <= mid[i].addr && End(mid[i]) <= End(s[k])
    ensures k > 0 ==> forall i :: 0 <= i < |mid| ==> End(s[k - 1]) <= mid[i].addr
    ensures k + 1 < |s| ==> forall i :: 0 <= i < |mid| ==> End(mid[i]) <= s[k + 1].addr
  {
  }

  /** Carving keeps the trees ordered, disjoint and made of whole chunks. */
  lemma CarvedWellFormed(s: seq<Extent>, chunksize: nat, k: nat, lead: nat, size: nat)
    requires Carvable(s, chunksize, k, lead, size)
    ensures WellFormed(Carved(s, k, lead, size), chunksize)
  {
    var mid := LeadPart(s[k], lead) + TrailPart(s[k], lead, size);
    CarvedParts(s, chunksize, k, lead, size);
    NeighboursOf(s, k, mid);
    SpliceSorted(s, k, k + 1, mid);
    SpliceShaped(s, k, k + 1, mid, chunksize);
  }

  /** Carving removes exactly `size` free bytes. */
  lemma CarvedTotal(s: seq<Extent>, chunksize: nat, k: nat, lead: nat, size: nat)
    requires Carvable(s, chunksize, k, lead, size)
    ensures Total(Carved(s, k, lead, size)) + size == Total(s)
  {
    var mid := LeadPart(s[k], lead) + TrailPart(s[k], lead, size);
    CarvedParts(s, chunksize, k, lead, size);
    SpliceParts(s, k, k + 1, mid);
    TotalSmall(s[k..k + 1]);
  }

  /** Carving an unzeroed range leaves only unzeroed ranges. */
  lemma CarvedUnzeroed(s: seq<Extent>, k: nat, lead: nat, size: nat)
    requires k < |s| && lead + size <= s[k].size
    requires forall i :: 0 <= i < |s| ==> !s[i].zeroed
    ensures forall i :: 0 <= i < |Carved(s, k, lead, size)| ==> !Carved(s, k, lead, size)[i].zeroed
  {
    var mid := LeadPart(s[k], lead) + TrailPart(s[k], lead, size);
    assert forall i :: 0 <= i < |mid| ==> !mid[i].zeroed;
    SpliceUnzeroed(s, k, k + 1, mid);
  }

  /** An address at or past a range's start is in none of the ranges before it, and one before its end in none after. */
  lemma OutsideOthers(s: seq<Extent>, k: nat, x: nat)
    requires Sorted(s) && k < |s|
    ensures x >= s[k].addr ==> !Covers(s[..k], x)
    ensures x < End(s[k]) ==> !Covers(s[k + 1..], x)
  {
  }

  /** After the carve exactly the returned piece has stopped being free; it was free before. */
  lemma CarvedCovers(s: seq<Extent>, chunksize: nat, k: nat, lead: nat, size: nat, x: nat)
    requires Carvable(s, chunksize, k, lead, size)
    ensures var ret := s[k].addr + lead;
      Covers(Carved(s, k, lead, size), x) == (Covers(s, x) && !(ret <= x < ret + size))
    ensures var ret := s[k].addr + lead;
      ret <= x < ret + size ==> Covers(s, x)
  {
    var e := s[k];
    var mid := LeadPart(e, lead) + TrailPart(e, lead, size);
    SpliceCovers(s, k, k + 1, mid, x);
    CoversConcat(LeadPart(e, lead), TrailPart(e, lead, size), x);
    CoversSmall(LeadPart(e, lead), x);
    CoversSmall(TrailPart(e, lead, size), x);
    CoversSmall(s[k..k + 1], x);
    OutsideOthers(s, k, x);
  }

  /** The lead-only state (the trail split failed): the rest of s[k] is free to record. */
  lemma LeadOnlyRecordable(s: seq<Extent>, chunksize: nat, k: nat, lead: nat, size: nat)
    requires Carvable(s, chunksize, k, lead, size)
    ensures Recordable(LeadOnly(s, k, lead), chunksize, s[k].addr + lead, s[k].size - lead)
  {
    LeadOnlyWellFormed(s, chunksize, k, lead, size);
    LeadOnlyRangeFree(s, chunksize, k, lead, size);
    RestShaped(s, chunksize, k, lead, size);
  }

  /** What follows the lead in s[k] is a whole-chunk range. */
  lemma RestShaped(s: seq<Extent>, chunksize: nat, k: nat, lead: nat, size: nat)
    requires Carvable(s, chunksize, k, lead, size)
    ensures (s[k].addr + lead) % chunksize == 0 && (s[k].size - lead) % chunksize == 0 && s[k].size - lead > 0
    ensures s[k].addr + lead + (s[k].size - lead) <= SIZE_T_LIMIT
  {
    assert Shaped(s[k], chunksize);
    MultipleSum(s[k].addr, lead, chunksize);
    MultipleSum(s[k].size, lead, chunksize);
  }

  /** Keeping only the lead of s[k] keeps the trees well formed. */
  lemma LeadOnlyWellFormed(s: seq<Extent>, chunksize: nat, k: nat, lead: nat, size: nat)
    requires Carvable(s, chunksize, k, lead, size)
    ensures WellFormed(LeadOnly(s, k, lead), chunksize)
  {
    var e := s[k];
    var mid := LeadPart(e, lead);
    assert Shaped(e, chunksize);
    LeadShaped(e, chunksize, lead);
    assert forall i :: 0 <= i < |mid| ==> mid[i] == mid[0];
    NeighboursOf(s, k, mid);
    SpliceSorted(s, k, k + 1, mid);
    SpliceShaped(s, k, k + 1, mid, chunksize);
  }

  /** Keeping only the lead of s[k] drops the rest of it from the free total. */
  lemma LeadOnlyTotal(s: seq<Extent>, chunksize: nat, k: nat, lead: nat, size: nat)
    requires Carvable(s, chunksize, k, lead, size)
    ensures Total(LeadOnly(s, k, lead)) + (s[k].size - lead) == Total(s)
  {
    var mid := LeadPart(s[k], lead);
    TotalSmall(mid);
    SpliceParts(s, k, k + 1, mid);
    TotalSmall(s[k..k + 1]);
  }

  /** Keeping only the lead of an unzeroed range leaves only unzeroed ranges. */
  lemma LeadOnlyUnzeroed(s: seq<Extent>, k: nat, lead: nat)
    requires k < |s|
    requires forall i :: 0 <= i < |s| ==> !s[i].zeroed
    ensures forall i :: 0 <= i < |LeadOnly(s, k, lead)| ==> !LeadOnly(s, k, lead)[i].zeroed
  {
    var mid := LeadPart(s[k], lead);
    assert forall i :: 0 <= i < |mid| ==> !mid[i].zeroed;
    SpliceUnzeroed(s, k, k + 1, mid);
  }

  lemma LeadOnlyRangeFree(s: seq<Extent>, chunksize: nat, k: nat, lead: nat, size: nat)
    requires Carvable(s, chunksize, k, lead, size)
    ensures RangeFree(LeadOnly(s, k, lead), s[k].addr + lead, s[k].size - lead)
  {
    var e := s[k];
    var mid := LeadPart(e, lead);
    var r := LeadOnly(s, k, lead);
    forall i | 0 <= i < |r|
      ensures End(r[i]) <= e.addr + lead || End(e) <= r[i].addr
    {
      if i < k {
        assert r[i] == s[i];
      } else if i < k + |mid| {
        assert r[i] == mid[0];
      } else {
        assert r[i] == s[i - |mid| + 1];
      }
    }
  }

  /** The carved state (the commit failed): the carved piece is free to record again. */
  lemma CarvedRecordable(s: seq<Extent>, chunksize: nat, k: nat, lead: nat, size: nat)
    requires Carvable(s, chunksize, k, lead, size)
    ensures Recordable(Carved(s, k, lead, size), chunksize, s[k].addr + lead, size)
  {
    var e := s[k];
    var r := Carved(s, k, lead, size);
    CarvedWellFormed(s, chunksize, k, lead, size);
    MultipleSum(e.addr, lead, chunksize);
    forall i | 0 <= i < |r|
      ensures End(r[i]) <= e.addr + lead || e.addr + lead + size <= r[i].addr
    {
      var x := e.addr + lead;
      if !(End(r[i]) <= x || x + size <= r[i].addr) {
        var y := if r[i].addr > x then r[i].addr else x;
        assert Within(r[i], y);
        assert Covers(r, y);
        CarvedCovers(s, chunksize, k, lead, size, y);
        assert false;
      }
    }
  }

  /**
   * A recycle that fails after choosing its range loses no free bytes unless
   * chunk_record cannot get an extent node for what it gives back; a
   * recycle that succeeds removes exactly `size` bytes.
   */
  lemma RecycleStateTotal(s: seq<Extent>, chunksize: nat, k: nat, lead: nat, size: nat, cache: bool, h: RecycleHooks)
    requires Carvable(s, chunksize, k, lead, size)
    ensures !RecycleFails(s[k], lead, size, h) ==> Total(RecycleState(s, k, lead, size, cache, h)) + size == Total(s)
    ensures RecycleFails(s[k], lead, size, h) && !h.record.nodeAllocFails ==>
              Total(RecycleState(s, k, lead, size, cache, h)) == Total(s)
  {
    var e := s[k];
    var trail := e.size - lead - size;
    RecycleStateCases(s, k, lead, size, cache, h);
    if lead != 0 && h.leadSplitFails {
    } else if trail != 0 && (h.trailSplitFails || (lead != 0 && h.trailNodeAllocFails)) {
      LeadOnlyRecordable(s, chunksize, k, lead, size);
      LeadOnlyTotal(s, chunksize, k, lead, size);
      RestTotal(s, chunksize, k, lead, cache, h.record);
    } else if !e.committed && h.commitFails {
      CarvedRecordable(s, chunksize, k, lead, size);
      CarvedTotal(s, chunksize, k, lead, size);
      PieceTotal(s, chunksize, k, lead, size, cache, h.record);
    } else {
      CarvedTotal(s, chunksize, k, lead, size);
    }
  }

  /** The four outcomes of RecycleState, one per hook failure. */
  lemma RecycleStateCases(s: seq<Extent>, k: nat, lead: nat, size: nat, cache: bool, h: RecycleHooks)
    requires k < |s| && lead + size <= s[k].size
    ensures var e, r := s[k], RecycleState(s, k, lead, size, cache, h);
      var trail := e.size - lead - size;
      if lead != 0 && h.leadSplitFails then r == s
      else if trail != 0 && (h.trailSplitFails || (lead != 0 && h.trailNodeAllocFails)) then
        r == Recorded(LeadOnly(s, k, lead), e.addr + lead, e.size - lead, e.zeroed, e.committed, cache, h.record)
      else if !e.committed && h.commitFails then
        r == Recorded(Carved(s, k, lead, size), e.addr + lead, size, e.zeroed, e.committed, cache, h.record)
      else r == Carved(s, k, lead, size)
  {
  }

  /** The trail split or its node failed: the rest of s[k] comes back free unless its node cannot be had. */
  lemma RestTotal(s: seq<Extent>, chunksize: nat, k: nat, lead: nat, cache: bool, h: RecordHooks)
    requires k < |s| && lead <= s[k].size
    requires Recordable(LeadOnly(s, k, lead), chunksize, s[k].addr + lead, s[k].size - lead)
    requires Total(LeadOnly(s, k, lead)) + (s[k].size - lead) == Total(s)
    ensures !h.nodeAllocFails ==>
      Total(Recorded(LeadOnly(s, k, lead), s[k].addr + lead, s[k].size - lead, s[k].zeroed, s[k].committed, cache, h)) == Total(s)
  {
    if !h.nodeAllocFails {
      RecordedAdds(LeadOnly(s, k, lead), chunksize, s[k].addr + lead, s[k].size - lead, s[k].zeroed, s[k].committed, cache, h);
    }
  }

  /** The commit failed: the carved piece comes back free unless its node cannot be had. */
  lemma PieceTotal(s: seq<Extent>, chunksize: nat, k: nat, lead: nat, size: nat, cache: bool, h: RecordHooks)
    requires k < |s| && lead + size <= s[k].size
    requires Recordable(Carved(s, k, lead, size), chunksize, s[k].addr + lead, size)
    requires Total(Carved(s, k, lead, size)) + size == Total(s)
    ensures !h.nodeAllocFails ==>
      Total(Recorded(Carved(s, k, lead, size), s[k].addr + lead, size, s[k].zeroed, s[k].committed, cache, h)) == Total(s)
  {
    if !h.nodeAllocFails {
      RecordedAdds(Carved(s, k, lead, size), chunksize, s[k].addr + lead, size, s[k].zeroed, s[k].committed, cache, h);
    }
  }

  /**
   * The lead before an `alignment` boundary in a chunk-aligned range is a
   * whole number of chunks short of a full alignment.
   */
  lemma LeadBound(addr: nat, alignment: nat, chunksize: nat)
    requires ValidChunksize(chunksize) && IsPow2(alignment) && chunksize <= alignment
    requires addr % chunksize == 0
    ensures RoundUp(addr, alignment) - addr <= alignment - chunksize
    ensures (RoundUp(addr, alignment) - addr) % chunksize == 0
  {
    var r := RoundUp(addr, alignment);
    Pow2Divides(chunksize, alignment);
    ModTransitive(r, alignment, chunksize);
    MultipleSum(r, addr, chunksize);
    MultipleSum(addr, alignment, chunksize);
    if r > addr + alignment - chunksize {
      MultiplesSpaced(r, addr + alignment, chunksize);
      assert false;
    }
  }

  /**
   * When the search size covers `size`, no wrap-around happened, and the
   * search size is at least size + alignment - chunksize: the room a lead
   * can take.
   */
  lemma AllocSizeCovers(size: nat, alignment: nat, chunksize: nat, usize: nat)
    requires ValidChunksize(chunksize) && IsPow2(alignment) && chunksize <= alignment < SIZE_T_LIMIT
    requires IsSizeT(size) && size > 0
    requires IsSizeT(usize) && Wrap(size + alignment - chunksize) <= usize <= SIZE_T_LIMIT / 2
    requires AllocSize(usize, chunksize) >= size
    ensures AllocSize(usize, chunksize) >= size + alignment - chunksize
  {
    var half := SIZE_T_LIMIT / 2;
    Pow2DividesLimit(alignment);
    MultiplesSpaced(alignment, SIZE_T_LIMIT, alignment);
    assert half * 2 == SIZE_T_LIMIT;
    Pow2DividesLimit(chunksize);
    MultiplesSpaced(chunksize, SIZE_T_LIMIT, chunksize);
    assert chunksize <= half;
    assert half % chunksize == 0 by {
      Pow2SixtyFour();
      assert Pow2(64) == Pow2(63) * 2;
      Pow2IsPow2(63);
      Pow2Divides(chunksize, half);
    }
    AlignUpNoWrap(usize, chunksize);
    AlignUpLeast(usize, chunksize, half);
    assert Wrap(size + alignment - chunksize) == size + alignment - chunksize by {
      DivModUnique(size + alignment - chunksize, SIZE_T_LIMIT, 0, size + alignment - chunksize);
    }
  }

  /** The lead fits: the carved piece lies inside the candidate, and the size_t rounding does not wrap. */
  lemma CandidateFits(e: Extent, chunksize: nat, alignment: nat, size: nat, room: nat, byAddr: bool)
    requires ValidChunksize(chunksize) && Shaped(e, chunksize)
    requires IsPow2(alignment) && chunksize <= alignment < SIZE_T_LIMIT
    requires size > 0
    requires byAddr ==> alignment == chunksize && e.size >= size
    requires !byAddr ==> e.size >= room && room >= size + alignment - chunksize
    ensures AlignUp(e.addr, alignment) == RoundUp(e.addr, alignment)
    ensures LeadSize(e, alignment) + size <= e.size
    ensures LeadSize(e, alignment) % chunksize == 0
    ensures byAddr ==> LeadSize(e, alignment) == 0
  {
    LeadBound(e.addr, alignment, chunksize);
    assert RoundUp(e.addr, alignment) < SIZE_T_LIMIT;
    AlignUpIsRoundUp(e.addr, alignment);
  }

  // ---------------------------------------------------------------------
  // The trees as mutable state
  // ---------------------------------------------------------------------

  /**
   * The edits chunk_record makes to the trees s: coalesce forward with the
   * range at chunk + size, or insert a new range (leaking the chunk when no
   * extent node can be had), then coalesce backward with the predecessor.
   */
  method RecordInto(s: seq<Extent>, chunksize: nat, cache: bool, chunk: nat, size: nat, zeroed: bool, committed: bool,
                    h: RecordHooks) returns (t: seq<Extent>)
    requires Recordable(s, chunksize, chunk, size)
    requires cache ==> !zeroed && forall i :: 0 <= i < |s| ==> !s[i].zeroed
    ensures t == Recorded(s, chunk, size, zeroed, committed, cache, h)
    ensures WellFormed(t, chunksize) && (cache ==> forall i :: 0 <= i < |t| ==> !t[i].zeroed)
  {
    var j := NSearch(s, chunk + size);
    var forward := j < |s| && s[j].addr == chunk + size && s[j].committed == committed && !h.forwardMergeFails;
    if !forward && h.nodeAllocFails {
      LeakedState(s, chunk, size, zeroed, committed, cache, h);
      return s;
    }
    var m := if forward then Extent(chunk, size + s[j].size, s[j].zeroed && !(cache || !zeroed), s[j].committed)
             else Extent(chunk, size, zeroed && !cache, committed);
    var t0 := if forward then s[j := m] else s[..j] + [m] + s[j..];
    t := if j > 0 && End(t0[j - 1]) == chunk && t0[j - 1].committed == committed && !h.backwardMergeFails
         then t0[..j - 1] + [BackwardMerged(t0[j - 1], m)] + t0[j + 1..] else t0;
    RecordStep(s, chunksize, chunk, size, zeroed, committed, cache, h, j, m, t0, t);
  }

  /** chunk_recycle once it has found its candidate s[k]: raise *zero and *commit, then carve. */
  method TakeFrom(s: seq<Extent>, chunksize: nat, cache: bool, newAddr: Option<nat>, size: nat, alignment: nat,
                  usize: nat, zero: bool, commit: bool, h: RecycleHooks, k: nat)
    returns (r: seq<Extent>, ret: Option<nat>, zeroOut: bool, commitOut: bool)
    requires ValidChunksize(chunksize) && WellFormed(s, chunksize)
    requires cache ==> forall i :: 0 <= i < |s| ==> !s[i].zeroed
    requires IsSizeT(size) && size > 0 && size % chunksize == 0
    requires IsPow2(alignment) && chunksize <= alignment < SIZE_T_LIMIT
    requires newAddr.Some? ==> alignment == chunksize
    requires IsSizeT(usize) && (usize == 0 || Wrap(size + alignment - chunksize) <= usize <= SIZE_T_LIMIT / 2)
    requires AllocSize(usize, chunksize) >= size
    requires Candidate(s, newAddr, AllocSize(usize, chunksize), size) == Some(k)
    ensures WellFormed(r, chunksize) && (cache ==> forall i :: 0 <= i < |r| ==> !r[i].zeroed)
    ensures Recycled(s, r, chunksize, cache, newAddr, size, alignment, usize, zero, commit, h, ret, zeroOut, commitOut)
  {
    RecyclePlan(s, chunksize, newAddr, size, alignment, usize, k);
    var e := s[k];
    var lead := AlignUp(e.addr, alignment) - e.addr;
    zeroOut, commitOut := zero, commit;
    if e.zeroed {
      zeroOut := true;
    }
    if e.committed {
      commitOut := true;
    }
    var ok;
    ok, r := CarveFrom(s, chunksize, cache, k, lead, size, h);
    if ok {
      ret := Some(e.addr + lead);
    } else {
      ret := None;
    }
    PieceRecycled(s, r, chunksize, cache, newAddr, size, alignment, usize, zero, commit, h, k, lead, ok,
                  ret, zeroOut, commitOut);
  }

  /**
   * The carve once chunk_recycle has chosen s[k]: the range leaves both
   * trees, its lead and trail go back as free ranges and the piece is
   * committed; on a hook failure what was taken is given back, recorded
   * again when the split or the commit could not be done.
   */
  method CarveFrom(s: seq<Extent>, chunksize: nat, cache: bool, k: nat, lead: nat, size: nat, h: RecycleHooks)
    returns (ok: bool, r: seq<Extent>)
    requires ValidChunksize(chunksize) && Carvable(s, chunksize, k, lead, size)
    requires cache ==> forall i :: 0 <= i < |s| ==> !s[i].zeroed
    ensures WellFormed(r, chunksize) && (cache ==> forall i :: 0 <= i < |r| ==> !r[i].zeroed)
    ensures ok == !RecycleFails(s[k], lead, size, h)
    ensures r == RecycleState(s, k, lead, size, cache, h)
  {
    var e := s[k];
    var trail := e.size - lead - size;
    if lead != 0 && h.leadSplitFails {
      LeadFailsState(s, k, lead, size, cache, h);
      return false, s;
    }
    if trail != 0 && (h.trailSplitFails || (lead != 0 && h.trailNodeAllocFails)) {
      // The whole rest of the range goes back through chunk_record.
      LeadOnlyRecordable(s, chunksize, k, lead, size);
      if cache {
        LeadOnlyUnzeroed(s, k, lead);
      }
      r := RecordInto(LeadOnly(s, k, lead), chunksize, cache, s[k].addr + lead, s[k].size - lead, s[k].zeroed,
                      s[k].committed, h.record);
      RestIsRecorded(s, k, lead, size, cache, h);
      return false, r;
    }
    // The range leaves both trees; a lead is put back in its place.
    var t := if lead != 0 then s[k := Extent(e.addr, lead, e.zeroed, e.committed)] else s[..k] + s[k + 1..];
    LeadOnlyByEdit(s, k, lead, t);
    ok, r := CarvePiece(s, chunksize, cache, k, lead, size, h, t);
  }

  /** The carve after the trail split: put the trail back beside the lead, then commit the piece. */
  method CarvePiece(s: seq<Extent>, chunksize: nat, cache: bool, k: nat, lead: nat, size: nat, h: RecycleHooks,
                    t: seq<Extent>) returns (ok: bool, r: seq<Extent>)
    requires ValidChunksize(chunksize) && Carvable(s, chunksize, k, lead, size)
    requires cache ==> forall i :: 0 <= i < |s| ==> !s[i].zeroed
    requires !(lead != 0 && h.leadSplitFails)
    requires var trail := s[k].size - lead - size;
      !(trail != 0 && (h.trailSplitFails || (lead != 0 && h.trailNodeAllocFails)))
    requires t == LeadOnly(s, k, lead)
    ensures WellFormed(r, chunksize) && (cache ==> forall i :: 0 <= i < |r| ==> !r[i].zeroed)
    ensures ok == !RecycleFails(s[k], lead, size, h)
    ensures r == RecycleState(s, k, lead, size, cache, h)
  {
    var e := s[k];
    var trail := e.size - lead - size;
    var pos := if lead != 0 then k + 1 else k;
    var u := if trail != 0 then t[..pos] + [Extent(e.addr + lead + size, trail, e.zeroed, e.committed)] + t[pos..] else t;
    CarvedByEdit(s, k, lead, size, t, u);
    CarvedWellFormed(s, chunksize, k, lead, size);
    if cache {
      CarvedUnzeroed(s, k, lead, size);
    }
    if !e.committed && h.commitFails {
      CarvedRecordable(s, chunksize, k, lead, size);
      r := RecordInto(u, chunksize, cache, e.addr + lead, size, e.zeroed, e.committed, h.record);
      PieceState(s, k, lead, size, cache, h, u, r);
      return false, r;
    }
    CarvedState(s, k, lead, size, cache, h, u);
    ok, r := true, u;
  }

  /**
   * One pair of extent trees (the cached pair or the retained pair of an
   * arena). Cached chunks are never recorded as zeroed.
   */
  class ExtentTree {
    const chunksize: nat
    const cache: bool
    var extents: seq<Extent>

    predicate Valid()
      reads this
    {
      ValidChunksize(chunksize) && WellFormed(extents, chunksize)
      && (cache ==> forall i :: 0 <= i < |extents| ==> !extents[i].zeroed)
    }

    constructor (chunksize: nat, cache: bool)
      requires ValidChunksize(chunksize)
      ensures Valid() && this.chunksize == chunksize && this.cache == cache && extents == []
    {
      this.chunksize := chunksize;
      this.cache := cache;
      extents := [];
    }

    /**
     * chunk_record: coalesce forward with the range at chunk + size, or
     * insert a new range (leaking the chunk when no extent node can be
     * had), then coalesce backward with the predecessor.
     */
    method Record(chunk: nat, size: nat, zeroed: bool, committed: bool, h: RecordHooks)
      requires Valid() && Recordable(extents, chunksize, chunk, size)
      requires !cache || !zeroed
      modifies this
      ensures Valid()
      ensures extents == Recorded(old(extents), chunk, size, zeroed, committed, cache, h)
    {
      extents := RecordInto(extents, chunksize, cache, chunk, size, zeroed, committed, h);
    }

    /**
     * chunk_recycle: take the range at newAddr or the first best fit for
     * the rounded request, split off its lead and trail, and commit the
     * piece; on a hook failure give back what was taken. zero and commit
     * come back raised when the range was zeroed or committed, never lowered.
     */
    method Recycle(newAddr: Option<nat>, size: nat, alignment: nat, usize: nat, zero: bool, commit: bool,
                   h: RecycleHooks) returns (ret: Option<nat>, zeroOut: bool, commitOut: bool)
      requires Valid()
      requires IsSizeT(size) && size > 0 && size % chunksize == 0
      requires IsPow2(alignment) && chunksize <= alignment < SIZE_T_LIMIT
      requires newAddr.Some? ==> alignment == chunksize
      requires IsSizeT(usize) && (usize == 0 || Wrap(size + alignment - chunksize) <= usize <= SIZE_T_LIMIT / 2)
      modifies this
      ensures Valid()
      ensures Recycled(old(extents), extents, chunksize, cache, newAddr, size, alignment, usize, zero, commit, h,
                       ret, zeroOut, commitOut)
    {
      var s := extents;
      var allocSize := ChunkCeiling(usize, chunksize);
      var found := if newAddr.Some? then AddrSearch(s, newAddr.value) else FirstBestFit(s, allocSize);
      if allocSize < size || found.None? || (newAddr.Some? && s[found.value].size < size) {
        NothingRecycled(s, chunksize, cache, newAddr, size, alignment, usize, zero, commit, h, found);
        return None, zero, commit;
      }
      extents, ret, zeroOut, commitOut := TakeFrom(s, chunksize, cache, newAddr, size, alignment, usize, zero, commit, h,
                                                   found.value);
    }

  }

  /**
   * What chunk_recycle hands back and leaves behind, from trees s to trees
   * r: without a candidate range nothing changes; otherwise *zero and
   * *commit are raised by the candidate's flags, the piece at its first
   * `alignment` boundary is returned unless a hook fails, and the trees
   * become RecycleState.
   */
  predicate Recycled(s: seq<Extent>, r: seq<Extent>, chunksize: nat, cache: bool, newAddr: Option<nat>, size: nat,
                     alignment: nat, usize: nat, zero: bool, commit: bool, h: RecycleHooks,
                     ret: Option<nat>, zeroOut: bool, commitOut: bool)
    requires ValidChunksize(chunksize) && IsSizeT(usize) && Sorted(s) && alignment > 0
  {
    var c := if AllocSize(usize, chunksize) < size then None else Candidate(s, newAddr, AllocSize(usize, chunksize), size);
    match c
    case None => ret.None? && r == s && zeroOut == zero && commitOut == commit
    case Some(k) =>
      var e := s[k];
      var lead := LeadSize(e, alignment);
      lead + size <= e.size
      && zeroOut == (zero || e.zeroed) && commitOut == (commit || e.committed)
      && ret == (if RecycleFails(e, lead, size, h) then None else Some(e.addr + lead))
      && r == RecycleState(s, k, lead, size, cache, h)
  }

  /** No range holds the request: chunk_recycle returns NULL and changes nothing. */
  lemma NothingRecycled(s: seq<Extent>, chunksize: nat, cache: bool, newAddr: Option<nat>, size: nat, alignment: nat,
                        usize: nat, zero: bool, commit: bool, h: RecycleHooks, found: Option<nat>)
    requires ValidChunksize(chunksize) && IsSizeT(usize) && WellFormed(s, chunksize) && IsPow2(alignment)
    requires found == if newAddr.Some? then AddrSearch(s, newAddr.value) else FirstBestFit(s, ChunkCeiling(usize, chunksize))
    requires ChunkCeiling(usize, chunksize) < size || found.None? || (newAddr.Some? && s[found.value].size < size)
    ensures Recycled(s, s, chunksize, cache, newAddr, size, alignment, usize, zero, commit, h, None, zero, commit)
  {
  }

  /** The candidate s[k] was carved: chunk_recycle's results are those Recycled names. */
  lemma PieceRecycled(s: seq<Extent>, r: seq<Extent>, chunksize: nat, cache: bool, newAddr: Option<nat>, size: nat,
                      alignment: nat, usize: nat, zero: bool, commit: bool, h: RecycleHooks, k: nat, lead: nat, ok: bool,
                      ret: Option<nat>, zeroOut: bool, commitOut: bool)
    requires ValidChunksize(chunksize) && IsSizeT(usize) && WellFormed(s, chunksize) && IsPow2(alignment)
    requires AllocSize(usize, chunksize) >= size
    requires Candidate(s, newAddr, AllocSize(usize, chunksize), size) == Some(k)
    requires lead == LeadSize(s[k], alignment) && lead + size <= s[k].size
    requires zeroOut == (zero || s[k].zeroed) && commitOut == (commit || s[k].committed)
    requires ok == !RecycleFails(s[k], lead, size, h)
    requires ret.Some? == ok && (ok ==> ret.value == s[k].addr + lead)
    requires r == RecycleState(s, k, lead, size, cache, h)
    ensures Recycled(s, r, chunksize, cache, newAddr, size, alignment, usize, zero, commit, h, ret, zeroOut, commitOut)
  {
  }

  /** Asked for committed memory, chunk_recycle reports it committed whatever it returns. */
  lemma RecycledCommits(s: seq<Extent>, r: seq<Extent>, chunksize: nat, cache: bool, newAddr: Option<nat>, size: nat,
                        alignment: nat, usize: nat, zero: bool, h: RecycleHooks,
                        ret: Option<nat>, zeroOut: bool, commitOut: bool)
    requires ValidChunksize(chunksize) && IsSizeT(usize) && Sorted(s) && alignment > 0
    requires Recycled(s, r, chunksize, cache, newAddr, size, alignment, usize, zero, true, h, ret, zeroOut, commitOut)
    ensures commitOut
    ensures Recycled(s, r, chunksize, cache, newAddr, size, alignment, usize, zero, true, h, ret, zeroOut, true)
  {
  }

  /**
   * chunk_recycle takes exactly `size` free bytes out of the trees when it
   * returns a piece, and none when it fails, unless chunk_record could not
   * get an extent node for what it gave back.
   */
  lemma RecycledTotal(s: seq<Extent>, r: seq<Extent>, chunksize: nat, cache: bool, newAddr: Option<nat>, size: nat,
                      alignment: nat, usize: nat, zero: bool, commit: bool, h: RecycleHooks,
                      ret: Option<nat>, zeroOut: bool, commitOut: bool)
    requires ValidChunksize(chunksize) && WellFormed(s, chunksize)
    requires IsSizeT(size) && size > 0 && size % chunksize == 0
    requires IsPow2(alignment) && chunksize <= alignment < SIZE_T_LIMIT
    requires newAddr.Some? ==> alignment == chunksize
    requires IsSizeT(usize) && (usize == 0 || Wrap(size + alignment - chunksize) <= usize <= SIZE_T_LIMIT / 2)
    requires Recycled(s, r, chunksize, cache, newAddr, size, alignment, usize, zero, commit, h, ret, zeroOut, commitOut)
    ensures ret.Some? ==> Total(r) + size == Total(s)
    ensures ret.None? && !h.record.nodeAllocFails ==> Total(r) == Total(s)
  {
    if AllocSize(usize, chunksize) >= size {
      var c := Candidate(s, newAddr, AllocSize(usize, chunksize), size);
      if c.Some? {
        RecyclePlan(s, chunksize, newAddr, size, alignment, usize, c.value);
        RecycleStateTotal(s, chunksize, c.value, LeadSize(s[c.value], alignment), size, cache, h);
      }
    }
  }

  /** The range chunk_recycle chooses can be carved at its `alignment` boundary. */
  lemma RecyclePlan(s: seq<Extent>, chunksize: nat, newAddr: Option<nat>, size: nat, alignment: nat, usize: nat, k: nat)
    requires ValidChunksize(chunksize) && WellFormed(s, chunksize)
    requires IsSizeT(size) && size > 0 && size % chunksize == 0
    requires IsPow2(alignment) && chunksize <= alignment < SIZE_T_LIMIT
    requires newAddr.Some? ==> alignment == chunksize
    requires IsSizeT(usize) && (usize == 0 || Wrap(size + alignment - chunksize) <= usize <= SIZE_T_LIMIT / 2)
    requires AllocSize(usize, chunksize) >= size
    requires Candidate(s, newAddr, AllocSize(usize, chunksize), size) == Some(k)
    ensures k < |s| && AlignUp(s[k].addr, alignment) - s[k].addr == LeadSize(s[k], alignment)
    ensures Carvable(s, chunksize, k, LeadSize(s[k], alignment), size)
  {
    assert Shaped(s[k], chunksize);
    if usize == 0 {
      AlignUpOfMultiple(0, chunksize);
      assert false;
    }
    if newAddr.None? {
      AllocSizeCovers(size, alignment, chunksize, usize);
    }
    CandidateFits(s[k], chunksize, alignment, size, AllocSize(usize, chunksize), newAddr.Some?);
  }

  /** RecycleState, branch by branch, in the terms chunk_recycle's steps produce. */
  lemma LeadFailsState(s: seq<Extent>, k: nat, lead: nat, size: nat, cache: bool, h: RecycleHooks)
    requires k < |s| && lead + size <= s[k].size
    requires lead != 0 && h.leadSplitFails
    ensures s == RecycleState(s, k, lead, size, cache, h)
  {
  }

  lemma RestIsRecorded(s: seq<Extent>, k: nat, lead: nat, size: nat, cache: bool, h: RecycleHooks)
    requires k < |s| && lead + size <= s[k].size
    requires !(lead != 0 && h.leadSplitFails)
    requires s[k].size - lead - size != 0 && (h.trailSplitFails || (lead != 0 && h.trailNodeAllocFails))
    ensures RecycleState(s, k, lead, size, cache, h)
         == Recorded(LeadOnly(s, k, lead), s[k].addr + lead, s[k].size - lead, s[k].zeroed, s[k].committed, cache, h.record)
  {
  }

  lemma PieceState(s: seq<Extent>, k: nat, lead: nat, size: nat, cache: bool, h: RecycleHooks, u: seq<Extent>, r: seq<Extent>)
    requires k < |s| && lead + size <= s[k].size
    requires !(lead != 0 && h.leadSplitFails)
    requires !(s[k].size - lead - size != 0 && (h.trailSplitFails || (lead != 0 && h.trailNodeAllocFails)))
    requires !s[k].committed && h.commitFails
    requires u == Carved(s, k, lead, size)
    requires r == Recorded(u, s[k].addr + lead, size, s[k].zeroed, s[k].committed, cache, h.record)
    ensures r == RecycleState(s, k, lead, size, cache, h)
  {
  }

  lemma CarvedState(s: seq<Extent>, k: nat, lead: nat, size: nat, cache: bool, h: RecycleHooks, u: seq<Extent>)
    requires k < |s| && lead + size <= s[k].size
    requires !RecycleFails(s[k], lead, size, h)
    requires u == Carved(s, k, lead, size)
    ensures u == RecycleState(s, k, lead, size, cache, h)
  {
  }

  /** Dropping s[k], or narrowing it to its lead, in place is the lead-only state. */
  lemma LeadOnlyByEdit(s: seq<Extent>, k: nat, lead: nat, t: seq<Extent>)
    requires k < |s|
    requires t == if lead != 0 then s[k := Extent(s[k].addr, lead, s[k].zeroed, s[k].committed)] else s[..k] + s[k + 1..]
    ensures t == LeadOnly(s, k, lead)
  {
    if lead != 0 {
      UpdateIsSplice(s, k, Extent(s[k].addr, lead, s[k].zeroed, s[k].committed));
    } else {
      RemoveIsSplice(s, k);
    }
  }

  /** Inserting the trail after the lead-only state's lead is the carved state. */
  lemma CarvedByEdit(s: seq<Extent>, k: nat, lead: nat, size: nat, t: seq<Extent>, u: seq<Extent>)
    requires k < |s| && lead + size <= s[k].size
    requires t == LeadOnly(s, k, lead)
    requires var pos := if lead != 0 then k + 1 else k;
      var trail := s[k].size - lead - size;
      u == if trail != 0 then t[..pos] + [Extent(s[k].addr + lead + size, trail, s[k].zeroed, s[k].committed)] + t[pos..] else t
    ensures u == Carved(s, k, lead, size)
  {
    var l := LeadPart(s[k], lead);
    var pos := k + |l|;
    assert t[..pos] == s[..k] + l;
    assert t[pos..] == s[k + 1..];
  }

  /**
   * A successful recycle hands out an `alignment`-aligned piece that was
   * free, all of which stops being free while every other free address
   * stays free.
   */
  lemma RecycledPiece(s: seq<Extent>, chunksize: nat, k: nat, alignment: nat, size: nat, x: nat)
    requires ValidChunksize(chunksize) && IsPow2(alignment) && k < |s|
    requires Carvable(s, chunksize, k, LeadSize(s[k], alignment), size)
    ensures (s[k].addr + LeadSize(s[k], alignment)) % alignment == 0
    ensures var ret := s[k].addr + LeadSize(s[k], alignment);
      Covers(Carved(s, k, LeadSize(s[k], alignment), size), x) == (Covers(s, x) && !(ret <= x < ret + size))
      && (ret <= x < ret + size ==> Covers(s, x))
  {
    CarvedCovers(s, chunksize, k, LeadSize(s[k], alignment), size, x);
  }

  // ---------------------------------------------------------------------
  // The arena's two pairs of trees and the retained-bytes statistic
  // ---------------------------------------------------------------------

  /** What an alloc hook returned: the chunk (or NULL) and its *zero and *commit. */
  datatype AllocHookResult = AllocHookResult(chunk: Option<nat>, zero: bool, commit: bool)

  class ChunkArena {
    const cached: ExtentTree
    const retained: ExtentTree
    /** stats.retained: bytes held in the retained trees, as accounted. */
    var statsRetained: int

    predicate Valid()
      reads this, cached, retained
    {
      cached != retained && cached.cache && !retained.cache
      && cached.Valid() && retained.Valid() && cached.chunksize == retained.chunksize
    }

    constructor (chunksize: nat)
      requires ValidChunksize(chunksize)
      ensures Valid() && fresh(cached) && fresh(retained) && cached.chunksize == chunksize
      ensures cached.extents == [] && retained.extents == [] && statsRetained == 0
    {
      cached := new ExtentTree(chunksize, true);
      retained := new ExtentTree(chunksize, false);
      statsRetained := 0;
    }

    /** chunk_alloc_cache: recycle from the cached trees, asking for committed memory. */
    method AllocCache(newAddr: Option<nat>, size: nat, alignment: nat, usize: nat, zero: bool, h: RecycleHooks)
      returns (ret: Option<nat>, zeroOut: bool)
      requires Valid()
      requires IsSizeT(size) && size > 0 && size % cached.chunksize == 0
      requires IsPow2(alignment) && cached.chunksize <= alignment < SIZE_T_LIMIT
      requires newAddr.Some? ==> alignment == cached.chunksize
      requires IsSizeT(usize) && (usize == 0 || Wrap(size + alignment - cached.chunksize) <= usize <= SIZE_T_LIMIT / 2)
      modifies cached
      ensures Valid()
      ensures Recycled(old(cached.extents), cached.extents, cached.chunksize, true, newAddr, size, alignment, usize,
                       zero, true, h, ret, zeroOut, true)
    {
      ghost var s := cached.extents;
      var commit;
      ret, zeroOut, commit := cached.Recycle(newAddr, size, alignment, usize, zero, true, h);
      RecycledCommits(s, cached.extents, cached.chunksize, true, newAddr, size, alignment, usize,
                      zero, h, ret, zeroOut, commit);
    }

    /** chunk_alloc_retained: recycle from the retained trees; a success takes `size` off stats.retained. */
    method AllocRetained(newAddr: Option<nat>, size: nat, alignment: nat, usize: nat, zero: bool, commit: bool,
                         h: RecycleHooks) returns (ret: Option<nat>, zeroOut: bool, commitOut: bool)
      requires Valid()
      requires IsSizeT(size) && size > 0 && size % retained.chunksize == 0
      requires IsPow2(alignment) && retained.chunksize <= alignment < SIZE_T_LIMIT
      requires newAddr.Some? ==> alignment == retained.chunksize
      requires IsSizeT(usize) && (usize == 0 || Wrap(size + alignment - retained.chunksize) <= usize <= SIZE_T_LIMIT / 2)
      modifies this, retained
      ensures Valid()
      ensures statsRetained == old(statsRetained) - (if ret.Some? then size else 0)
      ensures ret.Some? ==> Total(retained.extents) + size == old(Total(retained.extents))
      ensures ret.None? && !h.record.nodeAllocFails ==> Total(retained.extents) == old(Total(retained.extents))
      ensures Recycled(old(retained.extents), retained.extents, retained.chunksize, false, newAddr, size, alignment,
                       usize, zero, commit, h, ret, zeroOut, commitOut)
    {
      ghost var s := retained.extents;
      ret, zeroOut, commitOut := retained.Recycle(newAddr, size, alignment, usize, zero, commit, h);
      RecycledTotal(s, retained.extents, retained.chunksize, false, newAddr, size, alignment, usize, zero, commit, h,
                    ret, zeroOut, commitOut);
      if ret.Some? {
        statsRetained := statsRetained - size;
      }
    }

    /** chunk_alloc_wrapper: the retained trees first, then the arena's alloc hook. */
    method AllocWrapper(newAddr: Option<nat>, size: nat, alignment: nat, usize: nat, zero: bool, commit: bool,
                        h: RecycleHooks, hook: AllocHookResult)
      returns (ret: Option<nat>, zeroOut: bool, commitOut: bool, ghost rr: Option<nat>, ghost rz: bool, ghost rc: bool)
      requires Valid()
      requires IsSizeT(size) && size > 0 && size % retained.chunksize == 0
      requires IsPow2(alignment) && retained.chunksize <= alignment < SIZE_T_LIMIT
      requires newAddr.Some? ==> alignment == retained.chunksize
      requires IsSizeT(usize) && (usize == 0 || Wrap(size + alignment - retained.chunksize) <= usize <= SIZE_T_LIMIT / 2)
      modifies this, retained
      ensures Valid()
      // (rr, rz, rc) is the retained attempt; it alone decides the retained trees afterwards
      ensures Recycled(old(retained.extents), retained.extents, retained.chunksize, false, newAddr, size, alignment,
                       usize, zero, commit, h, rr, rz, rc)
      ensures ret == (if rr.Some? then rr else hook.chunk)
      ensures zeroOut == (if rr.Some? then rz else hook.zero)
      ensures commitOut == (if rr.Some? then rc else hook.commit)
      ensures statsRetained == old(statsRetained) - (if rr.Some? then size else 0)
    {
      ret, zeroOut, commitOut := AllocRetained(newAddr, size, alignment, usize, zero, commit, h);
      rr, rz, rc := ret, zeroOut, commitOut;
      if ret.None? {
        ret, zeroOut, commitOut := hook.chunk, hook.zero, hook.commit;
      }
    }

    /** chunk_dalloc_cache: record the chunk, never as zeroed, in the cached trees. */
    method DallocCache(chunk: nat, size: nat, committed: bool, h: RecordHooks)
      requires Valid() && Recordable(cached.extents, cached.chunksize, chunk, size)
      modifies cached
      ensures Valid()
      ensures cached.extents == Recorded(old(cached.extents), chunk, size, false, committed, true, h)
    {
      cached.Record(chunk, size, false, committed, h);
    }

    /**
     * chunk_dalloc_wrapper: when the dalloc hook declines, decommit (or
     * else purge) the chunk and record it in the retained trees, zeroed
     * when it is decommitted or purged, and count it in stats.retained.
     */
    method DallocWrapper(chunk: nat, size: nat, zeroed: bool, committed: bool,
                         dallocFails: bool, decommitFails: bool, purgeFails: bool, h: RecordHooks)
      requires Valid() && Recordable(retained.extents, retained.chunksize, chunk, size)
      modifies this, retained
      ensures Valid()
      ensures !dallocFails ==> retained.extents == old(retained.extents) && statsRetained == old(statsRetained)
      ensures dallocFails ==>
        var stillCommitted := committed && decommitFails;
        retained.extents == Recorded(old(retained.extents), chunk, size, !stillCommitted || !purgeFails,
                                     stillCommitted, false, h)
        && statsRetained == old(statsRetained) + size
    {
      if !dallocFails {
        return;
      }
      var c := committed;
      if c {
        c := decommitFails;
      }
      var z := !c || !purgeFails;
      retained.Record(chunk, size, z, c, h);
      statsRetained := statsRetained + size;
    }
  }

  /**
   * stats.retained minus the retained trees' free bytes is the same after a
   * dalloc that records the chunk in the retained trees, and after a
   * successful recycle from those trees: the statistic tracks what the
   * trees hold as long as no extent node allocation fails.
   */
  lemma RetainedAccounting(s: seq<Extent>, chunksize: nat, chunk: nat, size: nat, zeroed: bool, committed: bool,
                           h: RecordHooks, stats: int)
    requires Recordable(s, chunksize, chunk, size) && !Leaks(s, chunk, size, committed, h)
    ensures (stats + size) - Total(Recorded(s, chunk, size, zeroed, committed, false, h)) == stats - Total(s)
  {
    RecordedTotal(s, chunksize, chunk, size, zeroed, committed, false, h);
  }

  // ---------------------------------------------------------------------
  // chunk_alloc_core and chunk_boot
  // ---------------------------------------------------------------------

  datatype DssPrec = DssDisabled | DssPrimary | DssSecondary

  /**
   * chunk_alloc_core: dss first when it is the primary source, then mmap,
   * then dss when it is the secondary source. `dss` and `mmap` are what
   * chunk_alloc_dss and chunk_alloc_mmap would return.
   */
  function AllocCore(haveDss: bool, prec: DssPrec, dss: Option<nat>, mmap: Option<nat>): (r: Option<nat>)
    ensures r.None? <==> (mmap.None? && !(haveDss && !prec.DssDisabled? && dss.Some?))
    ensures haveDss && prec == DssPrimary && dss.Some? ==> r == dss
    ensures !(haveDss && prec == DssPrimary && dss.Some?) && mmap.Some? ==> r == mmap
    ensures r.Some? ==> r == mmap || (haveDss && !prec.DssDisabled? && r == dss)
  {
    if haveDss && prec == DssPrimary && dss.Some? then dss
    else if mmap.Some? then mmap
    else if haveDss && prec == DssSecondary && dss.Some? then dss
    else None
  }

  const LG_PAGE: nat := 12

  /** A chunk of 2^lg bytes, lg below 64, is a valid chunk size. */
  lemma ChunkSizeValid(lg: nat)
    requires lg < 64
    ensures ValidChunksize(Pow2(lg))
  {
    Pow2IsPow2(lg);
    Pow2StrictMonotone(lg, 64);
    Pow2SixtyFour();
  }

  /** Such a chunk is 2^(lg - LG_PAGE) whole pages, so chunk_npages loses nothing to the shift. */
  lemma ChunkPages(lg: nat)
    requires LG_PAGE <= lg < 64
    ensures Pow2(lg) / Pow2(LG_PAGE) == Pow2(lg - LG_PAGE)
    ensures Pow2(lg) / Pow2(LG_PAGE) * Pow2(LG_PAGE) == Pow2(lg)
  {
    Pow2Add(lg - LG_PAGE, LG_PAGE);
    MulMod(Pow2(lg - LG_PAGE), Pow2(LG_PAGE));
  }

  /** The chunk settings chunk_boot derives from opt_lg_chunk. */
  class ChunkSettings {
    var optLgChunk: nat
    var chunksize: nat
    var chunksizeMask: nat
    var chunkNpages: nat

    constructor (optLgChunk: nat)
      ensures this.optLgChunk == optLgChunk && chunksize == 0 && chunksizeMask == 0 && chunkNpages == 0
    {
      this.optLgChunk := optLgChunk;
      chunksize := 0;
      chunksizeMask := 0;
      chunkNpages := 0;
    }

    /**
     * chunk_boot (non-Windows): default opt_lg_chunk to LG_CHUNK_DEFAULT,
     * set chunksize, its mask and its page count, then boot dss and the
     * chunk radix tree with one level bit per address bit above the chunk
     * size; either failing makes boot fail.
     */
    method Boot(haveDss: bool, dssBootFails: bool, rtreeNewFails: bool) returns (failed: bool, rtreeBits: nat)
      requires optLgChunk == 0 || LG_PAGE <= optLgChunk < 64
      modifies this
      ensures optLgChunk == (if old(optLgChunk) == 0 then LG_CHUNK_DEFAULT else old(optLgChunk))
      ensures LG_PAGE <= optLgChunk < 64
      ensures chunksize == Pow2(optLgChunk) && chunksizeMask == chunksize - 1
      ensures chunkNpages == chunksize / Pow2(LG_PAGE)
      ensures rtreeBits == 64 - optLgChunk
      ensures failed == ((haveDss && dssBootFails) || rtreeNewFails)
    {
      if optLgChunk == 0 {
        optLgChunk := LG_CHUNK_DEFAULT;
      }
      chunksize := Pow2(optLgChunk);
      chunksizeMask := chunksize - 1;
      chunkNpages := chunksize / Pow2(LG_PAGE);
      rtreeBits := 64 - optLgChunk;
      if haveDss && dssBootFails {
        return true, rtreeBits;
      }
      failed := rtreeNewFails;
    }
  }
}
