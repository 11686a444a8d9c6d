/**
 * Large allocations (src/large.c): the in-place resize decision of
 * large_ralloc_no_move, the move that large_ralloc falls back to, and the
 * arena's list of large extents.
 *
 * The resize decision is branch logic over what its helpers report:
 * whether large_ralloc_no_move_expand succeeds with `usize_max` and with
 * `usize_min`, and whether large_ralloc_no_move_shrink succeeds. Those
 * outcomes are the ResizeHooks. The result records which of them were
 * tried, and the usable size the extent ends with. An extent is named by
 * its address; NULL is 0.
 */
module Large {

  const NULL: nat := 0
  /** CACHELINE on the targets jemalloc supports (2^LG_CACHELINE). */
  const CACHELINE: nat := 64

  /** A helper large_ralloc_no_move calls, with the usable size it asks for. */
  datatype Attempt = Expand(usize: nat) | Shrink(usize: nat)

  /** Whether the expand with usize_max, the expand with usize_min, and the shrink fail. */
  datatype ResizeHooks = ResizeHooks(expandMaxFails: bool, expandMinFails: bool, shrinkFails: bool)

  /** large_ralloc_no_move's answer (true: the caller must move), the extent's usable size after, and the helpers tried. */
  datatype NoMove = NoMove(moveNeeded: bool, usize: nat, attempts: seq<Attempt>)

  /** Lines 215-228: keep a size within the bounds, else shrink a too-large extent, else ask for a move. */
  function Settle(cur: nat, usizeMin: nat, usizeMax: nat, h: ResizeHooks, tried: seq<Attempt>): NoMove
  {
    if usizeMin <= cur <= usizeMax then NoMove(false, cur, tried)
    else if cur > usizeMax then
      if !h.shrinkFails then NoMove(false, usizeMax, tried + [Shrink(usizeMax)])
      else NoMove(true, cur, tried + [Shrink(usizeMax)])
    else NoMove(true, cur, tried)
  }

  /** Whether the retry with usize_min at lines 202-205 is made (after the usize_max expand failed). */
  predicate Retries(oldUsize: nat, usizeMin: nat, usizeMax: nat)
  {
    usizeMax > oldUsize && usizeMin < usizeMax && usizeMin > oldUsize
  }

  /**
   * large_ralloc_no_move as written: the retry's result is tested without
   * the negation the first expand has, so a retry that FAILS returns
   * false (no move needed) with the extent still at its old size, and one
   * that succeeds falls through to the bounds test.
   */
  function NoMoveAsWritten(oldUsize: nat, usizeMin: nat, usizeMax: nat, h: ResizeHooks): NoMove
  {
    if usizeMax > oldUsize && !h.expandMaxFails then NoMove(false, usizeMax, [Expand(usizeMax)])
    else
      var tried := if usizeMax > oldUsize then [Expand(usizeMax)] else [];
      if Retries(oldUsize, usizeMin, usizeMax) then
        if h.expandMinFails then NoMove(false, oldUsize, tried + [Expand(usizeMin)])
        else Settle(usizeMin, usizeMin, usizeMax, h, tried + [Expand(usizeMin)])
      else Settle(oldUsize, usizeMin, usizeMax, h, tried)
  }

  /**
   * large_ralloc_no_move with the retry negated like the first expand:
   * expand in place to usize_max, else to usize_min, else keep a size
   * already in range, else shrink to usize_max; else the caller moves.
   */
  function NoMoveDecision(oldUsize: nat, usizeMin: nat, usizeMax: nat, h: ResizeHooks): (r: NoMove)
    ensures |r.attempts| <= 2
    ensures (usizeMax > oldUsize) == (|r.attempts| > 0 && r.attempts[0] == Expand(usizeMax))
    ensures forall a :: a in r.attempts && a.Expand? ==>
              a.usize > oldUsize && (a.usize == usizeMax || (a.usize == usizeMin && usizeMin < usizeMax))
    ensures forall a :: a in r.attempts && a.Shrink? ==> a.usize == usizeMax < oldUsize
    ensures Expand(usizeMin) in r.attempts && usizeMin != usizeMax ==> r.attempts[0] == Expand(usizeMax)
    ensures r.moveNeeded ==> r.usize == oldUsize
  {
    if usizeMax > oldUsize && !h.expandMaxFails then NoMove(false, usizeMax, [Expand(usizeMax)])
    else
      var tried := if usizeMax > oldUsize then [Expand(usizeMax)] else [];
      if Retries(oldUsize, usizeMin, usizeMax) && !h.expandMinFails then
        NoMove(false, usizeMin, tried + [Expand(usizeMin)])
      else
        Settle(oldUsize, usizeMin, usizeMax, h, if Retries(oldUsize, usizeMin, usizeMax) then tried + [Expand(usizeMin)] else tried)
  }

  /**
   * No move is needed exactly when the extent ends with a usable size in
   * [usize_min, usize_max]; a size already in range never moves; and a
   * failure leaves the size as it was.
   */
  lemma NoMoveMeaning(oldUsize: nat, usizeMin: nat, usizeMax: nat, h: ResizeHooks)
    requires usizeMin <= usizeMax
    ensures var r := NoMoveDecision(oldUsize, usizeMin, usizeMax, h);
      (!r.moveNeeded <==> usizeMin <= r.usize <= usizeMax)
      && (usizeMin <= oldUsize <= usizeMax ==> !r.moveNeeded)
      && (r.moveNeeded ==> r.usize == oldUsize)
  {
  }

  /** The two agree except when both expands fail after the retry is made. */
  lemma AsWrittenAgreesOtherwise(oldUsize: nat, usizeMin: nat, usizeMax: nat, h: ResizeHooks)
    requires !(Retries(oldUsize, usizeMin, usizeMax) && h.expandMaxFails && h.expandMinFails)
    ensures NoMoveAsWritten(oldUsize, usizeMin, usizeMax, h) == NoMoveDecision(oldUsize, usizeMin, usizeMax, h)
  {
  }

  /**
   * When both expands fail, the code as written reports that no move is
   * needed although the extent kept a usable size below usize_min.
   */
  lemma AsWrittenMisreportsFailedRetry(oldUsize: nat, usizeMin: nat, usizeMax: nat, h: ResizeHooks)
    requires Retries(oldUsize, usizeMin, usizeMax) && h.expandMaxFails && h.expandMinFails
    ensures var w := NoMoveAsWritten(oldUsize, usizeMin, usizeMax, h);
      !w.moveNeeded && w.usize == oldUsize < usizeMin
    ensures NoMoveDecision(oldUsize, usizeMin, usizeMax, h).moveNeeded
  {
  }

  /** For instance: a 16 KiB extent asked to grow to between 20 KiB and 24 KiB, with no room behind it. */
  lemma AsWrittenMisreportsExample()
    ensures NoMoveAsWritten(0x4000, 0x5000, 0x6000, ResizeHooks(true, true, false))
         == NoMove(false, 0x4000, [Expand(0x6000), Expand(0x5000)])
  {
  }

  // ---------------------------------------------------------------------
  // large_ralloc
  // ---------------------------------------------------------------------

  /** The large_palloc call a move makes: size, alignment, and whether it goes through large_malloc. */
  datatype PallocCall = PallocCall(usize: nat, alignment: nat, viaMalloc: bool)

  /**
   * large_ralloc_move_helper: large_malloc for alignments up to a cache
   * line, large_palloc otherwise. Since large_malloc asks large_palloc for
   * CACHELINE alignment, the new space is aligned to the larger of the two.
   */
  function MoveHelper(usize: nat, alignment: nat): (c: PallocCall)
    ensures c.viaMalloc <==> alignment <= CACHELINE
    ensures c.usize == usize && c.alignment >= alignment && c.alignment >= CACHELINE
    ensures c.alignment == alignment || c.alignment == CACHELINE
  {
    if alignment <= CACHELINE then PallocCall(usize, CACHELINE, true)
    else PallocCall(usize, alignment, false)
  }

  /** What large_ralloc returns, how many bytes it copies, and whether it frees the old extent. */
  datatype Realloc = Realloc(ret: nat, copySize: nat, freesOld: bool)

  /**
   * large_ralloc on an extent at `addr`: resize in place when
   * large_ralloc_no_move(usize, usize) succeeds; otherwise take the space
   * the move helper returns (`moved`), copy the smaller of the two sizes
   * into it and free the old extent, or return NULL if there is none.
   */
  function Ralloc(addr: nat, oldUsize: nat, usize: nat, h: ResizeHooks, moved: nat): Realloc
  {
    if !NoMoveDecision(oldUsize, usize, usize, h).moveNeeded then Realloc(addr, 0, false)
    else if moved == NULL then Realloc(NULL, 0, false)
    else Realloc(moved, if usize < oldUsize then usize else oldUsize, true)
  }

  /**
   * large_ralloc returns the original address exactly when the extent now
   * has the requested usable size; a move copies all of the smaller size
   * and no more than either holds; a failed move keeps the old extent.
   */
  lemma RallocOutcome(addr: nat, oldUsize: nat, usize: nat, h: ResizeHooks, moved: nat)
    ensures var r := Ralloc(addr, oldUsize, usize, h, moved);
      var nm := NoMoveDecision(oldUsize, usize, usize, h);
      (!nm.moveNeeded <==> nm.usize == usize)
      && (!nm.moveNeeded ==> r == Realloc(addr, 0, false))
      && (r.freesOld <==> nm.moveNeeded && moved != NULL)
      && (r.freesOld ==> r.ret == moved && r.copySize <= usize && r.copySize <= oldUsize
                         && (r.copySize == usize || r.copySize == oldUsize))
      && (nm.moveNeeded && moved == NULL ==> r.ret == NULL && !r.freesOld)
  {
    NoMoveMeaning(oldUsize, usize, usize, h);
  }

  /** large_ralloc passes usize_min == usize_max, so the retry, and its inverted test, never run for it. */
  lemma RallocUnaffected(oldUsize: nat, usize: nat, h: ResizeHooks)
    ensures NoMoveAsWritten(oldUsize, usize, usize, h) == NoMoveDecision(oldUsize, usize, usize, h)
  {
    AsWrittenAgreesOtherwise(oldUsize, usize, usize, h);
  }

  // ---------------------------------------------------------------------
  // The arena's list of large extents
  // ---------------------------------------------------------------------

  predicate Distinct(s: seq<nat>)
  {
    forall i, j :: 0 <= i < j < |s| ==> s[i] != s[j]
  }

  /** The position of x in s. */
  function IndexOf(s: seq<nat>, x: nat): (i: nat)
    requires x in s
    ensures i < |s| && s[i] == x && x !in s[..i]
  {
    if s[0] == x then 0 else 1 + IndexOf(s[1..], x)
  }

  /** ql_remove: s without (the first occurrence of) x, the others in their order. */
  function Removed(s: seq<nat>, x: nat): (r: seq<nat>)
    requires x in s
    ensures |r| == |s| - 1 && multiset(r) == multiset(s) - multiset{x}
  {
    var i := IndexOf(s, x);
    assert s == s[..i] + [x] + s[i + 1..];
    s[..i] + s[i + 1..]
  }

  /** Removing an entry from a list of distinct entries removes it for good and keeps the list distinct. */
  lemma RemovedDistinct(s: seq<nat>, x: nat)
    requires x in s && Distinct(s)
    ensures x !in Removed(s, x) && Distinct(Removed(s, x))
  {
    var i := IndexOf(s, x);
    var r := Removed(s, x);
    assert forall k :: 0 <= k < |r| ==> r[k] == if k < i then s[k] else s[k + 1];
  }

  /** ql_remove undoes ql_tail_insert: an extent freed right after it was inserted leaves the list as it was. */
  lemma TailInsertThenRemove(s: seq<nat>, x: nat)
    requires x !in s
    ensures Removed(s + [x], x) == s
  {
    assert (s + [x])[..|s|] == s;
  }

  /** The arena's `large` list, its extents in insertion order. */
  class LargeList {
    var large: seq<nat>

    predicate Valid()
      reads this
    {
      Distinct(large) && NULL !in large
    }

    constructor()
      ensures Valid() && large == []
    {
      large := [];
    }

    /**
     * large_palloc: NULL when `ausize` (what sa2u makes of the size and
     * alignment) is 0 or above LARGE_MAXCLASS, or when there is no arena
     * or no extent (`extent`, what arena_chunk_alloc_large returns);
     * otherwise the extent joins the tail of the list and is returned.
     */
    method Palloc(ausize: nat, largeMaxclass: nat, arenaFound: bool, extent: nat) returns (ret: nat)
      requires Valid() && extent !in large
      modifies this
      ensures Valid()
      ensures ret != NULL <==> 0 < ausize <= largeMaxclass && arenaFound && extent != NULL
      ensures ret != NULL ==> ret == extent && large == old(large) + [extent]
      ensures ret == NULL ==> large == old(large)
    {
      if ausize == 0 || ausize > largeMaxclass {
        return NULL;
      }
      if !arenaFound || extent == NULL {
        return NULL;
      }
      large := large + [extent];
      ret := extent;
    }

    /** large_dalloc_impl's list step: the extent leaves the list; the others stay in order. */
    method DallocImpl(extent: nat)
      requires Valid() && extent in large
      modifies this
      ensures Valid() && extent !in large
      ensures large == Removed(old(large), extent)
    {
      RemovedDistinct(large, extent);
      large := Removed(large, extent);
    }
  }
}
