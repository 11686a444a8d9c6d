/**
 * The pair of extent trees an arena keeps for free chunks (chunks_szad_* and
 * chunks_ad_* in src/chunk.c). Both trees index the same set of free address
 * ranges: the ad tree by address, the szad tree by (size, address). The
 * model keeps that set once, as a sequence in address order, and derives
 * both searches from it.
 */
module Extents {
  import opened Arith

  /** A free address range and what is known about its pages. */
  datatype Extent = Extent(addr: nat, size: nat, zeroed: bool, committed: bool)

  datatype Option<T> = None | Some(value: T)

  function End(e: Extent): nat
  {
    e.addr + e.size
  }

  /** Address order with no overlap (adjacent ranges are allowed: a merge can fail). */
  predicate Sorted(s: seq<Extent>)
  {
    forall i, j :: 0 <= i < j < |s| ==> End(s[i]) <= s[j].addr
  }

  /** A free range is a non-empty run of whole chunks inside the address space. */
  predicate Shaped(e: Extent, chunksize: nat)
    requires chunksize > 0
  {
    e.size > 0 && e.addr % chunksize == 0 && e.size % chunksize == 0 && End(e) <= SIZE_T_LIMIT
  }

  predicate WellFormed(s: seq<Extent>, chunksize: nat)
  {
    chunksize > 0 && Sorted(s) && (forall i :: 0 <= i < |s| ==> Shaped(s[i], chunksize))
  }

  /** [lo, lo + size) overlaps no free range. */
  predicate RangeFree(s: seq<Extent>, lo: nat, size: nat)
  {
    forall i :: 0 <= i < |s| ==> End(s[i]) <= lo || lo + size <= s[i].addr
  }

  predicate Within(e: Extent, x: nat)
  {
    e.addr <= x < End(e)
  }

  /** Address x lies in some free range. */
  predicate Covers(s: seq<Extent>, x: nat)
  {
    exists i :: 0 <= i < |s| && Within(s[i], x)
  }

  /** The free bytes the trees hold. */
  function Total(s: seq<Extent>): nat
  {
    if s == [] then 0 else s[0].size + Total(s[1..])
  }

  /** s with s[p..q] replaced by mid. */
  function Splice(s: seq<Extent>, p: nat, q: nat, mid: seq<Extent>): seq<Extent>
    requires p <= q <= |s|
  {
    s[..p] + mid + s[q..]
  }

  // ---------------------------------------------------------------------
  // Searches
  // ---------------------------------------------------------------------

  function IndexAtOrAbove(s: seq<Extent>, a: nat, i: nat): (r: nat)
    requires i <= |s|
    ensures i <= r <= |s|
    ensures forall k :: i <= k < r ==> s[k].addr < a
    ensures r < |s| ==> s[r].addr >= a
    decreases |s| - i
  {
    if i == |s| then i
    else if s[i].addr >= a then i
    else IndexAtOrAbove(s, a, i + 1)
  }

  /** extent_tree_ad_nsearch: the position of the first free range at or above `a`. */
  function NSearch(s: seq<Extent>, a: nat): (r: nat)
    ensures r <= |s|
    ensures forall k :: 0 <= k < r ==> s[k].addr < a
    ensures r < |s| ==> s[r].addr >= a
  {
    IndexAtOrAbove(s, a, 0)
  }

  /** extent_tree_ad_search: the free range that starts exactly at `a`, if any. */
  function AddrSearch(s: seq<Extent>, a: nat): (r: Option<nat>)
    requires Sorted(s)
    ensures r.Some? ==> r.value < |s| && s[r.value].addr == a
    ensures r.None? ==> forall k :: 0 <= k < |s| ==> s[k].addr != a
  {
    var j := NSearch(s, a);
    if j < |s| && s[j].addr == a then Some(j) else None
  }

  /**
   * The best fit among positions i.. : a range of at least `size` bytes, of
   * least size, and the first (lowest) such position among equal sizes.
   */
  function BestFrom(s: seq<Extent>, size: nat, i: nat): (r: Option<nat>)
    requires i <= |s|
    ensures r.Some? ==> i <= r.value < |s| && s[r.value].size >= size
    ensures r.Some? ==> forall k :: i <= k < |s| && s[k].size >= size ==>
              s[r.value].size < s[k].size || (s[r.value].size == s[k].size && r.value <= k)
    ensures r.None? ==> forall k :: i <= k < |s| ==> s[k].size < size
    decreases |s| - i
  {
    if i == |s| then None
    else
      var rest := BestFrom(s, size, i + 1);
      if s[i].size >= size && (rest.None? || s[i].size <= s[rest.value].size) then Some(i)
      else rest
  }

  /** chunk_first_best_fit: the szad search for (size, lowest address). */
  function FirstBestFit(s: seq<Extent>, size: nat): Option<nat>
  {
    BestFrom(s, size, 0)
  }

  /**
   * The first best fit is the smallest free range that holds `size` and,
   * among the ranges of that size, the one at the lowest address; there is
   * none exactly when no free range is large enough.
   */
  lemma FirstBestFitIsLowestSmallest(s: seq<Extent>, size: nat, k: nat)
    requires Sorted(s) && k < |s|
    ensures FirstBestFit(s, size).None? <==> (forall j :: 0 <= j < |s| ==> s[j].size < size)
    ensures var r := FirstBestFit(s, size);
      r.Some? && s[k].size >= size ==>
        s[r.value].size >= size
        && (s[r.value].size < s[k].size || (s[r.value].size == s[k].size && s[r.value].addr <= s[k].addr))
  {
    var r := FirstBestFit(s, size);
    if r.Some? && s[k].size >= size && r.value < k {
      assert End(s[r.value]) <= s[k].addr;
    }
  }

  // ---------------------------------------------------------------------
  // Concatenation and splicing
  // ---------------------------------------------------------------------

  lemma {:induction false} TotalConcat(a: seq<Extent>, b: seq<Extent>)
    ensures Total(a + b) == Total(a) + Total(b)
  {
    if a != [] {
      assert (a + b)[1..] == a[1..] + b;
      TotalConcat(a[1..], b);
    } else {
      assert a + b == b;
    }
  }

  lemma CoversConcat(a: seq<Extent>, b: seq<Extent>, x: nat)
    ensures Covers(a + b, x) == (Covers(a, x) || Covers(b, x))
  {
    if Covers(a + b, x) {
      var i :| 0 <= i < |a + b| && Within((a + b)[i], x);
      if i < |a| {
        assert Within(a[i], x);
      } else {
        assert Within(b[i - |a|], x);
      }
    }
    if Covers(a, x) {
      var i :| 0 <= i < |a| && Within(a[i], x);
      assert (a + b)[i] == a[i];
    }
    if Covers(b, x) {
      var i :| 0 <= i < |b| && Within(b[i], x);
      assert (a + b)[|a| + i] == b[i];
    }
  }

  lemma CoversSingle(e: Extent, x: nat)
    ensures Covers([e], x) == Within(e, x)
  {
    if Within(e, x) {
      assert [e][0] == e;
    }
  }

  lemma CoversEmpty(x: nat)
    ensures !Covers([], x)
  {
  }

  /** Splitting s around the replaced run. */
  lemma SpliceParts(s: seq<Extent>, p: nat, q: nat, mid: seq<Extent>)
    requires p <= q <= |s|
    ensures s == s[..p] + s[p..q] + s[q..]
    ensures Total(Splice(s, p, q, mid)) + Total(s[p..q]) == Total(s) + Total(mid)
  {
    assert s == s[..p] + s[p..q] + s[q..];
    TotalConcat(s[..p] + s[p..q], s[q..]);
    TotalConcat(s[..p], s[p..q]);
    TotalConcat(s[..p] + mid, s[q..]);
    TotalConcat(s[..p], mid);
  }

  /** An address is free after the splice iff it is in the kept parts or in the new run. */
  lemma SpliceCovers(s: seq<Extent>, p: nat, q: nat, mid: seq<Extent>, x: nat)
    requires p <= q <= |s|
    ensures Covers(Splice(s, p, q, mid), x) == (Covers(s[..p], x) || Covers(mid, x) || Covers(s[q..], x))
    ensures Covers(s, x) == (Covers(s[..p], x) || Covers(s[p..q], x) || Covers(s[q..], x))
  {
    SpliceParts(s, p, q, mid);
    CoversConcat(s[..p] + mid, s[q..], x);
    CoversConcat(s[..p], mid, x);
    CoversConcat(s[..p] + s[p..q], s[q..], x);
    CoversConcat(s[..p], s[p..q], x);
  }

  /** Replacing a run by ranges that fit between its neighbours keeps address order. */
  lemma SpliceSorted(s: seq<Extent>, p: nat, q: nat, mid: seq<Extent>)
    requires Sorted(s) && Sorted(mid) && p <= q <= |s|
    requires p > 0 ==> forall k :: 0 <= k < |mid| ==> End(s[p - 1]) <= mid[k].addr
    requires q < |s| ==> forall k :: 0 <= k < |mid| ==> End(mid[k]) <= s[q].addr
    ensures Sorted(Splice(s, p, q, mid))
  {
    var r := Splice(s, p, q, mid);
    var m := |mid|;
    assert |r| == p + m + (|s| - q);
    forall i, j | 0 <= i < j < |r|
      ensures End(r[i]) <= r[j].addr
    {
      if j < p {
        assert r[i] == s[i] && r[j] == s[j];
      } else if j < p + m {
        assert r[j] == mid[j - p];
        if i < p {
          assert r[i] == s[i];
          if i < p - 1 {
            assert End(s[i]) <= s[p - 1].addr;
          }
        } else {
          assert r[i] == mid[i - p];
        }
      } else {
        var j' := j - p - m + q;
        assert r[j] == s[j'];
        if i < p {
          assert r[i] == s[i];
        } else if i < p + m {
          assert r[i] == mid[i - p];
          if q < j' {
            assert End(s[q]) <= s[j'].addr;
          }
        } else {
          assert r[i] == s[i - p - m + q];
        }
      }
    }
  }

  lemma SpliceShaped(s: seq<Extent>, p: nat, q: nat, mid: seq<Extent>, chunksize: nat)
    requires chunksize > 0 && p <= q <= |s|
    requires forall k :: 0 <= k < |s| ==> Shaped(s[k], chunksize)
    requires forall k :: 0 <= k < |mid| ==> Shaped(mid[k], chunksize)
    ensures forall k :: 0 <= k < |Splice(s, p, q, mid)| ==> Shaped(Splice(s, p, q, mid)[k], chunksize)
  {
    var r := Splice(s, p, q, mid);
    forall k | 0 <= k < |r|
      ensures Shaped(r[k], chunksize)
    {
      if k < p {
        assert r[k] == s[k];
      } else if k < p + |mid| {
        assert r[k] == mid[k - p];
      } else {
        assert r[k] == s[k - p - |mid| + q];
      }
    }
  }

  lemma SpliceUnzeroed(s: seq<Extent>, p: nat, q: nat, mid: seq<Extent>)
    requires p <= q <= |s|
    requires forall k :: 0 <= k < |s| ==> !s[k].zeroed
    requires forall k :: 0 <= k < |mid| ==> !mid[k].zeroed
    ensures forall k :: 0 <= k < |Splice(s, p, q, mid)| ==> !Splice(s, p, q, mid)[k].zeroed
  {
    var r := Splice(s, p, q, mid);
    forall k | 0 <= k < |r|
      ensures !r[k].zeroed
    {
      if k < p {
        assert r[k] == s[k];
      } else if k < p + |mid| {
        assert r[k] == mid[k - p];
      } else {
        assert r[k] == s[k - p - |mid| + q];
      }
    }
  }

  /** Replacing a run by one whole-chunk range that fits between its neighbours keeps the trees well formed. */
  lemma SpliceWellFormed(s: seq<Extent>, chunksize: nat, p: nat, q: nat, m: Extent)
    requires WellFormed(s, chunksize) && p <= q <= |s| && Shaped(m, chunksize)
    requires p > 0 ==> End(s[p - 1]) <= m.addr
    requires q < |s| ==> End(m) <= s[q].addr
    ensures WellFormed(Splice(s, p, q, [m]), chunksize)
  {
    SpliceSorted(s, p, q, [m]);
    SpliceShaped(s, p, q, [m], chunksize);
  }

  // ---------------------------------------------------------------------
  // The tree edits chunk_record and chunk_recycle make, as splices
  // ---------------------------------------------------------------------

  /** Changing one range in place (extent_node_size_set and friends). */
  lemma UpdateIsSplice(s: seq<Extent>, j: nat, m: Extent)
    requires j < |s|
    ensures s[j := m] == Splice(s, j, j + 1, [m])
  {
  }

  /** Inserting a new range at position j. */
  lemma InsertIsSplice(s: seq<Extent>, j: nat, m: Extent)
    requires j <= |s|
    ensures s[..j] + [m] + s[j..] == Splice(s, j, j, [m])
  {
  }

  /** Removing the range at position j. */
  lemma RemoveIsSplice(s: seq<Extent>, j: nat)
    requires j < |s|
    ensures s[..j] + s[j + 1..] == Splice(s, j, j + 1, [])
  {
  }

  /** Merging the range before a spliced-in one into it widens the splice by one to the left. */
  lemma MergeBackIsSplice(s: seq<Extent>, p: nat, q: nat, m: Extent, m2: Extent)
    requires p < q <= |s|
    ensures var t := Splice(s, p + 1, q, [m]);
      t[p] == s[p] && t[p + 1] == m && t[..p] + [m2] + t[p + 2..] == Splice(s, p, q, [m2])
  {
    var t := Splice(s, p + 1, q, [m]);
    assert t[..p] == s[..p];
    assert t[p + 2..] == s[q..];
  }

  /**
   * A range that overlaps no free range sits between two neighbours: every
   * range before the first one at or above its end finishes at or below its
   * start.
   */
  lemma InsertionPoint(s: seq<Extent>, lo: nat, size: nat)
    requires RangeFree(s, lo, size)
    ensures var j := NSearch(s, lo + size);
      (forall k :: 0 <= k < j ==> End(s[k]) <= lo)
      && (j < |s| ==> lo + size <= s[j].addr)
  {
  }
}
