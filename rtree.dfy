/**
 * The radix tree of include/jemalloc/internal/rtree.h, which maps chunk
 * addresses to their extents.
 *
 * Two parts are modelled. The key arithmetic (rtree_start_level,
 * rtree_subkey) works on the tree's level table, a value. The leaf
 * elements each hold one word, `pun`: an extent pointer whose bit 0 is a
 * lock. The model keeps the leaf nodes that exist, each named by the key
 * bits above the leaf level, and the words written to elements, in a map
 * from the leaf key (the key bits the tree distinguishes);
 * SameLeafIffSamePath shows that the leaf key and the path of subkeys
 * determine each other, so one map entry stands for the one element every
 * lookup of those keys reaches. An element of a present node that was never
 * written is zero. Pointers are 64-bit; NULL is 0.
 */
module RadixTree {
  import opened Arith

  /** LG_SIZEOF_PTR on a 64-bit target, and the pointer width in bits it gives. */
  const LG_SIZEOF_PTR: nat := 3
  const PTR_BITS: nat := 64
  const LG_RTREE_BITS_PER_LEVEL: nat := 4
  const RTREE_BITS_PER_LEVEL: nat := 16
  /** The deepest tree: one level per RTREE_BITS_PER_LEVEL bits of a pointer. */
  const RTREE_HEIGHT_MAX: nat := 4
  const NULL: nat := 0
  /** The marker a subtree pointer holds while another thread creates the node. */
  const RTREE_NODE_INITIALIZING: nat := 1

  lemma Widths()
    ensures Pow2(LG_SIZEOF_PTR + 3) == PTR_BITS
    ensures Pow2(LG_RTREE_BITS_PER_LEVEL) == RTREE_BITS_PER_LEVEL
    ensures RTREE_HEIGHT_MAX == PTR_BITS / RTREE_BITS_PER_LEVEL
  {
    assert Pow2(4) == 16;
    assert Pow2(6) == 4 * Pow2(4);
  }

  /** One level of the tree: the key bits it distinguishes, and those of all levels down to it. */
  datatype Level = Level(bits: nat, cumbits: nat)

  /** The shape rtree_new sets up: the height, the start-level table and the levels. */
  datatype Shape = Shape(height: nat, startLevel: seq<nat>, levels: seq<Level>)

  /**
   * What the tree's fields keep: the start-level table names levels of the
   * tree, each level distinguishes at least one bit, and `cumbits` adds up
   * `bits` level by level without passing the pointer width.
   */
  predicate ValidShape(t: Shape)
  {
    1 <= t.height <= RTREE_HEIGHT_MAX && |t.startLevel| == RTREE_HEIGHT_MAX && |t.levels| == t.height
    && (forall i :: 0 <= i < |t.startLevel| ==> t.startLevel[i] < t.height)
    && (forall l :: 0 <= l < |t.levels| ==> 1 <= t.levels[l].bits <= t.levels[l].cumbits <= PTR_BITS)
    && t.levels[0].cumbits == t.levels[0].bits
    && (forall l :: 0 < l < |t.levels| ==> t.levels[l].cumbits == t.levels[l - 1].cumbits + t.levels[l].bits)
  }

  /** The bits of the leaf level's cumbits are the most any level distinguishes. */
  lemma {:induction false} CumbitsBelowLeaf(t: Shape, l: nat)
    requires ValidShape(t) && l < t.height
    ensures t.levels[l].cumbits <= t.levels[t.height - 1].cumbits
    decreases t.height - l
  {
    if l < t.height - 1 {
      CumbitsBelowLeaf(t, l + 1);
    }
  }

  // ---------------------------------------------------------------------
  // Key arithmetic
  // ---------------------------------------------------------------------

  /** lg_floor: the index of the highest set bit. */
  function LgFloor(x: nat): (r: nat)
    requires x > 0
    ensures Pow2(r) <= x < 2 * Pow2(r)
  {
    if x == 1 then 0 else 1 + LgFloor(x / 2)
  }

  /** A nonzero pointer-width key has its highest bit below 64, so the table index is below 4. */
  lemma StartIndexInRange(key: nat)
    requires 0 < key < SIZE_T_LIMIT
    ensures LgFloor(key) < PTR_BITS
    ensures Shr(LgFloor(key), LG_RTREE_BITS_PER_LEVEL) < RTREE_HEIGHT_MAX
  {
    LgFloorBelow(key);
    ShrBelowSixtyFour(LgFloor(key));
  }

  lemma LgFloorBelow(key: nat)
    requires 0 < key < SIZE_T_LIMIT
    ensures LgFloor(key) < PTR_BITS
  {
    var k := LgFloor(key);
    Pow2SixtyFour();
    if k >= PTR_BITS {
      Pow2Monotone(PTR_BITS, k);
    }
  }

  lemma ShrBelowSixtyFour(k: nat)
    requires k < PTR_BITS
    ensures Shr(k, LG_RTREE_BITS_PER_LEVEL) < RTREE_HEIGHT_MAX
  {
    ShrIsDiv(k, LG_RTREE_BITS_PER_LEVEL);
    assert Pow2(LG_RTREE_BITS_PER_LEVEL) == 16;
  }

  /**
   * rtree_start_level: the level a lookup starts at. Key 0 starts at the
   * leaf level; any other key at the table entry for its highest set bit,
   * which is a level of the tree.
   */
  function StartLevel(t: Shape, key: nat): (r: nat)
    requires ValidShape(t) && IsSizeT(key)
    ensures r < t.height
    ensures key == 0 ==> r == t.height - 1
  {
    if key == 0 then t.height - 1
    else
      StartIndexInRange(key);
      t.startLevel[Shr(LgFloor(key), LG_RTREE_BITS_PER_LEVEL)]
  }

  /**
   * rtree_subkey: `(key >> (64 - cumbits)) & ((1 << bits) - 1)`, the bits
   * of the key that pick the slot at `level`. It is the level's `bits`-wide
   * digit of the key, so it indexes a node of 2^bits slots.
   */
  function Subkey(t: Shape, key: nat, level: nat): (r: nat)
    requires ValidShape(t) && level < t.height
    ensures r == Shr(key, PTR_BITS - t.levels[level].cumbits) % Pow2(t.levels[level].bits)
    ensures r < Pow2(t.levels[level].bits)
  {
    var lv := t.levels[level];
    LowMaskIsMod(Shr(key, PTR_BITS - lv.cumbits), lv.bits);
    BitAnd(Shr(key, PTR_BITS - lv.cumbits), Pow2(lv.bits) - 1)
  }

  /** The key bits the tree distinguishes: keys with the same leaf key share a leaf element. */
  function LeafKey(t: Shape, key: nat): nat
    requires ValidShape(t)
  {
    Shr(key, PTR_BITS - t.levels[t.height - 1].cumbits)
  }

  /** Every subkey is a digit of the leaf key. */
  lemma SubkeyOfLeafKey(t: Shape, key: nat, l: nat, d: nat)
    requires ValidShape(t) && l < t.height && t.levels[l].cumbits + d == t.levels[t.height - 1].cumbits
    ensures Subkey(t, key, l) == Shr(LeafKey(t, key), d) % Pow2(t.levels[l].bits)
  {
    var last := t.levels[t.height - 1].cumbits;
    ShrAdd(key, PTR_BITS - last, d);
  }

  /** Shifting a value below 2^(n + c) right by n leaves a value below 2^c. */
  lemma {:induction false} ShrBelow(x: nat, n: nat, c: nat)
    requires x < Pow2(n + c)
    ensures Shr(x, n) < Pow2(c)
  {
    if n > 0 {
      ShrBelow(x / 2, n - 1, c);
    }
  }

  /** A value is its top part shifted back plus its b low bits. */
  lemma ShrSplit(y: nat, b: nat)
    ensures y == Pow2(b) * Shr(y, b) + y % Pow2(b)
  {
    ShrIsDiv(y, b);
    DivMod(y, Pow2(b));
  }

  /** Keys whose subkeys agree on levels 0 to l agree on their top cumbits(l) bits. */
  lemma {:induction false} PrefixFromSubkeys(t: Shape, k1: nat, k2: nat, l: nat)
    requires ValidShape(t) && IsSizeT(k1) && IsSizeT(k2) && l < t.height
    requires forall j :: 0 <= j <= l ==> Subkey(t, k1, j) == Subkey(t, k2, j)
    ensures Shr(k1, PTR_BITS - t.levels[l].cumbits) == Shr(k2, PTR_BITS - t.levels[l].cumbits)
  {
    var c := t.levels[l].cumbits;
    if l == 0 {
      Pow2SixtyFour();
      ShrBelow(k1, PTR_BITS - c, c);
      ShrBelow(k2, PTR_BITS - c, c);
      DivModUnique(Shr(k1, PTR_BITS - c), Pow2(c), 0, Shr(k1, PTR_BITS - c));
      DivModUnique(Shr(k2, PTR_BITS - c), Pow2(c), 0, Shr(k2, PTR_BITS - c));
      assert Subkey(t, k1, 0) == Subkey(t, k2, 0);
    } else {
      var b := t.levels[l].bits;
      var n := PTR_BITS - c;
      PrefixFromSubkeys(t, k1, k2, l - 1);
      assert n + b == PTR_BITS - t.levels[l - 1].cumbits;
      ShrAdd(k1, n, b);
      ShrAdd(k2, n, b);
      ShrSplit(Shr(k1, n), b);
      ShrSplit(Shr(k2, n), b);
      assert Subkey(t, k1, l) == Subkey(t, k2, l);
    }
  }

  /**
   * Two keys reach the same leaf element exactly when their lookups take
   * the same path (the same subkey at every level): the leaf key is a
   * faithful name for an element.
   */
  lemma SameLeafIffSamePath(t: Shape, k1: nat, k2: nat)
    requires ValidShape(t) && IsSizeT(k1) && IsSizeT(k2)
    ensures LeafKey(t, k1) == LeafKey(t, k2) <==>
            forall l :: 0 <= l < t.height ==> Subkey(t, k1, l) == Subkey(t, k2, l)
  {
    if LeafKey(t, k1) == LeafKey(t, k2) {
      forall l | 0 <= l < t.height
        ensures Subkey(t, k1, l) == Subkey(t, k2, l)
      {
        CumbitsBelowLeaf(t, l);
        var d := t.levels[t.height - 1].cumbits - t.levels[l].cumbits;
        SubkeyOfLeafKey(t, k1, l, d);
        SubkeyOfLeafKey(t, k2, l, d);
      }
    }
    if forall l :: 0 <= l < t.height ==> Subkey(t, k1, l) == Subkey(t, k2, l) {
      PrefixFromSubkeys(t, k1, k2, t.height - 1);
    }
  }

  // ---------------------------------------------------------------------
  // The element word and its lock bit
  // ---------------------------------------------------------------------

  /** rtree_node_valid: a child or subtree pointer is usable when it is above RTREE_NODE_INITIALIZING. */
  function NodeValid(p: nat): (r: bool)
    ensures r <==> p != NULL && p != RTREE_NODE_INITIALIZING
  {
    p > RTREE_NODE_INITIALIZING
  }

  /** `pun & 0x1`: the lock bit. */
  function LockBit(pun: nat): (r: nat)
    ensures r == pun % 2
  {
    LowMaskIsMod(pun, 1);
    BitAnd(pun, 1)
  }

  /** rtree_elm_read: `pun & ~0x1`, the stored pointer with the lock bit cleared. */
  function ElmRead(pun: nat): (r: nat)
    requires IsSizeT(pun)
    ensures r == pun - pun % 2
  {
    Pow2SixtyFour();
    HighMaskClearsLow(pun, 64, 1);
    BitAnd(pun, SIZE_T_MAX - 1)
  }

  /** `extent | 0x1`: the word of an element locked while it holds `extent`. */
  function ElmLocked(extent: nat): (r: nat)
    requires extent % 2 == 0
    ensures r == extent + 1
  {
    BitOrZeroRight(extent / 2);
    BitOr(extent, 1)
  }

  /** rtree_elm_read_acquired: the pointer in a locked element. */
  function ElmReadAcquired(pun: nat): (r: nat)
    requires IsSizeT(pun) && LockBit(pun) == 1
    ensures r + 1 == pun && LockBit(r) == 0
  {
    ElmRead(pun)
  }

  /** rtree_elm_read never shows the lock: what it returns is even and differs from the word only in bit 0. */
  lemma ElmReadMasksLock(pun: nat)
    requires IsSizeT(pun)
    ensures LockBit(ElmRead(pun)) == 0 && ElmRead(ElmRead(pun)) == ElmRead(pun)
    ensures ElmRead(pun) == pun || ElmRead(pun) + 1 == pun
  {
  }

  /** rtree_elm_write_acquired keeps the lock, and rtree_elm_read_acquired then returns what was written. */
  lemma WriteAcquiredThenRead(extent: nat)
    requires IsSizeT(extent) && extent % 2 == 0
    ensures IsSizeT(ElmLocked(extent)) && LockBit(ElmLocked(extent)) == 1
    ensures ElmReadAcquired(ElmLocked(extent)) == extent
  {
  }

  /** rtree_elm_release writes back the payload unlocked: a plain read sees the same pointer. */
  lemma ReleaseKeepsPayload(pun: nat)
    requires IsSizeT(pun) && LockBit(pun) == 1
    ensures LockBit(ElmReadAcquired(pun)) == 0
    ensures ElmRead(ElmReadAcquired(pun)) == ElmReadAcquired(pun) == ElmRead(pun)
  {
  }

  // ---------------------------------------------------------------------
  // The tree's leaf nodes and elements
  // ---------------------------------------------------------------------

  /**
   * The leaf node that holds the element of a leaf key: the key bits above
   * the leaf level, which the lookup's subkeys at the levels above pick.
   */
  function NodeOf(t: Shape, leafKey: nat): nat
    requires ValidShape(t)
  {
    Shr(leafKey, t.levels[t.height - 1].bits)
  }

  /** The leaf node a lookup of `key` ends in. */
  function NodeKey(t: Shape, key: nat): nat
    requires ValidShape(t)
  {
    NodeOf(t, LeafKey(t, key))
  }

  /**
   * A tree: its shape, the leaf nodes that exist, and the words written to
   * leaf elements, keyed by leaf key. A node is allocated whole, so every
   * element of a present node exists; one that is not in `slots` is still
   * zeroed. A key whose leaf node is absent has no element: a node on its
   * path is missing.
   */
  class RTree {
    const shape: Shape
    var nodes: set<nat>
    var slots: map<nat, nat>

    predicate Valid()
      reads this
    {
      ValidShape(shape) && forall i :: i in slots ==> IsSizeT(slots[i]) && NodeOf(shape, i) in nodes
    }

    constructor(shape: Shape)
      requires ValidShape(shape)
      ensures Valid() && this.shape == shape && nodes == {} && slots == map[]
    {
      this.shape := shape;
      nodes := {};
      slots := map[];
    }

    /** Whether the leaf node for `key` exists, so that its element does. */
    predicate Present(key: nat)
      reads this
      requires ValidShape(shape)
    {
      NodeKey(shape, key) in nodes
    }

    /** The word in the element for `key`: what was written there, else the zero the node was allocated with. */
    function Word(key: nat): (w: nat)
      reads this
      requires Valid()
      ensures IsSizeT(w)
      ensures LeafKey(shape, key) !in slots ==> w == NULL
    {
      var i := LeafKey(shape, key);
      Pow2SixtyFour();
      if i in slots then slots[i] else NULL
    }

    /**
     * rtree_read: the extent in the element for `key` with the lock bit
     * masked, or NULL when the element does not exist. A dependent read
     * demands the element.
     */
    function Read(key: nat, dependent: bool): (r: nat)
      reads this
      requires Valid()
      requires dependent ==> Present(key)
      ensures LockBit(r) == 0
      ensures !Present(key) ==> r == NULL
      ensures Present(key) ==> r == ElmRead(Word(key))
    {
      var i := LeafKey(shape, key);
      if i in slots then ElmRead(slots[i]) else NULL
    }

    /** rtree_elm_read_acquired on the element for `key`, which is locked. */
    function ReadAcquired(key: nat): (r: nat)
      reads this
      requires Valid() && Present(key) && LockBit(Word(key)) == 1
      ensures r + 1 == Word(key)
    {
      ElmReadAcquired(Word(key))
    }

    /**
     * rtree_elm_lookup: find the element for `key`. When its leaf node is
     * missing the nodes on the path are created (zeroed) only when
     * `initMissing` is set and the node allocation does not fail;
     * otherwise the lookup finds nothing. No element changes.
     */
    method Lookup(key: nat, initMissing: bool, nodeAllocFails: bool) returns (found: bool)
      requires Valid()
      modifies this
      ensures Valid() && slots == old(slots)
      ensures found == (old(Present(key)) || (initMissing && !nodeAllocFails))
      ensures nodes == if found then old(nodes) + {NodeKey(shape, key)} else old(nodes)
      ensures found ==> Present(key)
    {
      if NodeKey(shape, key) in nodes {
        return true;
      }
      if initMissing && !nodeAllocFails {
        nodes := nodes + {NodeKey(shape, key)};
        return true;
      }
      return false;
    }

    /**
     * rtree_write: store a (non-NULL, even) extent in the empty element for
     * `key`. It fails, leaving the tree as it was, only when the leaf node is
     * missing and cannot be created; afterwards rtree_read returns the extent.
     */
    method Write(key: nat, extent: nat, nodeAllocFails: bool) returns (failed: bool)
      requires Valid() && IsSizeT(extent) && extent != NULL && extent % 2 == 0
      requires ElmRead(Word(key)) == NULL
      modifies this
      ensures Valid()
      ensures failed == (!old(Present(key)) && nodeAllocFails)
      ensures failed ==> nodes == old(nodes) && slots == old(slots)
      ensures !failed ==> nodes == old(nodes) + {NodeKey(shape, key)}
                          && slots == old(slots)[LeafKey(shape, key) := extent] && Read(key, false) == extent
    {
      var found := Lookup(key, true, nodeAllocFails);
      if !found {
        return true;
      }
      slots := slots[LeafKey(shape, key) := extent];
      return false;
    }

    /**
     * rtree_elm_acquire: find the element and set its lock bit, keeping the
     * pointer it holds. Without other threads the compare-and-swap succeeds
     * the first time, because the element is unlocked.
     */
    method Acquire(key: nat, dependent: bool, initMissing: bool, nodeAllocFails: bool) returns (found: bool)
      requires Valid() && (!dependent || !initMissing)
      requires dependent ==> Present(key)
      requires LockBit(Word(key)) == 0
      modifies this
      ensures Valid()
      ensures found == (old(Present(key)) || (initMissing && !nodeAllocFails))
      ensures !found ==> nodes == old(nodes) && slots == old(slots)
      ensures found ==> nodes == old(nodes) + {NodeKey(shape, key)}
                         && slots == old(slots)[LeafKey(shape, key) := old(Word(key)) + 1]
                         && LockBit(Word(key)) == 1 && ReadAcquired(key) == old(Word(key))
    {
      found := Lookup(key, initMissing, nodeAllocFails);
      if !found {
        return;
      }
      var extent := ElmRead(Word(key));
      var s := ElmLocked(extent);
      // atomic_cas_p(&elm->pun, extent, s) succeeds: the word is `extent`, since its lock bit is clear.
      slots := slots[LeafKey(shape, key) := s];
    }

    /** rtree_elm_write_acquired: store an extent in a locked element, which stays locked. */
    method WriteAcquired(key: nat, extent: nat)
      requires Valid() && Present(key) && LockBit(Word(key)) == 1
      requires IsSizeT(extent) && extent % 2 == 0
      modifies this
      ensures Valid() && nodes == old(nodes)
      ensures slots == old(slots)[LeafKey(shape, key) := ElmLocked(extent)]
      ensures LockBit(Word(key)) == 1 && ReadAcquired(key) == extent
    {
      slots := slots[LeafKey(shape, key) := ElmLocked(extent)];
    }

    /** rtree_elm_release: write the acquired pointer back, which clears the lock bit. */
    method Release(key: nat)
      requires Valid() && Present(key) && LockBit(Word(key)) == 1
      modifies this
      ensures Valid() && nodes == old(nodes)
      ensures slots == old(slots)[LeafKey(shape, key) := old(ReadAcquired(key))]
      ensures LockBit(Word(key)) == 0 && Read(key, true) == old(ReadAcquired(key))
    {
      slots := slots[LeafKey(shape, key) := ElmReadAcquired(Word(key))];
    }

    /** rtree_clear: acquire the (existing) element, store NULL in it, release it. */
    method Clear(key: nat)
      requires Valid() && Present(key) && LockBit(Word(key)) == 0
      modifies this
      ensures Valid() && nodes == old(nodes)
      ensures slots == old(slots)[LeafKey(shape, key) := NULL]
      ensures Read(key, true) == NULL && LockBit(Word(key)) == 0
    {
      var found := Acquire(key, true, false, false);
      WriteAcquired(key, NULL);
      Release(key);
    }
  }

  /**
   * A write allocates the whole leaf node: a later lookup of any key in the
   * same node finds its element without allocating, and a read of a key
   * never written there returns NULL.
   */
  method WriteThenSiblingLookup(t: RTree, k1: nat, k2: nat, extent: nat, nodeAllocFails: bool)
    returns (failed: bool, found: bool, r: nat)
    requires t.Valid() && IsSizeT(extent) && extent != NULL && extent % 2 == 0
    requires ElmRead(t.Word(k1)) == NULL
    requires NodeKey(t.shape, k1) == NodeKey(t.shape, k2) && LeafKey(t.shape, k2) !in t.slots
    requires LeafKey(t.shape, k1) != LeafKey(t.shape, k2)
    modifies t
    ensures !failed ==> found && r == NULL
  {
    failed := t.Write(k1, extent, nodeAllocFails);
    found := t.Lookup(k2, false, true);
    r := t.Read(k2, false);
  }
}
