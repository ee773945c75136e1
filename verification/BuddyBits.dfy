/**
 The two position bits of a block header, and the buddy address computed from them.

 `PositionOf` inherits the bits downwards, as the splits of `mpool_alloc` do.  The lemmas
 give the same bits bottom-up from the offset alone, and show that a merge can rebuild the
 parent's bits from its two children.
 */
module BuddyBits {
  import opened Powers
  import opened BuddyTree

  /** The bits `mpool_init` gives to the single initial block. */
  const ROOT := Position(false, true)

  function LeftChild(p: Position): Position { Position(false, p.right) }

  function RightChild(p: Position): Position { Position(true, p.parent) }

  /** What a merge computes from the bits of the left and of the right buddy. */
  function Merged(left: Position, right: Position): Position { Position(left.parent, right.parent) }

  /** The bits of region `(o, j)` inside a `2^k` region that has bits `p`. */
  function PositionOf(k: nat, p: Position, o: nat, j: nat): Position {
    if j >= k then p
    else if o < Half(k) then PositionOf(k - 1, LeftChild(p), o, j)
    else PositionOf(k - 1, RightChild(p), o - Half(k), j)
  }

  /** Where `mpool_free` looks for the buddy: left of a right block, right of a left block. */
  function BuddyOf(o: int, j: nat, right: bool): int {
    if right then o - Pow2(j) else o + Pow2(j)
  }

  function ParentOf(o: int, j: nat, right: bool): int {
    if right then o - Pow2(j) else o
  }

  // ----- splitting and merging

  /** The halves of a region carry the child bits, and merging those gives the region's own. */
  lemma {:induction false} SplitPosition(k: nat, p: Position, o: nat, j: nat)
    requires 0 < j && IsRegion(k, o, j)
    ensures IsRegion(k, o, j - 1) && IsRegion(k, o + Half(j), j - 1)
    ensures var q := PositionOf(k, p, o, j);
            var l, r := PositionOf(k, p, o, j - 1), PositionOf(k, p, o + Half(j), j - 1);
            l == LeftChild(q) && r == RightChild(q) && Merged(l, r) == q
  {
    if j < k {
      if o < Half(k) {
        RegionBound(k - 1, o, j);
        SplitPosition(k - 1, LeftChild(p), o, j);
      } else {
        SplitPosition(k - 1, RightChild(p), o - Half(k), j);
      }
    }
  }

  lemma {:induction false} RegionBound(k: nat, o: nat, j: nat)
    requires IsRegion(k, o, j)
    ensures j <= k && o + Pow2(j) <= Pow2(k)
  {
    if j < k {
      RegionBound(k - 1, if o < Half(k) then o else o - Half(k), j);
    }
  }

  /** A region below the top is the left or right half of its parent, as its LR bit says. */
  lemma {:induction false} ParentRegion(k: nat, p: Position, o: nat, j: nat)
    requires j < k && IsRegion(k, o, j)
    ensures var q := PositionOf(k, p, o, j);
            var parent := ParentOf(o, j, q.right);
            parent >= 0 && IsRegion(k, parent, j + 1)
            && o == if q.right then parent + Half(j + 1) else parent
  {
    if j < k - 1 {
      if o < Half(k) {
        RegionBound(k - 1, o, j);
        ParentRegion(k - 1, LeftChild(p), o, j);
      } else {
        ParentRegion(k - 1, RightChild(p), o - Half(k), j);
      }
    }
  }

  /** A block below the top level lies in a split parent region. */
  lemma {:induction false} ParentIsSplit(t: Tree, k: nat, p: Position, o: nat, j: nat)
    requires j < k && HasRegion(t, k, o, j)
    ensures IsRegion(k, o, j)
    ensures var parent := ParentOf(o, j, PositionOf(k, p, o, j).right);
            parent >= 0 && HasRegion(t, k, parent, j + 1) && Sub(t, k, parent, j + 1).Node?
  {
    RegionLeaf(t, k, o, j);
    if j < k - 1 {
      if o < Half(k) {
        ParentIsSplit(t.left, k - 1, LeftChild(p), o, j);
        ParentRegion(k - 1, LeftChild(p), o, j);
        RegionBound(k - 1, ParentOf(o, j, PositionOf(k, p, o, j).right), j + 1);
      } else {
        ParentIsSplit(t.right, k - 1, RightChild(p), o - Half(k), j);
      }
    }
  }

  // ----- the buddy's address

  lemma {:induction false} LeftmostBlock(t: Tree, k: nat, m: nat)
    requires Fits(t, k, m)
    ensures LeafAt(t, k, 0).Block?
    ensures LeafAt(t, k, 0).logsize == k <==> t.Leaf?
  {
    if t.Node? {
      LeftmostBlock(t.left, k - 1, m);
      LeafFits(t.left, k - 1, m, 0);
    }
  }

  /** The region of a block's buddy, whether or not it has been split further. */
  lemma BuddyRegion(t: Tree, k: nat, p: Position, o: nat, j: nat)
    requires j < k && HasRegion(t, k, o, j)
    ensures var right := PositionOf(k, p, o, j).right;
            var buddy, parent := BuddyOf(o, j, right), ParentOf(o, j, right);
            0 <= buddy && buddy + Pow2(j) <= Pow2(k) && 0 <= parent
            && HasRegion(t, k, buddy, j) && HasRegion(t, k, parent, j + 1)
            && PositionOf(k, p, buddy, j).right == !right
            && Sub(t, k, parent, j + 1)
               == if right then Node(Sub(t, k, buddy, j), Sub(t, k, o, j))
                           else Node(Sub(t, k, o, j), Sub(t, k, buddy, j))
  {
    ParentIsSplit(t, k, p, o, j);
    ParentRegion(k, p, o, j);
    var right := PositionOf(k, p, o, j).right;
    var parent := ParentOf(o, j, right);
    RegionHalves(t, k, parent, j + 1);
    SplitPosition(k, p, parent, j + 1);
    RegionLeaf(t, k, BuddyOf(o, j, right), j);
  }

  /**
   The address `mpool_free` computes for the buddy of a block below the top level is inside
   the pool and is the start of a block no larger than the block itself; it has the block's
   size exactly when the buddy region is unsplit.
   */
  lemma BuddyAddressSound(t: Tree, k: nat, m: nat, o: nat, j: nat)
    requires Fits(t, k, m) && HasBlock(t, k, o, j) && j < k
    ensures var buddy := BuddyOf(o, j, PositionOf(k, ROOT, o, j).right);
            0 <= buddy < Pow2(k) && HasRegion(t, k, buddy, j)
            && LeafAt(t, k, buddy).Block? && LeafAt(t, k, buddy).logsize <= j
            && (LeafAt(t, k, buddy).logsize == j <==> Sub(t, k, buddy, j).Leaf?)
  {
    LeafRange(t, k, o);
    BuddyRegion(t, k, ROOT, o, j);
    var buddy := BuddyOf(o, j, PositionOf(k, ROOT, o, j).right);
    SubFits(t, k, m, buddy, j);
    SubLeafAt(t, k, buddy, j, buddy);
    LeftmostBlock(Sub(t, k, buddy, j), j, m);
    LeafFits(Sub(t, k, buddy, j), j, m, 0);
  }

  lemma {:induction false} SubFits(t: Tree, k: nat, m: nat, o: nat, j: nat)
    requires Fits(t, k, m) && HasRegion(t, k, o, j)
    ensures Fits(Sub(t, k, o, j), j, m)
  {
    if j < k {
      if o < Half(k) {
        SubFits(t.left, k - 1, m, o, j);
      } else {
        SubFits(t.right, k - 1, m, o - Half(k), j);
      }
    }
  }

  // ----- the bits from the offset alone

  /** Binary digit `j` of `o`. */
  predicate Bit(o: nat, j: nat) {
    if j == 0 then o % 2 == 1 else Bit(o / 2, j - 1)
  }

  /** LR: the binary digit of the offset that the block's size selects. */
  predicate RightBit(k: nat, o: nat, j: nat) {
    j < k && Bit(o, j)
  }

  /** PARENT: the LR bit of the parent of the nearest enclosing left block. */
  predicate ParentBit(k: nat, o: nat, j: nat)
    decreases k - j
  {
    if j >= k then true
    else if RightBit(k, o, j) then o >= Pow2(j) && ParentBit(k, o - Pow2(j), j + 1)
    else RightBit(k, o, j + 1)
  }

  /** A region is an aligned range inside the pool. */
  lemma {:induction false} RegionIsAligned(k: nat, o: nat, j: nat)
    ensures IsRegion(k, o, j) <==> j <= k && o % Pow2(j) == 0 && o + Pow2(j) <= Pow2(k)
  {
    if j == k {
      Pow2AtStart(o, k);
    } else if j < k {
      if o < Half(k) {
        RegionIsAligned(k - 1, o, j);
        HalfIsAligned(o, j, k - 1);
      } else {
        RegionIsAligned(k - 1, o - Half(k), j);
        ShiftAligned(o - Half(k), j, k - 1);
      }
    }
  }

  lemma Pow2AtStart(o: nat, k: nat)
    ensures o % Pow2(k) == 0 && o + Pow2(k) <= Pow2(k) <==> o == 0
  {
    QuotientUnique(0, Pow2(k), 0, 0);
  }

  lemma {:induction false} Pow2Divides(j: nat, k: nat) returns (c: nat)
    requires j <= k
    ensures Pow2(k) == Pow2(j) * c
  {
    if j == k {
      c := 1;
    } else {
      c := Pow2Divides(j, k - 1);
      assert Pow2(j) * (2 * c) == 2 * (Pow2(j) * c);
      c := 2 * c;
    }
  }

  lemma ShiftAligned(o: nat, j: nat, k: nat)
    requires j <= k
    ensures (o + Pow2(k)) % Pow2(j) == o % Pow2(j)
  {
    var c := Pow2Divides(j, k);
    DivMod(o, Pow2(j));
    MulDistributes(Pow2(j), o / Pow2(j), c);
    QuotientUnique(o + Pow2(k), Pow2(j), o / Pow2(j) + c, o % Pow2(j));
  }

  /** An aligned range that starts in the left half also ends there. */
  lemma HalfIsAligned(o: nat, j: nat, k: nat)
    requires j <= k && o < Pow2(k)
    ensures o % Pow2(j) == 0 ==> o + Pow2(j) <= Pow2(k)
  {
    if o % Pow2(j) == 0 {
      var d := Pow2(j);
      var c := Pow2Divides(j, k);
      DivMod(o, d);
      var gap := c - o / d;
      MulDistributes(d, c, o / d);
      PositiveFactor(d, gap);
      MulAtLeast(d, gap);
    }
  }

  lemma PositiveFactor(d: int, g: int)
    requires d > 0 && d * g > 0
    ensures g > 0
  {
  }

  lemma {:induction false} BitOfSingle(j: nat)
    ensures !Bit(0, j) && Bit(Pow2(j), j)
  {
    if j > 0 {
      BitOfSingle(j - 1);
    }
  }

  /** A higher power of two does not touch a digit. */
  lemma {:induction false} BitBelow(o: nat, j: nat, n: nat)
    requires j < n
    ensures Bit(o + Pow2(n), j) == Bit(o, j)
  {
    if j > 0 {
      assert (o + Pow2(n)) / 2 == o / 2 + Pow2(n - 1);
      BitBelow(o / 2, j - 1, n - 1);
    }
  }

  /** A region below the top is a right half exactly when its digit is set. */
  lemma {:induction false} RightFromOffset(k: nat, p: Position, o: nat, j: nat)
    requires IsRegion(k, o, j) && j < k
    ensures PositionOf(k, p, o, j).right == Bit(o, j)
  {
    if j == k - 1 {
      BitOfSingle(j);
    } else if o < Half(k) {
      RightFromOffset(k - 1, LeftChild(p), o, j);
    } else {
      RightFromOffset(k - 1, RightChild(p), o - Half(k), j);
      BitBelow(o - Half(k), j, k - 1);
    }
  }

  /** The inherited bits of every region are the bits read off its offset and size. */
  lemma {:induction false} PositionFromOffset(k: nat, o: nat, j: nat)
    requires IsRegion(k, o, j)
    ensures PositionOf(k, ROOT, o, j) == Position(RightBit(k, o, j), ParentBit(k, o, j))
    decreases k - j
  {
    if j < k {
      ParentRegion(k, ROOT, o, j);
      var right := PositionOf(k, ROOT, o, j).right;
      var parent := ParentOf(o, j, right);
      SplitPosition(k, ROOT, parent, j + 1);
      PositionFromOffset(k, parent, j + 1);
      RightFromOffset(k, ROOT, o, j);
    }
  }
}
