/**
 The buddy system's split tree.

 The pool of `2^k` bytes is a binary tree: a leaf is one listed block, an inner node a
 region that has been split in two.  Offsets are relative to the region at hand, so the
 left half of a `2^k` region starts at 0 and the right half at `2^(k-1)`.

 Nothing of this is stored by the program.  `MPool` keeps such a tree as ghost state and
 proves that its headers and its block lists spell it out.
 */
module BuddyTree {
  import opened Powers

  datatype Tree = Leaf(avail: bool) | Node(left: Tree, right: Tree)

  /** What starts at an offset: nothing, or a block with its availability and size. */
  datatype Slot = NoBlock | Block(avail: bool, logsize: nat)

  /** The position bits of a header: its own LR bit and the PARENT bit. */
  datatype Position = Position(right: bool, parent: bool)

  const FREE := Leaf(true)
  const USED := Leaf(false)

  function Half(k: nat): nat
    requires k > 0
  {
    Pow2(k - 1)
  }

  /** Every block of the tree has a logsize between `m` and `k`. */
  ghost predicate Fits(t: Tree, k: nat, m: nat) {
    match t
    case Leaf(_) => m <= k
    case Node(l, r) => m < k && Fits(l, k - 1, m) && Fits(r, k - 1, m)
  }

  /** No two available blocks are buddies, at any level. */
  ghost predicate Canonical(t: Tree) {
    match t
    case Leaf(_) => true
    case Node(l, r) => !(l == FREE && r == FREE) && Canonical(l) && Canonical(r)
  }

  /** The block that starts at offset `o`, if one does. */
  ghost function LeafAt(t: Tree, k: nat, o: nat): Slot {
    match t
    case Leaf(a) => if o == 0 then Block(a, k) else NoBlock
    case Node(l, r) =>
      if k == 0 then NoBlock
      else if o < Half(k) then LeafAt(l, k - 1, o)
      else LeafAt(r, k - 1, o - Half(k))
  }

  ghost predicate HasBlock(t: Tree, k: nat, o: nat, j: int) {
    LeafAt(t, k, o).Block? && LeafAt(t, k, o).logsize == j
  }

  ghost predicate IsUsed(t: Tree, k: nat, o: nat, j: nat) {
    LeafAt(t, k, o) == Block(false, j)
  }

  ghost predicate IsAvail(t: Tree, k: nat, o: nat, j: nat) {
    LeafAt(t, k, o) == Block(true, j)
  }

  /** `[o, o + 2^j)` is one of the regions that halving a `2^k` pool can produce. */
  ghost predicate IsRegion(k: nat, o: nat, j: nat) {
    if j >= k then j == k && o == 0
    else if o < Half(k) then IsRegion(k - 1, o, j)
    else IsRegion(k - 1, o - Half(k), j)
  }

  /** The subtree for region `(o, j)`; `HasRegion` says whether the tree is split that far. */
  ghost predicate HasRegion(t: Tree, k: nat, o: nat, j: nat) {
    if j >= k then j == k && o == 0
    else t.Node? && if o < Half(k) then HasRegion(t.left, k - 1, o, j)
                    else HasRegion(t.right, k - 1, o - Half(k), j)
  }

  ghost function Sub(t: Tree, k: nat, o: nat, j: nat): Tree
    requires HasRegion(t, k, o, j)
  {
    if j >= k then t
    else if o < Half(k) then Sub(t.left, k - 1, o, j)
    else Sub(t.right, k - 1, o - Half(k), j)
  }

  /** The tree with the subtree of region `(o, j)` replaced by `s`. */
  ghost function Graft(t: Tree, k: nat, o: nat, j: nat, s: Tree): Tree
    requires HasRegion(t, k, o, j)
  {
    if j >= k then s
    else if o < Half(k) then Node(Graft(t.left, k - 1, o, j, s), t.right)
    else Node(t.left, Graft(t.right, k - 1, o - Half(k), j, s))
  }

  ghost function LeafCount(t: Tree): (n: nat)
    ensures n >= 1
  {
    match t
    case Leaf(_) => 1
    case Node(l, r) => LeafCount(l) + LeafCount(r)
  }

  // ----- blocks and regions

  lemma {:induction false} LeafRange(t: Tree, k: nat, o: nat)
    requires LeafAt(t, k, o).Block?
    ensures var j := LeafAt(t, k, o).logsize;
            j <= k && o + Pow2(j) <= Pow2(k) && IsRegion(k, o, j) && HasRegion(t, k, o, j)
            && Sub(t, k, o, j) == Leaf(LeafAt(t, k, o).avail)
  {
    if t.Node? {
      if o < Half(k) {
        LeafRange(t.left, k - 1, o);
      } else {
        LeafRange(t.right, k - 1, o - Half(k));
      }
    }
  }

  lemma {:induction false} LeafFits(t: Tree, k: nat, m: nat, o: nat)
    requires Fits(t, k, m) && LeafAt(t, k, o).Block?
    ensures m <= LeafAt(t, k, o).logsize <= k
  {
    if t.Node? {
      if o < Half(k) {
        LeafFits(t.left, k - 1, m, o);
      } else {
        LeafFits(t.right, k - 1, m, o - Half(k));
      }
    }
  }

  /** A region that is a leaf of the tree is a block. */
  lemma {:induction false} RegionLeaf(t: Tree, k: nat, o: nat, j: nat)
    requires HasRegion(t, k, o, j)
    ensures IsRegion(k, o, j) && o + Pow2(j) <= Pow2(k)
    ensures Sub(t, k, o, j).Leaf? ==> LeafAt(t, k, o) == Block(Sub(t, k, o, j).avail, j)
  {
    if j < k {
      if o < Half(k) {
        RegionLeaf(t.left, k - 1, o, j);
      } else {
        RegionLeaf(t.right, k - 1, o - Half(k), j);
      }
    }
  }

  /** Below a region the tree shows exactly the blocks of its subtree. */
  lemma {:induction false} SubLeafAt(t: Tree, k: nat, o: nat, j: nat, x: nat)
    requires HasRegion(t, k, o, j) && o <= x < o + Pow2(j)
    ensures LeafAt(t, k, x) == LeafAt(Sub(t, k, o, j), j, x - o)
  {
    if j < k {
      if o < Half(k) {
        RegionLeaf(t.left, k - 1, o, j);
        SubLeafAt(t.left, k - 1, o, j, x);
      } else {
        SubLeafAt(t.right, k - 1, o - Half(k), j, x - Half(k));
      }
    }
  }

  // ----- replacing a subtree

  /** Grafting changes what starts inside the region and nothing else. */
  lemma {:induction false} GraftAt(t: Tree, k: nat, o: nat, j: nat, s: Tree, x: nat)
    requires HasRegion(t, k, o, j)
    ensures LeafAt(Graft(t, k, o, j, s), k, x)
         == if o <= x < o + Pow2(j) then LeafAt(s, j, x - o) else LeafAt(t, k, x)
  {
    if j == k {
      if x >= Pow2(k) {
        LeafBeyond(s, k, x);
        LeafBeyond(t, k, x);
      }
    } else if o < Half(k) {
      RegionLeaf(t.left, k - 1, o, j);
      if x < Half(k) {
        GraftAt(t.left, k - 1, o, j, s, x);
      }
    } else if x >= Half(k) {
      GraftAt(t.right, k - 1, o - Half(k), j, s, x - Half(k));
    }
  }

  lemma {:induction false} LeafBeyond(t: Tree, k: nat, o: nat)
    requires o >= Pow2(k)
    ensures LeafAt(t, k, o) == NoBlock
  {
    if t.Node? && k > 0 {
      LeafBeyond(t.right, k - 1, o - Half(k));
    }
  }

  lemma {:induction false} GraftFits(t: Tree, k: nat, m: nat, o: nat, j: nat, s: Tree)
    requires HasRegion(t, k, o, j) && Fits(t, k, m) && Fits(s, j, m)
    ensures Fits(Graft(t, k, o, j, s), k, m)
  {
    if j < k {
      if o < Half(k) {
        GraftFits(t.left, k - 1, m, o, j, s);
      } else {
        GraftFits(t.right, k - 1, m, o - Half(k), j, s);
      }
    }
  }

  lemma {:induction false} GraftCount(t: Tree, k: nat, o: nat, j: nat, s: Tree)
    requires HasRegion(t, k, o, j)
    ensures LeafCount(Graft(t, k, o, j, s)) + LeafCount(Sub(t, k, o, j)) == LeafCount(t) + LeafCount(s)
  {
    if j < k {
      if o < Half(k) {
        GraftCount(t.left, k - 1, o, j, s);
      } else {
        GraftCount(t.right, k - 1, o - Half(k), j, s);
      }
    }
  }

  /** The grafted region is there again, and grafting it twice keeps the last graft. */
  lemma {:induction false} GraftGraft(t: Tree, k: nat, o: nat, j: nat, s: Tree, s': Tree)
    requires HasRegion(t, k, o, j)
    ensures var g := Graft(t, k, o, j, s);
            HasRegion(g, k, o, j) && Sub(g, k, o, j) == s
            && Graft(g, k, o, j, s') == Graft(t, k, o, j, s')
  {
    if j < k {
      if o < Half(k) {
        GraftGraft(t.left, k - 1, o, j, s, s');
      } else {
        GraftGraft(t.right, k - 1, o - Half(k), j, s, s');
      }
    }
  }

  /** The two halves of a split region, and grafting into one of them. */
  lemma {:induction false} RegionHalves(t: Tree, k: nat, o: nat, j: nat)
    requires j > 0 && HasRegion(t, k, o, j) && Sub(t, k, o, j).Node?
    ensures HasRegion(t, k, o, j - 1) && Sub(t, k, o, j - 1) == Sub(t, k, o, j).left
    ensures HasRegion(t, k, o + Half(j), j - 1) && Sub(t, k, o + Half(j), j - 1) == Sub(t, k, o, j).right
    ensures forall s :: Graft(t, k, o, j - 1, s) == Graft(t, k, o, j, Node(s, Sub(t, k, o, j).right))
  {
    if j < k {
      if o < Half(k) {
        RegionLeaf(t.left, k - 1, o, j);
        RegionHalves(t.left, k - 1, o, j);
      } else {
        RegionHalves(t.right, k - 1, o - Half(k), j);
      }
    }
  }
}
