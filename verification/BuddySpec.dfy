/**
 What allocating and freeing mean on the split tree, top-down and without the loops of the
 program, and the laws of the two operations.
 */
module BuddySpec {
  import opened Powers
  import opened BuddyTree

  // ----- freeing

  /** A region whose halves are both one available block is one available block. */
  ghost function Join(l: Tree, r: Tree): Tree {
    if l == FREE && r == FREE then FREE else Node(l, r)
  }

  /** The tree after the block at `o` became available and buddies were coalesced. */
  ghost function FreeTree(t: Tree, k: nat, o: nat): Tree {
    match t
    case Leaf(_) => FREE
    case Node(l, r) =>
      if k == 0 then t
      else if o < Half(k) then Join(FreeTree(l, k - 1, o), r)
      else Join(l, FreeTree(r, k - 1, o - Half(k)))
  }

  ghost function FreeAll(t: Tree, k: nat, os: seq<nat>): Tree
    decreases |os|
  {
    if os == [] then t else FreeAll(FreeTree(t, k, os[0]), k, os[1..])
  }

  lemma {:induction false} FreeKeepsFit(t: Tree, k: nat, m: nat, o: nat)
    requires Fits(t, k, m)
    ensures Fits(FreeTree(t, k, o), k, m)
  {
    if t.Node? {
      if o < Half(k) {
        FreeKeepsFit(t.left, k - 1, m, o);
      } else {
        FreeKeepsFit(t.right, k - 1, m, o - Half(k));
      }
    }
  }

  /** Freeing keeps the pool free of available buddy pairs. */
  lemma {:induction false} FreeKeepsCanonical(t: Tree, k: nat, m: nat, o: nat)
    requires Fits(t, k, m) && Canonical(t)
    ensures Canonical(FreeTree(t, k, o))
  {
    if t.Node? {
      if o < Half(k) {
        FreeKeepsCanonical(t.left, k - 1, m, o);
      } else {
        FreeKeepsCanonical(t.right, k - 1, m, o - Half(k));
      }
    }
  }

  /** Freeing a block takes that block, and no other, out of the used blocks. */
  lemma {:induction false} FreeUsed(t: Tree, k: nat, o: nat, x: nat, i: nat)
    requires LeafAt(t, k, o).Block?
    ensures IsUsed(FreeTree(t, k, o), k, x, i) <==> IsUsed(t, k, x, i) && x != o
  {
    if t.Node? {
      var t' := FreeTree(t, k, o);
      if o < Half(k) {
        var l := FreeTree(t.left, k - 1, o);
        LeafRange(t.left, k - 1, o);
        if x < Half(k) {
          FreeUsed(t.left, k - 1, o, x, i);
        }
        JoinUsed(l, t.right, k, x, i);
      } else {
        var r := FreeTree(t.right, k - 1, o - Half(k));
        if x >= Half(k) {
          FreeUsed(t.right, k - 1, o - Half(k), x - Half(k), i);
        }
        JoinUsed(t.left, r, k, x, i);
      }
    }
  }

  lemma JoinUsed(l: Tree, r: Tree, k: nat, x: nat, i: nat)
    requires k > 0
    ensures IsUsed(Join(l, r), k, x, i) <==> IsUsed(Node(l, r), k, x, i)
  {
    LeafAtNode(l, r, k, x);
  }

  lemma LeafAtNode(l: Tree, r: Tree, k: nat, x: nat)
    requires k > 0
    ensures LeafAt(Node(l, r), k, x)
         == if x < Half(k) then LeafAt(l, k - 1, x) else LeafAt(r, k - 1, x - Half(k))
  {
  }

  /** Freeing a block that is available already changes nothing. */
  lemma {:induction false} FreeAvailable(t: Tree, k: nat, o: nat)
    requires Canonical(t) && LeafAt(t, k, o).Block? && LeafAt(t, k, o).avail
    ensures FreeTree(t, k, o) == t
  {
    if t.Node? {
      if o < Half(k) {
        FreeAvailable(t.left, k - 1, o);
      } else {
        FreeAvailable(t.right, k - 1, o - Half(k));
      }
    }
  }

  // ----- one turn of the coalescing loop

  /** Freeing depends on a region only through the result of freeing inside that region. */
  lemma {:induction false} FreeCongruent(t: Tree, k: nat, q: nat, j: nat, o: nat, s: Tree, o': nat)
    requires HasRegion(t, k, q, j) && q <= o < q + Pow2(j) && q <= o' < q + Pow2(j)
    requires FreeTree(Sub(t, k, q, j), j, o - q) == FreeTree(s, j, o' - q)
    ensures FreeTree(t, k, o) == FreeTree(Graft(t, k, q, j, s), k, o')
  {
    if j < k {
      if q < Half(k) {
        RegionLeaf(t.left, k - 1, q, j);
        FreeCongruent(t.left, k - 1, q, j, o, s, o');
      } else {
        FreeCongruent(t.right, k - 1, q - Half(k), j, o - Half(k), s, o' - Half(k));
      }
    }
  }

  /** Merging a block with its available buddy first does not change what freeing yields. */
  lemma MergeStep(t: Tree, k: nat, parent: nat, j: nat, right: bool)
    requires HasRegion(t, k, parent, j + 1)
    requires Sub(t, k, parent, j + 1).Node?
    requires Sub(t, k, parent, j + 1).left.Leaf? && Sub(t, k, parent, j + 1).right.Leaf?
    requires if right then Sub(t, k, parent, j + 1).left == FREE else Sub(t, k, parent, j + 1).right == FREE
    ensures FreeTree(Graft(t, k, parent, j + 1, FREE), k, parent)
         == FreeTree(t, k, if right then parent + Pow2(j) else parent)
  {
    FreeCongruent(t, k, parent, j + 1, if right then parent + Pow2(j) else parent, FREE, parent);
  }

  /** Once a region stays split, freeing inside it reaches no further up. */
  lemma {:induction false} FreeInside(t: Tree, k: nat, q: nat, j: nat, o: nat)
    requires HasRegion(t, k, q, j) && q <= o < q + Pow2(j)
    requires j == k || FreeTree(Sub(t, k, q, j), j, o - q).Node?
    ensures FreeTree(t, k, o) == Graft(t, k, q, j, FreeTree(Sub(t, k, q, j), j, o - q))
  {
    if j < k {
      if q < Half(k) {
        RegionLeaf(t.left, k - 1, q, j);
        FreeInside(t.left, k - 1, q, j, o);
        GraftNode(t.left, k - 1, q, j, FreeTree(Sub(t, k, q, j), j, o - q));
      } else {
        FreeInside(t.right, k - 1, q - Half(k), j, o - Half(k));
        GraftNode(t.right, k - 1, q - Half(k), j, FreeTree(Sub(t, k, q, j), j, o - q));
      }
    }
  }

  lemma GraftNode(t: Tree, k: nat, o: nat, j: nat, s: Tree)
    requires HasRegion(t, k, o, j) && s.Node?
    ensures Graft(t, k, o, j, s).Node?
  {
  }

  /** A block whose buddy is not one available block is freed where it stands. */
  lemma StopStep(t: Tree, k: nat, parent: nat, j: nat, right: bool)
    requires HasRegion(t, k, parent, j + 1)
    requires var s := Sub(t, k, parent, j + 1);
             s.Node? && if right then s.right.Leaf? && s.left != FREE else s.left.Leaf? && s.right != FREE
    ensures var o := if right then parent + Pow2(j) else parent;
            HasRegion(t, k, o, j) && FreeTree(t, k, o) == Graft(t, k, o, j, FREE)
  {
    var s := Sub(t, k, parent, j + 1);
    var o := if right then parent + Pow2(j) else parent;
    RegionHalves(t, k, parent, j + 1);
    assert FreeTree(s, j + 1, o - parent) == if right then Node(s.left, FREE) else Node(FREE, s.right) by {
      FreeInHalf(s, j + 1, right);
    }
    FreeInside(t, k, parent, j + 1, o);
    if right {
      GraftRightHalf(t, k, parent, j + 1, FREE);
    }
  }

  lemma FreeInHalf(s: Tree, k: nat, right: bool)
    requires k > 0 && s.Node? && if right then s.right.Leaf? && s.left != FREE else s.left.Leaf? && s.right != FREE
    ensures FreeTree(s, k, if right then Half(k) else 0)
         == if right then Node(s.left, FREE) else Node(FREE, s.right)
  {
  }

  lemma {:induction false} GraftRightHalf(t: Tree, k: nat, o: nat, j: nat, s: Tree)
    requires j > 0 && HasRegion(t, k, o, j) && Sub(t, k, o, j).Node?
    ensures HasRegion(t, k, o + Half(j), j - 1)
    ensures Graft(t, k, o + Half(j), j - 1, s) == Graft(t, k, o, j, Node(Sub(t, k, o, j).left, s))
  {
    if j < k {
      if o < Half(k) {
        RegionLeaf(t.left, k - 1, o, j);
        GraftRightHalf(t.left, k - 1, o, j, s);
      } else {
        GraftRightHalf(t.right, k - 1, o - Half(k), j, s);
      }
    }
  }

  // ----- allocating

  /** An available `2^j` block after splitting down to `2^n` and handing out the leftmost piece. */
  ghost function Carve(j: nat, n: nat): Tree {
    if j <= n then USED else Node(Carve(j - 1, n), FREE)
  }

  ghost function AllocTree(t: Tree, k: nat, o: nat, j: nat, n: nat): Tree
    requires HasRegion(t, k, o, j)
  {
    Graft(t, k, o, j, Carve(j, n))
  }

  /** The least block logsize, not below `m`, whose block holds `size` bytes. */
  function Target(m: nat, size: nat): nat
    decreases size - Pow2(m)
  {
    if Pow2(m) >= size then m else Target(m + 1, size)
  }

  lemma {:induction false} TargetIsLeast(m: nat, size: nat, n: nat)
    requires n >= m && Pow2(n) >= size && (n == m || Pow2(n - 1) < size)
    ensures Target(m, size) == n
    decreases n - m
  {
    if n > m {
      Pow2Monotone(m, n - 1);
      TargetIsLeast(m + 1, size, n);
    }
  }

  lemma {:induction false} TargetFits(m: nat, size: nat)
    ensures var n := Target(m, size); n >= m && Pow2(n) >= size && (n == m || Pow2(n - 1) < size)
    decreases size - Pow2(m)
  {
    if Pow2(m) < size {
      TargetFits(m + 1, size);
    }
  }

  /** From `m` up, the sizes that hold `size` bytes are those from the target on. */
  lemma TargetThreshold(m: nat, size: nat)
    ensures forall j: nat :: j >= m ==> (Pow2(j) >= size <==> j >= Target(m, size))
  {
    TargetFits(m, size);
    var n := Target(m, size);
    forall j: nat | j >= m
      ensures Pow2(j) >= size <==> j >= n
    {
      if j >= n {
        Pow2Monotone(n, j);
      } else {
        Pow2Monotone(j, n - 1);
      }
    }
  }

  lemma {:induction false} CarveShape(j: nat, n: nat)
    requires n <= j
    ensures Fits(Carve(j, n), j, n) && Canonical(Carve(j, n)) && Carve(j, n) != FREE
    ensures LeafCount(Carve(j, n)) == 1 + j - n
    ensures LeafAt(Carve(j, n), j, 0) == Block(false, n)
    ensures FreeTree(Carve(j, n), j, 0) == FREE
  {
    if n < j {
      CarveShape(j - 1, n);
    }
  }

  lemma {:induction false} CarveUsed(j: nat, n: nat, x: nat, i: nat)
    requires n <= j
    ensures IsUsed(Carve(j, n), j, x, i) <==> x == 0 && i == n
  {
    if n < j {
      CarveUsed(j - 1, n, x, i);
      LeafAtNode(Carve(j - 1, n), FREE, j, x);
    }
  }

  /** Replacing an available block by something else that is canonical stays canonical. */
  lemma {:induction false} GraftCanonical(t: Tree, k: nat, o: nat, j: nat, s: Tree)
    requires Canonical(t) && HasRegion(t, k, o, j) && Canonical(s) && s != FREE
    ensures Canonical(Graft(t, k, o, j, s)) && Graft(t, k, o, j, s) != FREE
  {
    if j < k {
      if o < Half(k) {
        GraftCanonical(t.left, k - 1, o, j, s);
      } else {
        GraftCanonical(t.right, k - 1, o - Half(k), j, s);
      }
    }
  }

  /** Allocating adds exactly the block handed out to the used blocks. */
  lemma AllocUsed(t: Tree, k: nat, o: nat, j: nat, n: nat, x: nat, i: nat)
    requires IsAvail(t, k, o, j) && n <= j && HasRegion(t, k, o, j)
    ensures IsUsed(AllocTree(t, k, o, j, n), k, x, i) <==> IsUsed(t, k, x, i) || (x == o && i == n)
  {
    LeafRange(t, k, o);
    GraftAt(t, k, o, j, Carve(j, n), x);
    if o <= x < o + Pow2(j) {
      CarveUsed(j, n, x - o, i);
      SubLeafAt(t, k, o, j, x);
    }
  }

  /** Freeing what was just allocated restores the tree. */
  lemma {:induction false} AllocThenFree(t: Tree, k: nat, o: nat, j: nat, n: nat)
    requires Canonical(t) && HasRegion(t, k, o, j) && Sub(t, k, o, j) == FREE && n <= j
    ensures FreeTree(AllocTree(t, k, o, j, n), k, o) == t
  {
    if j == k {
      CarveShape(j, n);
    } else if o < Half(k) {
      AllocThenFree(t.left, k - 1, o, j, n);
    } else {
      AllocThenFree(t.right, k - 1, o - Half(k), j, n);
    }
  }
}
