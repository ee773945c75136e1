/** Tiling, canonical form and placement: the laws every state between calls obeys. */
module BuddyTheorems {
  import opened Powers
  import opened BuddyTree
  import opened BuddyBits
  import opened BuddySpec

  // ----- tiling

  /** Every byte of the pool lies in a block. */
  lemma {:induction false} EveryByteCovered(t: Tree, k: nat, m: nat, b: nat) returns (o: nat)
    requires Fits(t, k, m) && b < Pow2(k)
    ensures LeafAt(t, k, o).Block? && o <= b < o + Pow2(LeafAt(t, k, o).logsize)
  {
    match t
    case Leaf(_) =>
      o := 0;
    case Node(l, r) =>
      if b < Half(k) {
        o := EveryByteCovered(l, k - 1, m, b);
      } else {
        o := EveryByteCovered(r, k - 1, m, b - Half(k));
        o := o + Half(k);
      }
  }

  /** Different blocks do not overlap. */
  lemma {:induction false} BlocksDisjoint(t: Tree, k: nat, o: nat, o': nat)
    requires LeafAt(t, k, o).Block? && LeafAt(t, k, o').Block? && o < o'
    ensures o + Pow2(LeafAt(t, k, o).logsize) <= o'
  {
    if t.Node? {
      if o' < Half(k) {
        BlocksDisjoint(t.left, k - 1, o, o');
      } else if o >= Half(k) {
        BlocksDisjoint(t.right, k - 1, o - Half(k), o' - Half(k));
      } else {
        LeafRange(t.left, k - 1, o);
      }
    }
  }

  // ----- canonical form

  ghost predicate Unused(t: Tree, k: nat) {
    forall x: nat, i: nat :: !IsUsed(t, k, x, i)
  }

  /** In a canonical tree a region without used blocks is one available block. */
  lemma {:induction false} NothingUsed(t: Tree, k: nat, m: nat)
    requires Fits(t, k, m) && Canonical(t)
    requires Unused(t, k)
    ensures t == FREE
  {
    match t
    case Leaf(a) =>
      assert !IsUsed(t, k, 0, k);
    case Node(l, r) =>
      NoUseBelow(t, k);
      NothingUsed(l, k - 1, m);
      NothingUsed(r, k - 1, m);
  }

  lemma NoUseBelow(t: Tree, k: nat)
    requires t.Node? && k > 0
    requires Unused(t, k)
    ensures Unused(t.left, k - 1) && Unused(t.right, k - 1)
  {
    var l, r, h := t.left, t.right, k - 1;
    forall x: nat, i: nat
      ensures !IsUsed(l, h, x, i)
    {
      assert !IsUsed(t, k, x, i);
      if x >= Half(k) {
        LeafBeyond(l, h, x);
      }
    }
    forall x: nat, i: nat
      ensures !IsUsed(r, h, x, i)
    {
      assert !IsUsed(t, k, x + Half(k), i);
    }
  }

  ghost predicate SameUse(t: Tree, t': Tree, k: nat) {
    forall x: nat, i: nat :: IsUsed(t, k, x, i) <==> IsUsed(t', k, x, i)
  }

  /** The used blocks alone determine the whole tree. */
  lemma {:induction false} UsedDetermineTree(t: Tree, t': Tree, k: nat, m: nat)
    requires Fits(t, k, m) && Canonical(t) && Fits(t', k, m) && Canonical(t')
    requires SameUse(t, t', k)
    ensures t == t'
  {
    match (t, t')
    case (Leaf(a), _) =>
      OneBlock(a, t', k, m);
    case (_, Leaf(a)) =>
      OneBlock(a, t, k, m);
    case (Node(l, r), Node(l', r')) =>
      SameUseBelow(t, t', k);
      UsedDetermineTree(l, l', k - 1, m);
      UsedDetermineTree(r, r', k - 1, m);
  }

  lemma OneBlock(a: bool, t: Tree, k: nat, m: nat)
    requires Fits(t, k, m) && Canonical(t) && SameUse(Leaf(a), t, k)
    ensures t == Leaf(a)
  {
    assert IsUsed(Leaf(a), k, 0, k) <==> IsUsed(t, k, 0, k);
    if a {
      NothingUsed(t, k, m);
    } else {
      LeftmostBlock(t, k, m);
    }
  }

  lemma SameUseBelow(t: Tree, t': Tree, k: nat)
    requires k > 0 && t.Node? && t'.Node? && SameUse(t, t', k)
    ensures SameUse(t.left, t'.left, k - 1) && SameUse(t.right, t'.right, k - 1)
  {
    var l, l', r, r', h := t.left, t'.left, t.right, t'.right, k - 1;
    forall x: nat, i: nat
      ensures IsUsed(l, h, x, i) <==> IsUsed(l', h, x, i)
    {
      assert IsUsed(t, k, x, i) <==> IsUsed(t', k, x, i);
      if x >= Half(k) {
        LeafBeyond(l, h, x);
        LeafBeyond(l', h, x);
      }
    }
    forall x: nat, i: nat
      ensures IsUsed(r, h, x, i) <==> IsUsed(r', h, x, i)
    {
      assert IsUsed(t, k, x + Half(k), i) <==> IsUsed(t', k, x + Half(k), i);
    }
  }

  /** A used block that is smaller than the region and lies inside it. */
  ghost predicate StrictlyContains(t: Tree, k: nat, o: nat, j: nat, x: nat, i: nat) {
    IsUsed(t, k, x, i) && i < j && o <= x && x + Pow2(i) <= o + Pow2(j)
  }

  ghost predicate IsSplit(t: Tree, k: nat, o: nat, j: nat) {
    HasRegion(t, k, o, j) && Sub(t, k, o, j).Node?
  }

  /** A region of the pool is split exactly when it strictly contains a used block. */
  lemma {:induction false} SplitIffUsedInside(t: Tree, k: nat, m: nat, o: nat, j: nat)
    requires Fits(t, k, m) && Canonical(t) && IsRegion(k, o, j)
    ensures IsSplit(t, k, o, j) <==> exists x: nat, i: nat :: StrictlyContains(t, k, o, j, x, i)
  {
    if IsSplit(t, k, o, j) {
      var s := Sub(t, k, o, j);
      SubFits(t, k, m, o, j);
      SubCanonical(t, k, o, j);
      if Unused(s, j) {
        NothingUsed(s, j, m);
      }
      var x: nat, i: nat :| IsUsed(s, j, x, i);
      LeafRange(s, j, x);
      SubLeafAt(t, k, o, j, o + x);
      SmallerThanSplit(s, j, x);
      assert StrictlyContains(t, k, o, j, o + x, i);
    }
    if x: nat, i: nat :| StrictlyContains(t, k, o, j, x, i) {
      InsideMeansSplit(t, k, o, j, x, i);
    }
  }

  lemma {:induction false} SubCanonical(t: Tree, k: nat, o: nat, j: nat)
    requires Canonical(t) && HasRegion(t, k, o, j)
    ensures Canonical(Sub(t, k, o, j))
  {
    if j < k {
      if o < Half(k) {
        SubCanonical(t.left, k - 1, o, j);
      } else {
        SubCanonical(t.right, k - 1, o - Half(k), j);
      }
    }
  }

  lemma SmallerThanSplit(s: Tree, j: nat, x: nat)
    requires s.Node? && LeafAt(s, j, x).Block?
    ensures LeafAt(s, j, x).logsize < j
  {
    if x < Half(j) {
      LeafRange(s.left, j - 1, x);
    } else {
      LeafRange(s.right, j - 1, x - Half(j));
    }
  }

  lemma {:induction false} InsideMeansSplit(t: Tree, k: nat, o: nat, j: nat, x: nat, i: nat)
    requires IsRegion(k, o, j) && StrictlyContains(t, k, o, j, x, i)
    ensures IsSplit(t, k, o, j)
  {
    if j < k {
      LeafRange(t, k, x);
      if t.Node? {
        if o < Half(k) {
          RegionBound(k - 1, o, j);
          InsideMeansSplit(t.left, k - 1, o, j, x, i);
        } else {
          InsideMeansSplit(t.right, k - 1, o - Half(k), j, x - Half(k), i);
        }
      }
    }
  }

  // ----- freeing several blocks

  lemma {:induction false} FreeAllKeeps(t: Tree, k: nat, m: nat, os: seq<nat>)
    requires Fits(t, k, m) && Canonical(t)
    ensures Fits(FreeAll(t, k, os), k, m) && Canonical(FreeAll(t, k, os))
    decreases |os|
  {
    if os != [] {
      FreeKeepsFit(t, k, m, os[0]);
      FreeKeepsCanonical(t, k, m, os[0]);
      FreeAllKeeps(FreeTree(t, k, os[0]), k, m, os[1..]);
    }
  }

  /** `os` names used blocks of the tree, each of them once. */
  ghost predicate Live(t: Tree, k: nat, os: seq<nat>) {
    && (forall a :: 0 <= a < |os| ==> LeafAt(t, k, os[a]).Block? && !LeafAt(t, k, os[a]).avail)
    && (forall a, b :: 0 <= a < b < |os| ==> os[a] != os[b])
  }

  lemma LiveAfterFirst(t: Tree, k: nat, os: seq<nat>)
    requires Live(t, k, os) && os != []
    ensures Live(FreeTree(t, k, os[0]), k, os[1..])
  {
    forall a | 0 <= a < |os| - 1
      ensures var s := LeafAt(FreeTree(t, k, os[0]), k, os[1..][a]); s.Block? && !s.avail
    {
      FreeUsed(t, k, os[0], os[1 + a], LeafAt(t, k, os[1 + a]).logsize);
    }
  }

  lemma {:induction false} FreeAllUsed(t: Tree, k: nat, os: seq<nat>, x: nat, i: nat)
    requires Live(t, k, os)
    ensures IsUsed(FreeAll(t, k, os), k, x, i) <==> IsUsed(t, k, x, i) && x !in os
    decreases |os|
  {
    if os != [] {
      FreeUsed(t, k, os[0], x, i);
      LiveAfterFirst(t, k, os);
      FreeAllUsed(FreeTree(t, k, os[0]), k, os[1..], x, i);
      assert os == [os[0]] + os[1..];
    }
  }

  /** Freeing the same live blocks in any two orders leaves the same tree. */
  lemma FreeOrderIrrelevant(t: Tree, k: nat, m: nat, os: seq<nat>, os': seq<nat>)
    requires Fits(t, k, m) && Canonical(t)
    requires Live(t, k, os) && Live(t, k, os') && (forall x :: x in os <==> x in os')
    ensures FreeAll(t, k, os) == FreeAll(t, k, os')
  {
    FreeAllKeeps(t, k, m, os);
    FreeAllKeeps(t, k, m, os');
    forall x: nat, i: nat
      ensures IsUsed(FreeAll(t, k, os), k, x, i) <==> IsUsed(FreeAll(t, k, os'), k, x, i)
    {
      FreeAllUsed(t, k, os, x, i);
      FreeAllUsed(t, k, os', x, i);
    }
    UsedDetermineTree(FreeAll(t, k, os), FreeAll(t, k, os'), k, m);
  }

  /** Freeing every used block, in any order, leaves one available block. */
  lemma FreeEverything(t: Tree, k: nat, m: nat, os: seq<nat>)
    requires Fits(t, k, m) && Canonical(t)
    requires Live(t, k, os) && (forall x: nat, i: nat :: IsUsed(t, k, x, i) ==> x in os)
    ensures FreeAll(t, k, os) == FREE
  {
    FreeAllKeeps(t, k, m, os);
    forall x: nat, i: nat
      ensures !IsUsed(FreeAll(t, k, os), k, x, i)
    {
      FreeAllUsed(t, k, os, x, i);
    }
    NothingUsed(FreeAll(t, k, os), k, m);
  }

  // ----- placement

  /** No used block meets `[o, o + 2^n)`. */
  ghost predicate Avoided(t: Tree, k: nat, o: nat, n: nat) {
    forall x: nat, i: nat :: IsUsed(t, k, x, i) ==> x + Pow2(i) <= o || o + Pow2(n) <= x
  }

  /** `[o, o + 2^n)` is an aligned range of the pool that meets no used block. */
  ghost predicate FreeRange(t: Tree, k: nat, o: nat, n: nat) {
    o % Pow2(n) == 0 && o + Pow2(n) <= Pow2(k) && Avoided(t, k, o, n)
  }

  ghost predicate FitsSomewhere(t: Tree, k: nat, n: nat) {
    exists o: nat :: FreeRange(t, k, o, n)
  }

  /** Some available block is large enough exactly when some aligned range is unused. */
  lemma PlacementComplete(t: Tree, k: nat, m: nat, n: nat)
    requires Fits(t, k, m) && Canonical(t)
    ensures FitsSomewhere(t, k, n) <==> exists o: nat, j: nat :: j >= n && IsAvail(t, k, o, j)
  {
    if o: nat, j: nat :| j >= n && IsAvail(t, k, o, j) {
      LeafRange(t, k, o);
      RegionStart(k, o, j, n);
      RegionIsAligned(k, o, n);
      Pow2Monotone(n, j);
      forall x: nat, i: nat | IsUsed(t, k, x, i)
        ensures x + Pow2(i) <= o || o + Pow2(n) <= x
      {
        if x < o {
          BlocksDisjoint(t, k, x, o);
        } else if x > o {
          BlocksDisjoint(t, k, o, x);
        }
      }
      assert FreeRange(t, k, o, n);
    }
    if o: nat :| FreeRange(t, k, o, n) {
      Pow2Order(n, k);
      RegionIsAligned(k, o, n);
      var x, j := RangeToBlock(t, k, m, o, n);
    }
  }

  /** The start of a region is the start of a region of every smaller size. */
  lemma {:induction false} RegionStart(k: nat, o: nat, j: nat, n: nat)
    requires IsRegion(k, o, j) && n <= j
    ensures IsRegion(k, o, n)
    decreases j - n
  {
    if n < j {
      SplitPosition(k, ROOT, o, j);
      RegionStart(k, o, j - 1, n);
    }
  }

  /** The available block around an unused region. */
  lemma {:induction false} RangeToBlock(t: Tree, k: nat, m: nat, o: nat, n: nat) returns (x: nat, j: nat)
    requires Fits(t, k, m) && Canonical(t) && IsRegion(k, o, n)
    requires Avoided(t, k, o, n)
    ensures j >= n && IsAvail(t, k, x, j)
  {
    RegionBound(k, o, n);
    if t.Leaf? {
      assert IsUsed(t, k, 0, k) ==> Pow2(k) <= o || o + Pow2(n) <= 0;
      x, j := 0, k;
    } else if n == k {
      forall x: nat, i: nat
        ensures !IsUsed(t, k, x, i)
      {
        if IsUsed(t, k, x, i) {
          LeafRange(t, k, x);
        }
      }
      NothingUsed(t, k, m);
    } else if o < Half(k) {
      var l, h := t.left, k - 1;
      forall x: nat, i: nat | IsUsed(l, h, x, i)
        ensures x + Pow2(i) <= o || o + Pow2(n) <= x
      {
        LeafRange(l, h, x);
        assert IsUsed(t, k, x, i);
      }
      x, j := RangeToBlock(l, h, m, o, n);
      LeafRange(l, h, x);
    } else {
      var r, h := t.right, k - 1;
      forall x: nat, i: nat | IsUsed(r, h, x, i)
        ensures x + Pow2(i) <= o - Half(k) || o - Half(k) + Pow2(n) <= x
      {
        assert IsUsed(t, k, x + Half(k), i);
      }
      x, j := RangeToBlock(r, h, m, o - Half(k), n);
      x := x + Half(k);
    }
  }

  // ----- capacity

  ghost function UsedCount(t: Tree): nat {
    match t
    case Leaf(a) => if a then 0 else 1
    case Node(l, r) => UsedCount(l) + UsedCount(r)
  }

  lemma {:induction false} FreeCount(t: Tree, k: nat, o: nat)
    requires LeafAt(t, k, o).Block? && !LeafAt(t, k, o).avail
    ensures UsedCount(FreeTree(t, k, o)) == UsedCount(t) - 1
  {
    if t.Node? {
      if o < Half(k) {
        FreeCount(t.left, k - 1, o);
      } else {
        FreeCount(t.right, k - 1, o - Half(k));
      }
    }
  }

  lemma {:induction false} AllocCount(t: Tree, k: nat, o: nat, j: nat, n: nat)
    requires HasRegion(t, k, o, j) && Sub(t, k, o, j) == FREE && n <= j
    ensures UsedCount(AllocTree(t, k, o, j, n)) == UsedCount(t) + 1
  {
    if j == k {
      CarveCount(j, n);
    } else if o < Half(k) {
      AllocCount(t.left, k - 1, o, j, n);
    } else {
      AllocCount(t.right, k - 1, o - Half(k), j, n);
    }
  }

  lemma {:induction false} CarveCount(j: nat, n: nat)
    ensures UsedCount(Carve(j, n)) == 1
  {
    if j > n {
      CarveCount(j - 1, n);
    }
  }

  ghost predicate UsedAtMost(t: Tree, k: nat, c: nat) {
    forall x: nat, i: nat :: IsUsed(t, k, x, i) ==> i <= c
  }

  lemma UsedAtMostBelow(t: Tree, k: nat, c: nat)
    requires t.Node? && k > 0 && UsedAtMost(t, k, c)
    ensures UsedAtMost(t.left, k - 1, c) && UsedAtMost(t.right, k - 1, c)
  {
    var l, r, h := t.left, t.right, k - 1;
    forall x: nat, i: nat | IsUsed(l, h, x, i)
      ensures i <= c
    {
      LeafRange(l, h, x);
      assert IsUsed(t, k, x, i);
    }
    forall x: nat, i: nat | IsUsed(r, h, x, i)
      ensures i <= c
    {
      assert IsUsed(t, k, x + Half(k), i);
    }
  }

  /**
   Fewer than `2^(k-c)` used blocks, none of them larger than `2^c`, leave a block of `2^c` or
   more available, wherever they are: fragmentation costs no capacity.
   */
  lemma {:induction false} RoomForOneMore(t: Tree, k: nat, m: nat, c: nat) returns (o: nat, j: nat)
    requires Fits(t, k, m) && Canonical(t) && c <= k
    requires UsedAtMost(t, k, c) && UsedCount(t) < Pow2(k - c)
    ensures j >= c && IsAvail(t, k, o, j)
  {
    match t
    case Leaf(a) =>
      assert !a ==> IsUsed(t, k, 0, k);
      o, j := 0, k;
    case Node(l, r) =>
      if k == c {
        NoneUsed(t, k);
        NothingUsed(t, k, m);
      } else {
        UsedAtMostBelow(t, k, c);
        if UsedCount(l) < Pow2(k - 1 - c) {
          o, j := RoomForOneMore(l, k - 1, m, c);
          LeafRange(l, k - 1, o);
        } else {
          o, j := RoomForOneMore(r, k - 1, m, c);
          o := o + Half(k);
        }
      }
  }

  lemma {:induction false} NoneUsed(t: Tree, k: nat)
    requires UsedCount(t) == 0
    ensures Unused(t, k)
  {
    if t.Node? && k > 0 {
      NoneUsed(t.left, k - 1);
      NoneUsed(t.right, k - 1);
      forall x: nat, i: nat
        ensures !IsUsed(t, k, x, i)
      {
        assert !IsUsed(t.left, k - 1, x, i);
        assert x >= Half(k) ==> !IsUsed(t.right, k - 1, x - Half(k), i);
      }
    }
  }
}
