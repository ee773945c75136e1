/** The observers of `buddy/mstat.c`: loops over the lists, proved against the tree. */
module PoolStats {
  import opened Powers
  import opened Lists
  import opened BuddyTree
  import opened PoolState
  import opened BlockHeader
  import opened MemoryPool

  // ----- sums over sequences

  ghost function Sum(s: seq<nat>, w: nat -> nat): nat {
    if s == [] then 0 else w(s[0]) + Sum(s[1..], w)
  }

  lemma {:induction false} SumConcat(a: seq<nat>, b: seq<nat>, w: nat -> nat)
    ensures Sum(a + b, w) == Sum(a, w) + Sum(b, w)
  {
    if a == [] {
      assert a + b == b;
    } else {
      assert (a + b)[1..] == a[1..] + b;
      SumConcat(a[1..], b, w);
    }
  }

  lemma SumAppend(s: seq<nat>, x: nat, w: nat -> nat)
    ensures Sum(s + [x], w) == Sum(s, w) + w(x)
  {
    SumConcat(s, [x], w);
  }

  lemma {:induction false} SumWithout(s: seq<nat>, x: nat, w: nat -> nat)
    requires x in s
    ensures Sum(s, w) == Sum(Without(s, x), w) + w(x)
  {
    if s[0] != x {
      SumWithout(s[1..], x, w);
      assert Without(s, x)[1..] == Without(s[1..], x);
    }
  }

  /** A sum depends on the elements, not on their order. */
  lemma {:induction false} SumOfSameElements(a: seq<nat>, b: seq<nat>, w: nat -> nat)
    requires NoDup(a) && NoDup(b) && (forall x :: x in a <==> x in b)
    ensures Sum(a, w) == Sum(b, w)
  {
    assert b != [] ==> b[0] in b;
    if a != [] {
      assert a == [a[0]] + a[1..] && a[0] !in a[1..];
      WithoutElements(b, a[0]);
      SumWithout(b, a[0], w);
      SumOfSameElements(a[1..], Without(b, a[0]), w);
    }
  }

  // ----- sums over the tree

  /** The sum over the blocks of a weight that depends on availability and size. */
  ghost function Weigh(t: Tree, k: nat, f: (bool, nat) -> nat): nat {
    match t
    case Leaf(a) => f(a, k)
    case Node(l, r) => if k == 0 then 0 else Weigh(l, k - 1, f) + Weigh(r, k - 1, f)
  }

  function AvailNode(avail: bool, j: nat): nat { if avail then 1 else 0 }
  function UsedNode(avail: bool, j: nat): nat { if avail then 0 else 1 }
  function AvailByte(avail: bool, j: nat): nat { if avail then Pow2(j) else 0 }
  function UsedByte(avail: bool, j: nat): nat { if avail then 0 else Pow2(j) }

  /** Available and used blocks are all blocks, and their bytes are all bytes of the pool. */
  lemma {:induction false} WeighConserves(t: Tree, k: nat, m: nat)
    requires Fits(t, k, m)
    ensures Weigh(t, k, AvailNode) + Weigh(t, k, UsedNode) == LeafCount(t)
    ensures Weigh(t, k, AvailByte) + Weigh(t, k, UsedByte) == Pow2(k)
  {
    if t.Node? {
      WeighConserves(t.left, k - 1, m);
      WeighConserves(t.right, k - 1, m);
    }
  }

  /** The block offsets in address order, from `base` on. */
  ghost function Offsets(t: Tree, k: nat, base: nat): seq<nat> {
    match t
    case Leaf(_) => [base]
    case Node(l, r) => if k == 0 then [] else Offsets(l, k - 1, base) + Offsets(r, k - 1, base + Half(k))
  }

  lemma {:induction false} OffsetsAreBlocks(t: Tree, k: nat, base: nat)
    ensures NoDup(Offsets(t, k, base))
    ensures forall o: nat :: o in Offsets(t, k, base) <==> o >= base && LeafAt(t, k, o - base).Block?
  {
    if t.Node? && k > 0 {
      OffsetsAreBlocks(t.left, k - 1, base);
      OffsetsAreBlocks(t.right, k - 1, base + Half(k));
      var l, r := Offsets(t.left, k - 1, base), Offsets(t.right, k - 1, base + Half(k));
      forall o: nat | o in l
        ensures o < base + Half(k)
      {
        LeafRange(t.left, k - 1, o - base);
      }
      NoDupConcat(l, r);
    }
  }

  lemma {:induction false} SumOverOffsets(t: Tree, k: nat, base: nat, f: (bool, nat) -> nat, w: nat -> nat)
    requires forall x: nat :: LeafAt(t, k, x).Block? ==>
      w(base + x) == f(LeafAt(t, k, x).avail, LeafAt(t, k, x).logsize)
    ensures Sum(Offsets(t, k, base), w) == Weigh(t, k, f)
  {
    if t.Leaf? {
      assert LeafAt(t, k, 0).Block?;
      assert Sum([base], w) == Sum([], w) + w(base);
    } else if k > 0 {
      var l, r, h := t.left, t.right, k - 1;
      forall x: nat | LeafAt(l, h, x).Block?
        ensures w(base + x) == f(LeafAt(l, h, x).avail, LeafAt(l, h, x).logsize)
      {
        LeafRange(l, h, x);
        assert LeafAt(t, k, x) == LeafAt(l, h, x);
      }
      forall x: nat | LeafAt(r, h, x).Block?
        ensures w(base + Half(k) + x) == f(LeafAt(r, h, x).avail, LeafAt(r, h, x).logsize)
      {
        assert LeafAt(t, k, Half(k) + x) == LeafAt(r, h, x);
        assert base + (Half(k) + x) == base + Half(k) + x;
      }
      SumOverOffsets(t.left, k - 1, base, f, w);
      SumOverOffsets(t.right, k - 1, base + Half(k), f, w);
      SumConcat(Offsets(t.left, k - 1, base), Offsets(t.right, k - 1, base + Half(k)), w);
    }
  }

  // ----- sums over the lists

  ghost function Flatten(ls: seq<seq<nat>>): seq<nat> {
    if ls == [] then [] else Flatten(ls[..|ls| - 1]) + ls[|ls| - 1]
  }

  /** The blocks of the first `n` lists, once each. */
  lemma {:induction false} FlattenElements(ls: seq<seq<nat>>, t: Tree, k: nat, n: nat)
    requires ListsMatch(ls, t, k) && n <= |ls|
    ensures NoDup(Flatten(ls[..n]))
    ensures forall o: nat :: o in Flatten(ls[..n]) <==> LeafAt(t, k, o).Block? && k - n < LeafAt(t, k, o).logsize <= k
  {
    if n > 0 {
      FlattenElements(ls, t, k, n - 1);
      assert ls[..n][..n - 1] == ls[..n - 1];
      var a, b := Flatten(ls[..n - 1]), ls[n - 1];
      assert NoDup(b);
      assert forall o: nat :: o in b <==> HasBlock(t, k, o, k - (n - 1));
      NoDupConcat(a, b);
    }
  }

  ghost function WeightAt(t: Tree, k: nat, f: (bool, nat) -> nat, o: nat): nat {
    match LeafAt(t, k, o)
    case NoBlock => 0
    case Block(a, j) => f(a, j)
  }

  ghost function WeightOf(t: Tree, k: nat, f: (bool, nat) -> nat): nat -> nat {
    (o: nat) => WeightAt(t, k, f, o)
  }

  /** Adding up over all lists is adding up over the tree. */
  lemma ListsWeighTree(ls: seq<seq<nat>>, t: Tree, k: nat, m: nat, f: (bool, nat) -> nat)
    requires ListsMatch(ls, t, k) && Fits(t, k, m) && |ls| == k - m + 1
    ensures Sum(Flatten(ls), WeightOf(t, k, f)) == Weigh(t, k, f)
  {
    FlattenIsOffsets(ls, t, k, m);
    var w := WeightOf(t, k, f);
    SumOfSameElements(Flatten(ls), Offsets(t, k, 0), w);
    assert forall x: nat :: LeafAt(t, k, x).Block? ==> w(0 + x) == f(LeafAt(t, k, x).avail, LeafAt(t, k, x).logsize);
    SumOverOffsets(t, k, 0, f, w);
  }

  lemma FlattenIsOffsets(ls: seq<seq<nat>>, t: Tree, k: nat, m: nat)
    requires ListsMatch(ls, t, k) && Fits(t, k, m) && |ls| == k - m + 1
    ensures var a, b := Flatten(ls), Offsets(t, k, 0);
            NoDup(a) && NoDup(b) && forall o :: o in a <==> o in b
  {
    assert ls[..|ls|] == ls;
    FlattenElements(ls, t, k, |ls|);
    OffsetsAreBlocks(t, k, 0);
    var a, b := Flatten(ls), Offsets(t, k, 0);
    forall o: nat
      ensures o in a <==> o in b
    {
      assert o in b <==> o >= 0 && LeafAt(t, k, o - 0).Block?;
      if LeafAt(t, k, o).Block? {
        LeafFits(t, k, m, o);
      }
    }
  }

  // ----- what the two kinds of weights count

  /** `os` names the blocks of the given availability, each of them once. */
  ghost predicate Names(os: seq<nat>, t: Tree, k: nat, avail: bool) {
    NoDup(os) && forall x: nat :: x in os <==> LeafAt(t, k, x).Block? && LeafAt(t, k, x).avail == avail
  }

  /** The size of the block that starts at an offset. */
  ghost function SizeAt(t: Tree, k: nat): nat -> nat {
    (o: nat) => if LeafAt(t, k, o).Block? then Pow2(LeafAt(t, k, o).logsize) else 0
  }

  lemma {:induction false} SumZero(s: seq<nat>, w: nat -> nat)
    requires forall x :: x in s ==> w(x) == 0
    ensures Sum(s, w) == 0
  {
    if s != [] {
      SumZero(s[1..], w);
    }
  }

  lemma {:induction false} SumOnes(s: seq<nat>, w: nat -> nat)
    requires forall x :: x in s ==> w(x) == 1
    ensures Sum(s, w) == |s|
  {
    if s != [] {
      SumOnes(s[1..], w);
    }
  }

  lemma {:induction false} SumSame(s: seq<nat>, w: nat -> nat, w': nat -> nat)
    requires forall x :: x in s ==> w(x) == w'(x)
    ensures Sum(s, w) == Sum(s, w')
  {
    if s != [] {
      SumSame(s[1..], w, w');
    }
  }

  /** Elements of weight zero may be left out of a sum. */
  lemma {:induction false} SumSupport(all: seq<nat>, s: seq<nat>, w: nat -> nat)
    requires NoDup(all) && NoDup(s) && (forall x :: x in s ==> x in all)
    requires forall x :: x in all && x !in s ==> w(x) == 0
    ensures Sum(all, w) == Sum(s, w)
    decreases |s|
  {
    if s == [] {
      SumZero(all, w);
    } else {
      assert s == [s[0]] + s[1..] && s[0] !in s[1..];
      SumWithout(all, s[0], w);
      WithoutElements(all, s[0]);
      SumSupport(Without(all, s[0]), s[1..], w);
    }
  }

  /** A weight that only blocks of one availability have adds up over the blocks of that kind. */
  lemma WeighOver(t: Tree, k: nat, avail: bool, f: (bool, nat) -> nat, os: seq<nat>)
    requires Names(os, t, k, avail) && forall o: nat :: o !in os ==> WeightAt(t, k, f, o) == 0
    ensures Weigh(t, k, f) == Sum(os, WeightOf(t, k, f))
  {
    var all, w := Offsets(t, k, 0), WeightOf(t, k, f);
    OffsetsAreBlocks(t, k, 0);
    assert forall x: nat :: LeafAt(t, k, x).Block? ==> w(0 + x) == f(LeafAt(t, k, x).avail, LeafAt(t, k, x).logsize);
    SumOverOffsets(t, k, 0, f, w);
    forall x | x in all && x !in os
      ensures w(x) == 0
    {
      assert w(x) == WeightAt(t, k, f, x);
    }
    forall x | x in os
      ensures x in all
    {
      assert LeafAt(t, k, x - 0).Block?;
    }
    SumSupport(all, os, w);
  }

  /** The two counts are the numbers of available and of used blocks. */
  lemma NodesAre(t: Tree, k: nat, os: seq<nat>)
    ensures Names(os, t, k, true) ==> Weigh(t, k, AvailNode) == |os|
    ensures Names(os, t, k, false) ==> Weigh(t, k, UsedNode) == |os|
  {
    if Names(os, t, k, true) {
      WeighOver(t, k, true, AvailNode, os);
      SumOnes(os, WeightOf(t, k, AvailNode));
    }
    if Names(os, t, k, false) {
      WeighOver(t, k, false, UsedNode, os);
      SumOnes(os, WeightOf(t, k, UsedNode));
    }
  }

  /** The two sums are the sizes of the available and of the used blocks. */
  lemma BytesAre(t: Tree, k: nat, os: seq<nat>)
    ensures Names(os, t, k, true) ==> Weigh(t, k, AvailByte) == Sum(os, SizeAt(t, k))
    ensures Names(os, t, k, false) ==> Weigh(t, k, UsedByte) == Sum(os, SizeAt(t, k))
  {
    if Names(os, t, k, true) {
      WeighOver(t, k, true, AvailByte, os);
      SumSame(os, WeightOf(t, k, AvailByte), SizeAt(t, k));
    }
    if Names(os, t, k, false) {
      WeighOver(t, k, false, UsedByte, os);
      SumSame(os, WeightOf(t, k, UsedByte), SizeAt(t, k));
    }
  }

  // ----- the observers

  lemma OneMore(ls: seq<seq<nat>>, i: nat, l: nat, t: Tree, k: nat, f: (bool, nat) -> nat)
    requires ListsMatch(ls, t, k) && i < |ls| && l < |ls[i]|
    ensures LeafAt(t, k, ls[i][l]).Block?
    ensures Sum(Flatten(ls[..i]) + ls[i][..l + 1], WeightOf(t, k, f))
         == Sum(Flatten(ls[..i]) + ls[i][..l], WeightOf(t, k, f))
             + f(LeafAt(t, k, ls[i][l]).avail, LeafAt(t, k, ls[i][l]).logsize)
  {
    assert ls[i][l] in ls[i] && HasBlock(t, k, ls[i][l], k - i);
    assert Flatten(ls[..i]) + ls[i][..l + 1] == (Flatten(ls[..i]) + ls[i][..l]) + [ls[i][l]];
    SumAppend(Flatten(ls[..i]) + ls[i][..l], ls[i][l], WeightOf(t, k, f));
  }

  lemma NextList(ls: seq<seq<nat>>, i: nat)
    requires i < |ls|
    ensures Flatten(ls[..i + 1]) == Flatten(ls[..i]) + ls[i][..|ls[i]|]
  {
    assert ls[..i + 1][..i] == ls[..i];
  }

  /**
   `mpool_stat_get_nodes`: how many blocks are available and how many are used.  Together they
   are one block more per net split.
   */
  method GetNodes(pool: MPool) returns (avail: nat, used: nat)
    requires pool.Shape()
    ensures avail == Weigh(pool.tree, pool.maxlogsize, AvailNode)
    ensures used == Weigh(pool.tree, pool.maxlogsize, UsedNode)
    ensures forall os :: Names(os, pool.tree, pool.maxlogsize, true) ==> avail == |os|
    ensures forall os :: Names(os, pool.tree, pool.maxlogsize, false) ==> used == |os|
    ensures avail + used == 1 + pool.nsplits - pool.nmerges
  {
    ghost var t, k, ls := pool.tree, pool.maxlogsize, pool.blktable[..];
    ghost var wa, wu := WeightOf(t, k, AvailNode), WeightOf(t, k, UsedNode);
    pool.HeadersAt();
    avail, used := 0, 0;
    for i := 0 to pool.nblocks
      invariant avail == Sum(Flatten(ls[..i]), wa) && used == Sum(Flatten(ls[..i]), wu)
    {
      var phead := pool.blktable[i];
      assert Flatten(ls[..i]) + phead[..0] == Flatten(ls[..i]);
      for l := 0 to |phead|
        invariant avail == Sum(Flatten(ls[..i]) + phead[..l], wa) && used == Sum(Flatten(ls[..i]) + phead[..l], wu)
      {
        OneMore(ls, i, l, t, k, AvailNode);
        OneMore(ls, i, l, t, k, UsedNode);
        if FlagAvail(pool.mem[phead[l]].flags) {
          avail := avail + 1;
        } else {
          used := used + 1;
        }
      }
      NextList(ls, i);
    }
    assert ls[..pool.nblocks] == ls;
    ListsWeighTree(ls, t, k, pool.minlogsize, AvailNode);
    ListsWeighTree(ls, t, k, pool.minlogsize, UsedNode);
    WeighConserves(t, k, pool.minlogsize);
    forall os
      ensures Names(os, t, k, true) ==> avail == |os|
      ensures Names(os, t, k, false) ==> used == |os|
    {
      NodesAre(t, k, os);
    }
  }

  /** `mpool_stat_get_bytes`: the sizes of the available and of the used blocks, together the whole pool. */
  method GetBytes(pool: MPool) returns (avail: nat, used: nat)
    requires pool.Shape()
    ensures avail == Weigh(pool.tree, pool.maxlogsize, AvailByte)
    ensures used == Weigh(pool.tree, pool.maxlogsize, UsedByte)
    ensures forall os :: Names(os, pool.tree, pool.maxlogsize, true) ==>
      avail == Sum(os, SizeAt(pool.tree, pool.maxlogsize))
    ensures forall os :: Names(os, pool.tree, pool.maxlogsize, false) ==>
      used == Sum(os, SizeAt(pool.tree, pool.maxlogsize))
    ensures avail + used == Pow2(pool.maxlogsize)
  {
    ghost var t, k, ls := pool.tree, pool.maxlogsize, pool.blktable[..];
    ghost var wa, wu := WeightOf(t, k, AvailByte), WeightOf(t, k, UsedByte);
    pool.HeadersAt();
    avail, used := 0, 0;
    for i := 0 to pool.nblocks
      invariant avail == Sum(Flatten(ls[..i]), wa) && used == Sum(Flatten(ls[..i]), wu)
    {
      var phead := pool.blktable[i];
      assert Flatten(ls[..i]) + phead[..0] == Flatten(ls[..i]);
      for l := 0 to |phead|
        invariant avail == Sum(Flatten(ls[..i]) + phead[..l], wa) && used == Sum(Flatten(ls[..i]) + phead[..l], wu)
      {
        OneMore(ls, i, l, t, k, AvailByte);
        OneMore(ls, i, l, t, k, UsedByte);
        if FlagAvail(pool.mem[phead[l]].flags) {
          avail := avail + Pow2(pool.mem[phead[l]].logsize);
        } else {
          used := used + Pow2(pool.mem[phead[l]].logsize);
        }
      }
      NextList(ls, i);
    }
    assert ls[..pool.nblocks] == ls;
    ListsWeighTree(ls, t, k, pool.minlogsize, AvailByte);
    ListsWeighTree(ls, t, k, pool.minlogsize, UsedByte);
    WeighConserves(t, k, pool.minlogsize);
    forall os
      ensures Names(os, t, k, true) ==> avail == Sum(os, SizeAt(t, k))
      ensures Names(os, t, k, false) ==> used == Sum(os, SizeAt(t, k))
    {
      BytesAre(t, k, os);
    }
  }
}
