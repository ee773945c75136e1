/** How headers in memory and block lists spell out a split tree, and how both change together. */
module PoolState {
  import opened Powers
  import opened Lists
  import opened BuddyTree
  import opened BuddyBits
  import opened BuddySpec
  import opened BlockHeader

  /** Every block's header carries its availability, size, position bits and client pointer. */
  ghost predicate HeadersMatch(hs: seq<Header>, t: Tree, k: nat, hsize: nat) {
    forall o: nat :: o < |hs| && LeafAt(t, k, o).Block? ==>
      Describes(hs[o], LeafAt(t, k, o), PositionOf(k, ROOT, o, LeafAt(t, k, o).logsize), o + hsize)
  }

  /** List `i` holds each block of `2^(k-i)` bytes once and nothing else. */
  ghost predicate ListsMatch(ls: seq<seq<nat>>, t: Tree, k: nat) {
    && (forall i :: 0 <= i < |ls| ==> NoDup(ls[i]))
    && (forall i, o: nat :: 0 <= i < |ls| ==> (o in ls[i] <==> HasBlock(t, k, o, k - i)))
  }

  /** Headers after a subtree was replaced: only the region's own headers need looking at. */
  lemma GraftHeaders(hs: seq<Header>, hs': seq<Header>, t: Tree, k: nat, hsize: nat, o: nat, j: nat, s: Tree)
    requires HeadersMatch(hs, t, k, hsize) && HasRegion(t, k, o, j) && |hs'| == |hs|
    requires forall x: nat :: x < |hs| && !(o <= x < o + Pow2(j)) ==> hs'[x] == hs[x]
    requires forall x: nat :: x < |hs| && o <= x < o + Pow2(j) && LeafAt(s, j, x - o).Block? ==>
      Describes(hs'[x], LeafAt(s, j, x - o), PositionOf(k, ROOT, x, LeafAt(s, j, x - o).logsize), x + hsize)
    ensures HeadersMatch(hs', Graft(t, k, o, j, s), k, hsize)
  {
    var t' := Graft(t, k, o, j, s);
    forall x: nat | x < |hs'| && LeafAt(t', k, x).Block?
      ensures Describes(hs'[x], LeafAt(t', k, x), PositionOf(k, ROOT, x, LeafAt(t', k, x).logsize), x + hsize)
    {
      GraftAt(t, k, o, j, s, x);
    }
  }

  /** Lists after a subtree was replaced: the region's old blocks out, its new ones in. */
  lemma GraftLists(ls: seq<seq<nat>>, ls': seq<seq<nat>>, t: Tree, k: nat, o: nat, j: nat, s: Tree)
    requires ListsMatch(ls, t, k) && HasRegion(t, k, o, j) && |ls'| == |ls|
    requires forall i :: 0 <= i < |ls| ==> NoDup(ls'[i])
    requires forall i, x: nat :: 0 <= i < |ls| ==>
      (x in ls'[i] <==> if o <= x < o + Pow2(j) then HasBlock(s, j, x - o, k - i) else x in ls[i])
    ensures ListsMatch(ls', Graft(t, k, o, j, s), k)
  {
    forall i, x: nat | 0 <= i < |ls|
      ensures x in ls'[i] <==> HasBlock(Graft(t, k, o, j, s), k, x, k - i)
    {
      GraftAt(t, k, o, j, s, x);
    }
  }

  // ----- the three changes the program makes

  const PAIR := Node(FREE, FREE)

  ghost function SplitLists(ls: seq<seq<nat>>, k: nat, o: nat, j: nat): seq<seq<nat>>
    requires 0 < j <= k && k - j + 1 < |ls|
  {
    ls[k - j := Without(ls[k - j], o)][k - j + 1 := [o + Half(j), o] + ls[k - j + 1]]
  }

  /** An available block becomes two: off its list, both halves at the head of the next. */
  lemma SplitListsMatch(ls: seq<seq<nat>>, t: Tree, k: nat, o: nat, j: nat)
    requires ListsMatch(ls, t, k) && HasBlock(t, k, o, j) && HasRegion(t, k, o, j)
    requires 0 < j <= k && k - j + 1 < |ls|
    ensures ListsMatch(SplitLists(ls, k, o, j), Graft(t, k, o, j, PAIR), k)
  {
    var ls', next := SplitLists(ls, k, o, j), ls[k - j + 1];
    WithoutElements(ls[k - j], o);
    OnlyBlock(t, k, o);
    assert o in next <==> HasBlock(t, k, o, k - (k - j + 1));
    assert o + Half(j) in next <==> HasBlock(t, k, o + Half(j), k - (k - j + 1));
    NoDupCons(o, next);
    NoDupCons(o + Half(j), [o] + next);
    assert ls'[k - j + 1] == [o + Half(j)] + ([o] + next);
    forall i, x: nat | 0 <= i < |ls|
      ensures x in ls'[i] <==> if o <= x < o + Pow2(j) then HasBlock(PAIR, j, x - o, k - i) else x in ls[i]
    {
      SplitListsAt(ls, t, k, o, j, i, x);
    }
    GraftLists(ls, ls', t, k, o, j, PAIR);
  }

  /** Where offset `x` is listed after a split. */
  lemma SplitListsAt(ls: seq<seq<nat>>, t: Tree, k: nat, o: nat, j: nat, i: nat, x: nat)
    requires HasBlock(t, k, o, j) && 0 < j <= k && k - j + 1 < |ls| && i < |ls|
    requires NoDup(ls[k - j]) && (x in ls[i] <==> HasBlock(t, k, x, k - i))
    ensures x in SplitLists(ls, k, o, j)[i]
            <==> if o <= x < o + Pow2(j) then HasBlock(PAIR, j, x - o, k - i) else x in ls[i]
  {
    WithoutElements(ls[k - j], o);
    OnlyBlock(t, k, o);
    PairBlocks(j);
  }

  /** Both halves get headers. */
  lemma SplitHeadersMatch(hs: seq<Header>, t: Tree, k: nat, hsize: nat, o: nat, j: nat, l: Header, r: Header)
    requires HeadersMatch(hs, t, k, hsize) && 0 < j <= k && o + Half(j) < |hs|
    requires HasRegion(t, k, o, j) && IsRegion(k, o, j)
    requires Describes(l, Block(true, j - 1), LeftChild(PositionOf(k, ROOT, o, j)), o + hsize)
    requires Describes(r, Block(true, j - 1), RightChild(PositionOf(k, ROOT, o, j)), o + Half(j) + hsize)
    ensures HeadersMatch(hs[o := l][o + Half(j) := r], Graft(t, k, o, j, PAIR), k, hsize)
  {
    SplitPosition(k, ROOT, o, j);
    PairBlocks(j);
    GraftHeaders(hs, hs[o := l][o + Half(j) := r], t, k, hsize, o, j, PAIR);
  }

  lemma PairBlocks(j: nat)
    requires j > 0
    ensures forall x: nat :: LeafAt(PAIR, j, x) == if x == 0 || x == Half(j) then Block(true, j - 1) else NoBlock
  {
    forall x: nat
      ensures LeafAt(PAIR, j, x) == if x == 0 || x == Half(j) then Block(true, j - 1) else NoBlock
    {
      LeafAtNode(FREE, FREE, j, x);
    }
  }

  /** Inside a block nothing else starts. */
  lemma OnlyBlock(t: Tree, k: nat, o: nat)
    requires LeafAt(t, k, o).Block?
    ensures forall x: nat :: o < x < o + Pow2(LeafAt(t, k, o).logsize) ==> LeafAt(t, k, x) == NoBlock
  {
    LeafRange(t, k, o);
    forall x: nat | o < x < o + Pow2(LeafAt(t, k, o).logsize)
      ensures LeafAt(t, k, x) == NoBlock
    {
      SubLeafAt(t, k, o, LeafAt(t, k, o).logsize, x);
    }
  }

  ghost function MergeLists(ls: seq<seq<nat>>, k: nat, o: nat, buddy: nat, parent: nat, j: nat): seq<seq<nat>>
    requires j < k && k - j < |ls|
  {
    ls[k - j := Without(Without(ls[k - j], o), buddy)][k - j - 1 := [parent] + ls[k - j - 1]]
  }

  /** The two blocks of a region that is split into two blocks. */
  lemma TwoBlocks(t: Tree, k: nat, parent: nat, j: nat, x: nat)
    requires HasRegion(t, k, parent, j + 1) && parent <= x < parent + Pow2(j + 1)
    requires var s := Sub(t, k, parent, j + 1); s.Node? && s.left.Leaf? && s.right.Leaf?
    ensures LeafAt(t, k, x).Block? <==> x == parent || x == parent + Pow2(j)
    ensures LeafAt(t, k, x).Block? ==> LeafAt(t, k, x).logsize == j
  {
    SubLeafAt(t, k, parent, j + 1, x);
    var s := Sub(t, k, parent, j + 1);
    LeafAtNode(s.left, s.right, j + 1, x - parent);
  }

  /** Where offset `x` is listed after a merge. */
  lemma MergeListsAt(ls: seq<seq<nat>>, t: Tree, k: nat, o: nat, buddy: nat, parent: nat, j: nat, i: nat, x: nat)
    requires j < k && k - j < |ls| && HasRegion(t, k, parent, j + 1) && i < |ls|
    requires NoDup(ls[k - j]) && (x in ls[i] <==> HasBlock(t, k, x, k - i))
    requires var s := Sub(t, k, parent, j + 1); s.Node? && s.left.Leaf? && s.right.Leaf?
    requires (o == parent && buddy == parent + Pow2(j)) || (buddy == parent && o == parent + Pow2(j))
    ensures x in MergeLists(ls, k, o, buddy, parent, j)[i]
            <==> if parent <= x < parent + Pow2(j + 1) then HasBlock(FREE, j + 1, x - parent, k - i) else x in ls[i]
  {
    WithoutElements(ls[k - j], o);
    WithoutElements(Without(ls[k - j], o), buddy);
    if parent <= x < parent + Pow2(j + 1) {
      TwoBlocks(t, k, parent, j, x);
      assert HasBlock(FREE, j + 1, x - parent, k - i) <==> x == parent && i == k - j - 1;
    }
  }

  /** Two buddies become one available block: both off their list, the merged one at the head. */
  lemma MergeListsMatch(ls: seq<seq<nat>>, t: Tree, k: nat, o: nat, buddy: nat, parent: nat, j: nat)
    requires ListsMatch(ls, t, k)
    requires j < k && k - j < |ls| && HasRegion(t, k, parent, j + 1)
    requires var s := Sub(t, k, parent, j + 1); s.Node? && s.left.Leaf? && s.right.Leaf?
    requires (o == parent && buddy == parent + Pow2(j)) || (buddy == parent && o == parent + Pow2(j))
    ensures ListsMatch(MergeLists(ls, k, o, buddy, parent, j), Graft(t, k, parent, j + 1, FREE), k)
  {
    var ls' := MergeLists(ls, k, o, buddy, parent, j);
    WithoutElements(ls[k - j], o);
    WithoutElements(Without(ls[k - j], o), buddy);
    TwoBlocks(t, k, parent, j, parent);
    assert parent in ls[k - j - 1] <==> HasBlock(t, k, parent, k - (k - j - 1));
    NoDupCons(parent, ls[k - j - 1]);
    forall i, x: nat | 0 <= i < |ls|
      ensures x in ls'[i] <==> if parent <= x < parent + Pow2(j + 1) then HasBlock(FREE, j + 1, x - parent, k - i)
                               else x in ls[i]
    {
      MergeListsAt(ls, t, k, o, buddy, parent, j, i, x);
    }
    GraftLists(ls, ls', t, k, parent, j + 1, FREE);
  }

  /** The header of two merged buddies at the start of their region; the other one is dead. */
  lemma MergeHeadersMatch(hs: seq<Header>, t: Tree, k: nat, hsize: nat, parent: nat, j: nat, h: Header)
    requires HeadersMatch(hs, t, k, hsize) && |hs| == Pow2(k) && parent < |hs|
    requires HasRegion(t, k, parent, j + 1)
    requires var s := Sub(t, k, parent, j + 1); s.Node? && s.left.Leaf? && s.right.Leaf?
    requires Describes(h, Block(true, j + 1), PositionOf(k, ROOT, parent, j + 1), parent + hsize)
    ensures HeadersMatch(hs[parent := h], Graft(t, k, parent, j + 1, FREE), k, hsize)
  {
    GraftHeaders(hs, hs[parent := h], t, k, hsize, parent, j + 1, FREE);
  }

  /** Changing a block's availability bit touches its header. */
  lemma MarkHeadersMatch(hs: seq<Header>, t: Tree, k: nat, hsize: nat, o: nat, j: nat, avail: bool)
    requires HeadersMatch(hs, t, k, hsize) && HasBlock(t, k, o, j) && o < |hs| && HasRegion(t, k, o, j)
    ensures HeadersMatch(hs[o := hs[o].(flags := MarkAvail(hs[o].flags, avail))],
                         Graft(t, k, o, j, Leaf(avail)), k, hsize)
  {
    assert Describes(hs[o], LeafAt(t, k, o), PositionOf(k, ROOT, o, j), o + hsize);
    GraftHeaders(hs, hs[o := hs[o].(flags := MarkAvail(hs[o].flags, avail))], t, k, hsize, o, j, Leaf(avail));
  }

  /** It changes no list. */
  lemma MarkListsMatch(ls: seq<seq<nat>>, t: Tree, k: nat, o: nat, j: nat, avail: bool)
    requires ListsMatch(ls, t, k) && HasBlock(t, k, o, j) && HasRegion(t, k, o, j)
    ensures ListsMatch(ls, Graft(t, k, o, j, Leaf(avail)), k)
  {
    OnlyBlock(t, k, o);
    forall i, x: nat | 0 <= i < |ls|
      ensures x in ls[i] <==> if o <= x < o + Pow2(j) then HasBlock(Leaf(avail), j, x - o, k - i) else x in ls[i]
    {
    }
    GraftLists(ls, ls, t, k, o, j, Leaf(avail));
  }

  // ----- one turn of the coalescing loop on the tree

  /** A block and its available buddy fill a split region, and merging them makes progress. */
  lemma MergeFacts(t: Tree, k: nat, m: nat, o: nat, j: nat)
    requires Fits(t, k, m) && HasBlock(t, k, o, j) && j < k
    requires var buddy := BuddyOf(o, j, PositionOf(k, ROOT, o, j).right); buddy >= 0 && IsAvail(t, k, buddy, j)
    ensures var right := PositionOf(k, ROOT, o, j).right;
            var buddy, parent := BuddyOf(o, j, right), ParentOf(o, j, right);
            && 0 <= parent < Pow2(k) && m <= j && HasRegion(t, k, parent, j + 1)
            && (var s := Sub(t, k, parent, j + 1); s.Node? && s.left.Leaf? && s.right.Leaf?)
            && PositionOf(k, ROOT, buddy, j).right == !right
            && PositionOf(k, ROOT, parent, j + 1)
               == (if right then Merged(PositionOf(k, ROOT, buddy, j), PositionOf(k, ROOT, o, j))
                            else Merged(PositionOf(k, ROOT, o, j), PositionOf(k, ROOT, buddy, j)))
            && var g := Graft(t, k, parent, j + 1, FREE);
               && Fits(g, k, m) && LeafCount(g) == LeafCount(t) - 1 && IsAvail(g, k, parent, j + 1)
               && FreeTree(g, k, parent) == FreeTree(t, k, o)
  {
    var right := PositionOf(k, ROOT, o, j).right;
    var buddy, parent := BuddyOf(o, j, right), ParentOf(o, j, right);
    LeafFits(t, k, m, o);
    LeafRange(t, k, o);
    LeafRange(t, k, buddy);
    BuddyRegion(t, k, ROOT, o, j);
    RegionLeaf(t, k, parent, j + 1);
    SplitPosition(k, ROOT, parent, j + 1);
    MergeStep(t, k, parent, j, right);
    GraftFits(t, k, m, parent, j + 1, FREE);
    GraftCount(t, k, parent, j + 1, FREE);
    GraftAt(t, k, parent, j + 1, FREE, parent);
  }

  // ----- the whole state, as values

  /** Headers and lists spell out the tree, whose splits less merges are `net`. */
  ghost predicate Represents(hs: seq<Header>, ls: seq<seq<nat>>, t: Tree, k: nat, m: nat, hsize: nat, net: int) {
    && 0 < hsize < Pow2(m) && m <= k && |hs| == Pow2(k) && |ls| == k - m + 1
    && Fits(t, k, m) && net + 1 == LeafCount(t)
    && HeadersMatch(hs, t, k, hsize) && ListsMatch(ls, t, k)
  }

  lemma SplitKeeps(hs: seq<Header>, ls: seq<seq<nat>>, t: Tree, k: nat, m: nat, hsize: nat, net: int,
                   o: nat, j: nat, l: Header, r: Header)
    requires Represents(hs, ls, t, k, m, hsize, net)
    requires HasBlock(t, k, o, j) && m < j <= k && o + Half(j) < |hs|
    requires Describes(l, Block(true, j - 1), LeftChild(PositionOf(k, ROOT, o, j)), o + hsize)
    requires Describes(r, Block(true, j - 1), RightChild(PositionOf(k, ROOT, o, j)), o + Half(j) + hsize)
    ensures HasRegion(t, k, o, j)
    ensures var t' := Graft(t, k, o, j, PAIR);
            && Represents(hs[o := l][o + Half(j) := r], SplitLists(ls, k, o, j), t', k, m, hsize, net + 1)
            && IsAvail(t', k, o, j - 1)
  {
    LeafRange(t, k, o);
    SplitHeadersMatch(hs, t, k, hsize, o, j, l, r);
    SplitListsMatch(ls, t, k, o, j);
    GraftFits(t, k, m, o, j, PAIR);
    GraftCount(t, k, o, j, PAIR);
    GraftAt(t, k, o, j, PAIR, o);
    PairBlocks(j);
  }

  lemma MergeKeeps(hs: seq<Header>, ls: seq<seq<nat>>, t: Tree, k: nat, m: nat, hsize: nat, net: int,
                   o: nat, j: nat, h: Header)
    requires Represents(hs, ls, t, k, m, hsize, net) && HasBlock(t, k, o, j) && j < k
    requires var buddy := BuddyOf(o, j, PositionOf(k, ROOT, o, j).right); buddy >= 0 && IsAvail(t, k, buddy, j)
    requires var parent := ParentOf(o, j, PositionOf(k, ROOT, o, j).right);
             parent >= 0 && Describes(h, Block(true, j + 1), PositionOf(k, ROOT, parent, j + 1), parent + hsize)
    ensures var right := PositionOf(k, ROOT, o, j).right;
            var buddy, parent := BuddyOf(o, j, right), ParentOf(o, j, right);
            && m <= j && parent < |hs| && HasRegion(t, k, parent, j + 1)
            && var g := Graft(t, k, parent, j + 1, FREE);
               && Represents(hs[parent := h], MergeLists(ls, k, o, buddy, parent, j), g, k, m, hsize, net - 1)
               && IsAvail(g, k, parent, j + 1) && FreeTree(g, k, parent) == FreeTree(t, k, o)
  {
    var right := PositionOf(k, ROOT, o, j).right;
    MergeFacts(t, k, m, o, j);
    MergeHeadersMatch(hs, t, k, hsize, ParentOf(o, j, right), j, h);
    MergeListsMatch(ls, t, k, o, BuddyOf(o, j, right), ParentOf(o, j, right), j);
  }

  lemma MarkKeeps(hs: seq<Header>, ls: seq<seq<nat>>, t: Tree, k: nat, m: nat, hsize: nat, net: int,
                  o: nat, j: nat, avail: bool)
    requires Represents(hs, ls, t, k, m, hsize, net) && HasBlock(t, k, o, j)
    ensures o < |hs| && HasRegion(t, k, o, j)
    ensures Represents(hs[o := hs[o].(flags := MarkAvail(hs[o].flags, avail))], ls,
                       Graft(t, k, o, j, Leaf(avail)), k, m, hsize, net)
  {
    LeafRange(t, k, o);
    LeafFits(t, k, m, o);
    MarkHeadersMatch(hs, t, k, hsize, o, j, avail);
    MarkListsMatch(ls, t, k, o, j, avail);
    GraftFits(t, k, m, o, j, Leaf(avail));
    GraftCount(t, k, o, j, Leaf(avail));
  }
}
