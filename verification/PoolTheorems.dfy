/** What a client of the pool may rely on, across calls. */
module PoolTheorems {
  import opened Powers
  import opened Lists
  import opened BuddyTree
  import opened BuddyBits
  import opened BuddySpec
  import opened BuddyTheorems
  import opened BlockHeader
  import opened PoolState
  import opened MemoryPool

  /** Freeing a block right after it was granted restores the tree, merge for split. */
  lemma GrantThenFree(t: Tree, ls: seq<seq<nat>>, k: nat, n: nat, o: nat, t': Tree, ls': seq<seq<nat>>)
    requires Canonical(t) && Granted(t, ls, k, n, o, t', ls')
    ensures FreeTree(t', k, o) == t
    ensures LeafCount(t') == LeafCount(t) + LeafAt(t, k, o).logsize - n
  {
    var j := LeafAt(t, k, o).logsize;
    LeafRange(t, k, o);
    AllocThenFree(t, k, o, j, n);
    CarveShape(j, n);
    GraftCount(t, k, o, j, Carve(j, n));
  }

  /**
   `mpool_alloc` followed at once by `mpool_free`: the same blocks with the same header
   fields as before, and as many new merges as new splits.
   */
  method AllocFree(pool: MPool, blksize: nat) returns (ok: bool)
    requires pool.Valid()
    modifies pool, pool.mem, pool.blktable
    ensures pool.Valid() && pool.tree == old(pool.tree)
    ensures pool.nmerges - old(pool.nmerges) == pool.nsplits - old(pool.nsplits)
    ensures forall o: nat :: LeafAt(pool.tree, pool.maxlogsize, o).Block? ==>
      o < pool.mem.Length && SameFields(old(pool.mem[..])[o], pool.mem[o])
    ensures ok <==> FitsSomewhere(pool.tree, pool.maxlogsize, Target(pool.minlogsize, blksize + pool.hsize))
  {
    ghost var hs, t, k := pool.mem[..], pool.tree, pool.maxlogsize;
    var ptr := pool.Alloc(blksize);
    ok := ptr.Some?;
    if ptr.Some? {
      GrantThenFree(t, old(pool.blktable[..]), k, Target(pool.minlogsize, blksize + pool.hsize),
                    ptr.value - pool.hsize, pool.tree, pool.blktable[..]);
      pool.Free(ptr.value);
    }
    SameTreeSameHeaders(hs, pool.mem[..], t, k, pool.hsize);
  }

  lemma SameTreeSameHeaders(hs: seq<Header>, hs': seq<Header>, t: Tree, k: nat, hsize: nat)
    requires HeadersMatch(hs, t, k, hsize) && HeadersMatch(hs', t, k, hsize) && |hs| == |hs'| == Pow2(k)
    ensures forall o: nat :: LeafAt(t, k, o).Block? ==>
      o < |hs| && SameFields(hs[o], hs'[o])
  {
    forall o: nat | LeafAt(t, k, o).Block?
      ensures o < |hs|
      ensures Describes(hs[o], LeafAt(t, k, o), PositionOf(k, ROOT, o, LeafAt(t, k, o).logsize), o + hsize)
      ensures Describes(hs'[o], LeafAt(t, k, o), PositionOf(k, ROOT, o, LeafAt(t, k, o).logsize), o + hsize)
    {
      LeafRange(t, k, o);
    }
  }

  /** Two pools of the same shape with the same used blocks have the same blocks and headers. */
  lemma UsedBlocksDetermineState(p: MPool, q: MPool)
    requires p.Valid() && q.Valid()
    requires p.maxlogsize == q.maxlogsize && p.minlogsize == q.minlogsize && p.hsize == q.hsize
    requires SameUse(p.tree, q.tree, p.maxlogsize)
    ensures p.tree == q.tree && p.mem.Length == q.mem.Length
    ensures forall o: nat :: LeafAt(p.tree, p.maxlogsize, o).Block? ==>
      o < p.mem.Length && SameFields(p.mem[o], q.mem[o])
    ensures forall i, o: nat :: 0 <= i < p.nblocks ==> (o in p.blktable[i] <==> o in q.blktable[i])
  {
    UsedDetermineTree(p.tree, q.tree, p.maxlogsize, p.minlogsize);
    SameTreeSameHeaders(p.mem[..], q.mem[..], p.tree, p.maxlogsize, p.hsize);
    forall i, o: nat | 0 <= i < p.nblocks
      ensures o in p.blktable[i] <==> o in q.blktable[i]
    {
      assert o in p.blktable[..][i] <==> HasBlock(p.tree, p.maxlogsize, o, p.maxlogsize - i);
      assert o in q.blktable[..][i] <==> HasBlock(p.tree, p.maxlogsize, o, p.maxlogsize - i);
    }
  }

  /** In every valid pool the two position bits of a header are functions of offset and size. */
  lemma HeaderBits(pool: MPool, o: nat)
    requires pool.Valid() && LeafAt(pool.tree, pool.maxlogsize, o).Block?
    ensures o < pool.mem.Length
    ensures var h := pool.mem[o];
            && pool.minlogsize <= h.logsize <= pool.maxlogsize
            && o % Pow2(h.logsize) == 0 && o + Pow2(h.logsize) <= pool.mem.Length
            && FlagRight(h.flags) == RightBit(pool.maxlogsize, o, h.logsize)
            && FlagParent(h.flags) == ParentBit(pool.maxlogsize, o, h.logsize)
  {
    pool.HeaderAt(o);
    PositionFromOffset(pool.maxlogsize, o, pool.mem[o].logsize);
    RegionIsAligned(pool.maxlogsize, o, pool.mem[o].logsize);
  }

  /** The client bytes of a granted block lie inside it and meet no other block, header included. */
  lemma PayloadIsolated(t: Tree, k: nat, m: nat, hsize: nat, blksize: nat, o: nat, o': nat)
    requires HasBlock(t, k, o, Target(m, blksize + hsize)) && LeafAt(t, k, o').Block? && o != o'
    ensures o + hsize + blksize <= o + Pow2(Target(m, blksize + hsize)) <= Pow2(k)
    ensures o + hsize + blksize <= o' || o' + Pow2(LeafAt(t, k, o').logsize) <= o
  {
    TargetFits(m, blksize + hsize);
    LeafRange(t, k, o);
    if o < o' {
      BlocksDisjoint(t, k, o, o');
    } else {
      BlocksDisjoint(t, k, o', o);
    }
  }

  /** A granted block is less than twice as large as needed, unless it has the minimum size. */
  lemma InternalFragmentation(m: nat, size: nat)
    ensures Target(m, size) == m || Pow2(Target(m, size)) < 2 * size
  {
    TargetFits(m, size);
  }

  /**
   Frees the given live blocks one by one.  The result is the same for every order, and when
   they are all the live blocks there are, it is one available block and no net split.
   */
  method FreeEach(pool: MPool, os: seq<nat>)
    requires pool.Valid() && Live(pool.tree, pool.maxlogsize, os)
    modifies pool, pool.mem, pool.blktable
    ensures pool.Valid() && pool.tree == FreeAll(old(pool.tree), pool.maxlogsize, os)
    ensures forall os' :: Live(old(pool.tree), pool.maxlogsize, os') && (forall x :: x in os <==> x in os') ==>
      pool.tree == FreeAll(old(pool.tree), pool.maxlogsize, os')
    ensures (forall x: nat, i: nat :: IsUsed(old(pool.tree), pool.maxlogsize, x, i) ==> x in os) ==>
      pool.tree == FREE && pool.nsplits == pool.nmerges
  {
    ghost var t, k, m := pool.tree, pool.maxlogsize, pool.minlogsize;
    assert os[0..] == os;
    for i := 0 to |os|
      invariant pool.Valid() && Live(pool.tree, k, os[i..])
      invariant FreeAll(pool.tree, k, os[i..]) == FreeAll(t, k, os)
    {
      assert os[i..][0] == os[i] && os[i..][1..] == os[i + 1..];
      LiveAfterFirst(pool.tree, k, os[i..]);
      pool.Free(os[i] + pool.hsize);
    }
    assert os[|os|..] == [];
    forall os' | Live(t, k, os') && (forall x :: x in os <==> x in os')
      ensures FreeAll(t, k, os) == FreeAll(t, k, os')
    {
      FreeOrderIrrelevant(t, k, m, os, os');
    }
    if forall x: nat, i: nat :: IsUsed(t, k, x, i) ==> x in os {
      FreeEverything(t, k, m, os);
    }
  }
}
