/** The memory pool of `buddy/mpool.c`, updated in place and proved against the split tree. */
module MemoryPool {
  import opened Powers
  import opened Lists
  import opened BuddyTree
  import opened BuddyBits
  import opened BuddySpec
  import opened BuddyTheorems
  import opened BlockHeader
  import opened PoolState

  datatype Mpret = MPOOL_OK | MPOOL_EBADVAL | MPOOL_ENOMEM | MPOOL_ERANGE

  /** `sizeof(size_t) * CHAR_BIT`. */
  const SIZE_BITS := 64

  /** `(o, j)` is available, and no available block of `2^n` bytes or more is smaller. */
  ghost predicate Smallest(t: Tree, k: nat, n: nat, o: nat, j: nat) {
    n <= j && IsAvail(t, k, o, j) && forall x: nat, i: nat :: n <= i && IsAvail(t, k, x, i) ==> j <= i
  }

  /** The lists after splitting block `(o, j)` down to `2^n`, one split after the other. */
  ghost function AllocLists(ls: seq<seq<nat>>, k: nat, o: nat, j: nat, n: nat): (r: seq<seq<nat>>)
    requires n <= j <= k && k - n < |ls|
    ensures |r| == |ls|
    decreases j - n
  {
    if j == n then ls else SplitLists(AllocLists(ls, k, o, j, n + 1), k, o, n + 1)
  }

  /** Every list after the splits: halves stand at the head, a right half ahead of the left one. */
  lemma {:induction false} AllocListsAt(ls: seq<seq<nat>>, k: nat, o: nat, j: nat, n: nat, i: nat)
    requires n <= j <= k && k - n < |ls| && i < |ls|
    ensures var now := AllocLists(ls, k, o, j, n)[i];
            && (n == j || i < k - j || i > k - n ==> now == ls[i])
            && (n < j && i == k - j ==> now == Without<nat>(ls[i], o))
            && (k - j < i < k - n ==> |now| == |ls[i]| + 1 && now[1..] == ls[i])
            && (k - j < i == k - n ==>
                  |now| == |ls[i]| + 2 && now[0] == o + Pow2(n) && now[1] == o && now[2..] == ls[i])
    decreases j - n
  {
    if n < j {
      AllocListsAt(ls, k, o, j, n + 1, i);
      var was := AllocLists(ls, k, o, j, n + 1);
      HalvedAt(was, k, o, n + 1, i);
      if k - j < i == k - n - 1 {
        WithoutSecond(was[i], o);
      }
    }
  }

  lemma HalvedAt(was: seq<seq<nat>>, k: nat, o: nat, j: nat, i: nat)
    requires 0 < j <= k && k - j + 1 < |was| && i < |was|
    ensures var now := SplitLists(was, k, o, j)[i];
            && (i == k - j ==> now == Without<nat>(was[i], o))
            && (i == k - j + 1 ==>
                  |now| == |was[i]| + 2 && now[0] == o + Pow2(j - 1) && now[1] == o && now[2..] == was[i])
            && (i != k - j && i != k - j + 1 ==> now == was[i])
  {
  }

  ghost predicate AllNewFirst(was: seq<seq<nat>>, now: seq<seq<nat>>) {
    |was| == |now| && forall i :: 0 <= i < |was| ==> NewFirst(was[i], now[i])
  }

  ghost predicate AllNoDup(ls: seq<seq<nat>>) {
    forall i :: 0 <= i < |ls| ==> NoDup(ls[i])
  }

  /** The program only takes single elements out of lists, and puts them at the head. */
  ghost predicate Moved(was: seq<nat>, now: seq<nat>) {
    Headed(was, now) || Thinned(was, now)
  }

  lemma MovedOrder(was: seq<seq<nat>>, now: seq<seq<nat>>)
    requires |was| == |now| && AllNoDup(was) && AllNoDup(now)
    requires forall i :: 0 <= i < |was| ==> Moved(was[i], now[i])
    ensures AllNewFirst(was, now)
  {
    forall i | 0 <= i < |was|
      ensures NewFirst(was[i], now[i])
    {
      assert Moved(was[i], now[i]) && NoDup(was[i]) && NoDup(now[i]);
      if Headed(was[i], now[i]) {
        NewFirstHeaded(was[i], now[i]);
      } else {
        NewFirstThinned(was[i], now[i]);
      }
    }
  }

  lemma AllocMoved(ls: seq<seq<nat>>, k: nat, o: nat, j: nat, n: nat, i: nat)
    requires n <= j <= k && k - n < |ls| && i < |ls|
    ensures Moved(ls[i], AllocLists(ls, k, o, j, n)[i])
  {
    AllocListsAt(ls, k, o, j, n, i);
    assert ls[i][0..] == ls[i];
  }

  /** The first available block of a list, as the search takes it. */
  ghost predicate FirstAvail(s: seq<nat>, t: Tree, k: nat, o: nat) {
    exists l :: 0 <= l < |s| && s[l] == o && AvailAt(t, k, o)
                && forall l' :: 0 <= l' < l ==> !AvailAt(t, k, s[l'])
  }

  ghost predicate AvailAt(t: Tree, k: nat, o: nat) {
    LeafAt(t, k, o).Block? && LeafAt(t, k, o).avail
  }

  /** What a successful allocation of a `2^n` block does to the tree and the lists. */
  ghost predicate Granted(t: Tree, ls: seq<seq<nat>>, k: nat, n: nat, o: nat, t': Tree, ls': seq<seq<nat>>) {
    && AvailAt(t, k, o)
    && var j := LeafAt(t, k, o).logsize;
       && Smallest(t, k, n, o, j) && j <= k && k - n < |ls|
       && FirstAvail(ls[k - j], t, k, o)
       && HasRegion(t, k, o, j) && t' == AllocTree(t, k, o, j, n)
       && ls' == AllocLists(ls, k, o, j, n)
  }

  lemma GrantedMeaning(t: Tree, ls: seq<seq<nat>>, k: nat, n: nat, o: nat, t': Tree, ls': seq<seq<nat>>)
    requires Granted(t, ls, k, n, o, t', ls') && Canonical(t)
    ensures IsUsed(t', k, o, n) && Canonical(t')
  {
    var j := LeafAt(t, k, o).logsize;
    AllocUsed(t, k, o, j, n, o, n);
    CarveShape(j, n);
    GraftCanonical(t, k, o, j, Carve(j, n));
  }

  /** The granted block was the first available one of a smallest fitting size. */
  lemma GrantedFirst(t: Tree, ls: seq<seq<nat>>, k: nat, n: nat, o: nat, t': Tree, ls': seq<seq<nat>>)
    requires Granted(t, ls, k, n, o, t', ls') && AllNoDup(ls)
    ensures var j := LeafAt(t, k, o).logsize;
            && n <= j <= k && k - j < |ls|
            && (forall x: nat, i: nat :: n <= i && IsAvail(t, k, x, i) ==> j <= i)
            && (forall x :: Before(ls[k - j], x, o) ==> !AvailAt(t, k, x))
  {
    FirstBefore(ls[k - LeafAt(t, k, o).logsize], t, k, o);
  }

  /** Splitting puts halves at the heads of lists, the last right half ahead of the granted block. */
  lemma GrantedOrder(t: Tree, ls: seq<seq<nat>>, k: nat, n: nat, o: nat, t': Tree, ls': seq<seq<nat>>)
    requires Granted(t, ls, k, n, o, t', ls') && AllNoDup(ls) && AllNoDup(ls')
    ensures AllNewFirst(ls, ls')
    ensures k - n < |ls'| && (LeafAt(t, k, o).logsize > n ==> Before(ls'[k - n], o + Pow2(n), o))
  {
    AllocOrder(ls, k, o, LeafAt(t, k, o).logsize, n);
  }

  lemma AllocOrder(ls: seq<seq<nat>>, k: nat, o: nat, j: nat, n: nat)
    requires n <= j <= k && k - n < |ls| && AllNoDup(ls) && AllNoDup(AllocLists(ls, k, o, j, n))
    ensures AllNewFirst(ls, AllocLists(ls, k, o, j, n))
    ensures j > n ==> Before(AllocLists(ls, k, o, j, n)[k - n], o + Pow2(n), o)
  {
    var now := AllocLists(ls, k, o, j, n);
    forall i | 0 <= i < |ls|
      ensures Moved(ls[i], now[i])
    {
      AllocMoved(ls, k, o, j, n, i);
    }
    MovedOrder(ls, now);
    if j > n {
      AllocListsAt(ls, k, o, j, n, k - n);
      HeadTwo(now[k - n], o + Pow2(n), o);
    }
  }

  lemma HeadTwo(now: seq<nat>, x: nat, y: nat)
    requires |now| >= 2 && now[0] == x && now[1] == y
    ensures Before(now, x, y)
  {
    assert now[0] == x && now[1] == y;
  }

  lemma FirstBefore(s: seq<nat>, t: Tree, k: nat, o: nat)
    requires FirstAvail(s, t, k, o) && NoDup(s)
    ensures forall x :: Before(s, x, o) ==> !AvailAt(t, k, x)
  {
    var l :| 0 <= l < |s| && s[l] == o && AvailAt(t, k, o) && forall l' :: 0 <= l' < l ==> !AvailAt(t, k, s[l']);
    forall x | Before(s, x, o)
      ensures !AvailAt(t, k, x)
    {
      var a, b :| 0 <= a < b < |s| && s[a] == x && s[b] == o;
      assert b == l;
    }
  }

  /** The start of the region `d` levels above block `(o, j)`. */
  ghost function Ancestor(k: nat, o: nat, j: nat, d: nat): nat {
    if d == 0 then o
    else
      var a := Ancestor(k, o, j, d - 1);
      Natural(ParentOf(a, j + d - 1, PositionOf(k, ROOT, a, j + d - 1).right))
  }

  ghost function Natural(x: int): nat {
    if x < 0 then 0 else x
  }

  /** The buddy that the merge after `d` merges takes. */
  ghost function BuddyAbove(k: nat, o: nat, j: nat, d: nat): nat {
    var a := Ancestor(k, o, j, d);
    Natural(BuddyOf(a, j + d, PositionOf(k, ROOT, a, j + d).right))
  }

  /** The lists after block `(o, j)` was merged `d` times, each time with its buddy of then. */
  ghost function FreeLists(ls: seq<seq<nat>>, k: nat, o: nat, j: nat, d: int): (r: seq<seq<nat>>)
    ensures |r| == |ls|
    decreases d
  {
    if d <= 0 || j + d > k || k - j >= |ls| then ls
    else
      MergeLists(FreeLists(ls, k, o, j, d - 1), k, Ancestor(k, o, j, d - 1), BuddyAbove(k, o, j, d - 1),
                 Ancestor(k, o, j, d), j + d - 1)
  }

  /** Every list after `d` merges: buddies are gone, and the merged block stands at the head. */
  lemma {:induction false} FreeListsAt(ls: seq<seq<nat>>, k: nat, o: nat, j: nat, d: nat, i: nat)
    requires j + d <= k && k - j < |ls| && i < |ls|
    ensures var now := FreeLists(ls, k, o, j, d)[i];
            && (d == 0 || i > k - j || i < k - j - d ==> now == ls[i])
            && (d > 0 && i == k - j - d ==> |now| == |ls[i]| + 1 && now[0] == Ancestor(k, o, j, d) && now[1..] == ls[i])
            && (k - j - d < i <= k - j ==> Thinned(ls[i], now))
    decreases d
  {
    if d > 0 {
      FreeListsAt(ls, k, o, j, d - 1, i);
      var a, buddy, was := Ancestor(k, o, j, d - 1), BuddyAbove(k, o, j, d - 1), FreeLists(ls, k, o, j, d - 1);
      var parent, now := Ancestor(k, o, j, d), FreeLists(ls, k, o, j, d);
      assert now == MergeLists(was, k, a, buddy, parent, j + d - 1);
      MergedAt(was, k, a, buddy, parent, j + d - 1, i);
    }
  }

  /** One more merge: two blocks off list `k - j`, and their parent at the head of the list before. */
  lemma MergedAt(was: seq<seq<nat>>, k: nat, o: nat, buddy: nat, parent: nat, j: nat, i: nat)
    requires j < k && k - j < |was| && i < |was|
    ensures var now := MergeLists(was, k, o, buddy, parent, j)[i];
            && (i == k - j ==> Thinned(was[i], now))
            && (i == k - j && was[i] != [] && was[i][0] == o ==> Thinned(was[i][1..], now))
            && (i == k - j - 1 ==> |now| == |was[i]| + 1 && now[0] == parent && now[1..] == was[i])
            && (i != k - j && i != k - j - 1 ==> now == was[i])
  {
    if i == k - j {
      assert MergeLists(was, k, o, buddy, parent, j)[i] == Without<nat>(Without<nat>(was[i], o), buddy);
      if was[i] != [] && was[i][0] == o {
        assert Without<nat>(was[i], o) == was[i][1..];
      }
    }
  }

  lemma FreeMoved(ls: seq<seq<nat>>, k: nat, o: nat, j: nat, d: nat, i: nat)
    requires j + d <= k && k - j < |ls| && i < |ls|
    ensures Moved(ls[i], FreeLists(ls, k, o, j, d)[i])
  {
    FreeListsAt(ls, k, o, j, d, i);
    assert ls[i][0..] == ls[i];
  }

  lemma FreeOrder(ls: seq<seq<nat>>, k: nat, o: nat, j: nat, d: int)
    requires AllNoDup(ls) && AllNoDup(FreeLists(ls, k, o, j, d))
    ensures AllNewFirst(ls, FreeLists(ls, k, o, j, d))
  {
    var now := FreeLists(ls, k, o, j, d);
    forall i | 0 <= i < |ls|
      ensures Moved(ls[i], now[i])
    {
      if d <= 0 || j + d > k || k - j >= |ls| {
        assert ls[i][0..] == ls[i];
      } else {
        FreeMoved(ls, k, o, j, d, i);
      }
    }
    MovedOrder(ls, now);
  }

  /** One more merge on top of `d`. */
  lemma FreeListsNext(ls: seq<seq<nat>>, k: nat, o: nat, j: nat, d: nat, a: nat, ls': seq<seq<nat>>)
    requires j + d < k && k - j < |ls| && a == Ancestor(k, o, j, d) && ls' == FreeLists(ls, k, o, j, d)
    requires var right := PositionOf(k, ROOT, a, j + d).right;
             BuddyOf(a, j + d, right) >= 0 && ParentOf(a, j + d, right) >= 0
    ensures var right := PositionOf(k, ROOT, a, j + d).right;
            var buddy, parent := BuddyOf(a, j + d, right), ParentOf(a, j + d, right);
            && Ancestor(k, o, j, d + 1) == parent
            && FreeLists(ls, k, o, j, d + 1) == MergeLists(ls', k, a, buddy, parent, j + d)
  {
  }

  /** `best` is a smallest available block of `size` bytes or more among the first `i` lists. */
  ghost predicate SmallestSoFar(t: Tree, k: nat, size: nat, i: nat, best: Option<nat>) {
    match best
    case None =>
      forall x: nat :: AvailAt(t, k, x) ==> Pow2(LeafAt(t, k, x).logsize) < size || LeafAt(t, k, x).logsize + i <= k
    case Some(o) =>
      && AvailAt(t, k, o) && Pow2(LeafAt(t, k, o).logsize) >= size && LeafAt(t, k, o).logsize + i > k
      && forall x: nat :: AvailAt(t, k, x) ==>
           Pow2(LeafAt(t, k, x).logsize) < size || LeafAt(t, k, o).logsize <= LeafAt(t, k, x).logsize
           || LeafAt(t, k, x).logsize + i <= k
  }

  /** A list without a fitting available block does not change the choice. */
  lemma KeepBest(t: Tree, k: nat, size: nat, i: nat, best: Option<nat>)
    requires SmallestSoFar(t, k, size, i, best)
    requires forall x: nat :: AvailAt(t, k, x) && LeafAt(t, k, x).logsize + i == k ==>
      Pow2(LeafAt(t, k, x).logsize) < size
    ensures SmallestSoFar(t, k, size, i + 1, best)
  {
  }

  /** A fitting available block in a later list is smaller than all before it. */
  lemma TakeBest(t: Tree, k: nat, size: nat, i: nat, o: nat)
    requires AvailAt(t, k, o) && LeafAt(t, k, o).logsize + i == k && Pow2(LeafAt(t, k, o).logsize) >= size
    ensures SmallestSoFar(t, k, size, i + 1, Some(o))
  {
  }

  class MPool {
    const maxlogsize: nat
    const minlogsize: nat
    const nblocks: nat
    const hsize: nat              // sizeof(blknode_t)
    var nsplits: nat
    var nmerges: nat
    const mem: array<Header>         // the header that starts at each byte offset of the pool
    const blktable: array<seq<nat>>  // list i: offsets of the blocks of 2^(maxlogsize - i) bytes
    ghost var tree: Tree

    /** Headers and lists spell out the tree, and the statistics count its splits. */
    ghost predicate Shape()
      reads this, mem, blktable
    {
      && blktable.Length == nblocks
      && Represents(mem[..], blktable[..], tree, maxlogsize, minlogsize, hsize, nsplits - nmerges)
    }

    /** The state between calls. */
    ghost predicate Valid()
      reads this, mem, blktable
    {
      Shape() && Canonical(tree)
    }

    constructor (maxlogsize: nat, minlogsize: nat, hsize: nat)
      requires 0 < hsize < Pow2(minlogsize) && minlogsize <= maxlogsize
      ensures Valid() && fresh(mem) && fresh(blktable)
      ensures this.maxlogsize == maxlogsize && this.minlogsize == minlogsize && this.hsize == hsize
      ensures tree == FREE && nsplits == 0 && nmerges == 0
    {
      this.maxlogsize, this.minlogsize, this.hsize := maxlogsize, minlogsize, hsize;
      nblocks := maxlogsize - minlogsize + 1;
      nsplits, nmerges := 0, 0;
      mem := new Header[Pow2(maxlogsize)];
      blktable := new seq<nat>[maxlogsize - minlogsize + 1];
      tree := FREE;
      new;
      for i := 0 to nblocks
        invariant forall l :: 0 <= l < i ==> blktable[l] == []
        modifies blktable
      {
        blktable[i] := [];
      }
      mem[0] := BlockInit(mem[0].flags, hsize, true, false, true, maxlogsize);
      blktable[0] := [0] + blktable[0];
    }

    /** `mpool_init`, with its checks in order; `memory` says whether all three allocations succeed. */
    static method Init(maxlogsize: nat, minlogsize: nat, hsize: nat, memory: bool)
      returns (ret: Mpret, pool: MPool?)
      requires hsize > 0
      ensures ret == if maxlogsize > SIZE_BITS then MPOOL_ERANGE
                     else if maxlogsize < minlogsize || Pow2(minlogsize) <= hsize then MPOOL_EBADVAL
                     else if !memory then MPOOL_ENOMEM
                     else MPOOL_OK
      ensures ret.MPOOL_OK? <==> pool != null
      ensures pool != null ==>
        pool.Valid() && fresh(pool) && fresh(pool.mem) && fresh(pool.blktable)
        && pool.maxlogsize == maxlogsize && pool.minlogsize == minlogsize && pool.hsize == hsize
        && pool.tree == FREE && pool.nsplits == 0 && pool.nmerges == 0
    {
      pool := null;
      if maxlogsize > SIZE_BITS {
        return MPOOL_ERANGE, null;
      }
      if maxlogsize < minlogsize || Pow2(minlogsize) <= hsize {
        return MPOOL_EBADVAL, null;
      }
      if !memory {
        return MPOOL_ENOMEM, null;
      }
      pool := new MPool(maxlogsize, minlogsize, hsize);
      ret := MPOOL_OK;
    }

    /** What the header of a listed block says. */
    lemma HeaderAt(o: nat)
      requires Shape() && LeafAt(tree, maxlogsize, o).Block?
      ensures o < mem.Length && minlogsize <= mem[o].logsize <= maxlogsize
      ensures Describes(mem[o], LeafAt(tree, maxlogsize, o), PositionOf(maxlogsize, ROOT, o, mem[o].logsize), o + hsize)
      ensures HasRegion(tree, maxlogsize, o, mem[o].logsize) && IsRegion(maxlogsize, o, mem[o].logsize)
      ensures minlogsize >= 1 && o + Pow2(mem[o].logsize) <= mem.Length
      ensures Sub(tree, maxlogsize, o, mem[o].logsize).Leaf?
    {
      LeafRange(tree, maxlogsize, o);
      LeafFits(tree, maxlogsize, minlogsize, o);
      assert Describes(mem[..][o], LeafAt(tree, maxlogsize, o),
                       PositionOf(maxlogsize, ROOT, o, LeafAt(tree, maxlogsize, o).logsize), o + hsize);
      assert minlogsize != 0;
    }

    // ----- allocation

    /** The block the search has settled on after looking at the first `i` lists. */
    ghost predicate Found(size: nat, i: nat, best: Option<nat>)
      requires Shape()
      reads this, mem, blktable
    {
      && SmallestSoFar(tree, maxlogsize, size, i, best)
      && match best
         case None => true
         case Some(o) => var j := LeafAt(tree, maxlogsize, o).logsize;
                         minlogsize <= j <= maxlogsize && FirstAvail(blktable[maxlogsize - j], tree, maxlogsize, o)
    }

    /** The same of all listed blocks, as far as the search looks at them. */
    lemma HeadersAt()
      requires Shape()
      ensures forall o: nat :: LeafAt(tree, maxlogsize, o).Block? ==>
        o < mem.Length && LeafAt(tree, maxlogsize, o) == Block(FlagAvail(mem[o].flags), mem[o].logsize)
        && minlogsize <= LeafAt(tree, maxlogsize, o).logsize <= maxlogsize
    {
      forall o: nat | LeafAt(tree, maxlogsize, o).Block?
        ensures o < mem.Length && LeafAt(tree, maxlogsize, o) == Block(FlagAvail(mem[o].flags), mem[o].logsize)
                && minlogsize <= LeafAt(tree, maxlogsize, o).logsize <= maxlogsize
      {
        HeaderAt(o);
      }
    }

    /** The scan of one list for its first available block. */
    method FirstOf(i: nat) returns (r: Option<nat>)
      requires Shape() && i < nblocks
      ensures match r
              case None => forall o: nat :: AvailAt(tree, maxlogsize, o) ==>
                LeafAt(tree, maxlogsize, o).logsize != maxlogsize - i
              case Some(o) => FirstAvail(blktable[i], tree, maxlogsize, o)
                              && IsAvail(tree, maxlogsize, o, maxlogsize - i)
    {
      HeadersAt();
      var phead := blktable[i];
      assert phead == blktable[..][i];
      for l := 0 to |phead|
        invariant forall l' :: 0 <= l' < l ==> !AvailAt(tree, maxlogsize, phead[l'])
      {
        var pnode := phead[l];
        assert pnode in phead;
        assert HasBlock(tree, maxlogsize, pnode, maxlogsize - i);
        if FlagAvail(mem[pnode].flags) {
          return Some(pnode);
        }
      }
      forall o: nat | AvailAt(tree, maxlogsize, o)
        ensures LeafAt(tree, maxlogsize, o).logsize != maxlogsize - i
      {
        assert o in phead <==> HasBlock(tree, maxlogsize, o, maxlogsize - i);
      }
      r := None;
    }

    /** What list `i` says about sizes. */
    lemma ListLevel(i: nat)
      requires Shape() && i < nblocks
      ensures forall o :: o in blktable[i] ==> o < mem.Length && mem[o].logsize == maxlogsize - i
      ensures forall o: nat :: AvailAt(tree, maxlogsize, o) ==>
        (o in blktable[i] <==> LeafAt(tree, maxlogsize, o).logsize == maxlogsize - i)
    {
      assert blktable[i] == blktable[..][i];
      forall o | o in blktable[i]
        ensures o < mem.Length && mem[o].logsize == maxlogsize - i
      {
        assert HasBlock(tree, maxlogsize, o, maxlogsize - i);
        HeaderAt(o);
      }
      forall o: nat | AvailAt(tree, maxlogsize, o)
        ensures o in blktable[i] <==> LeafAt(tree, maxlogsize, o).logsize == maxlogsize - i
      {
        assert o in blktable[..][i] <==> HasBlock(tree, maxlogsize, o, maxlogsize - i);
      }
    }

    lemma AvailLevels()
      requires Shape()
      ensures forall o: nat :: AvailAt(tree, maxlogsize, o) ==> LeafAt(tree, maxlogsize, o).logsize <= maxlogsize
    {
      HeadersAt();
    }

    /** The search loop: the last list that has a fitting available block wins. */
    method Search(size: nat) returns (best: Option<nat>)
      requires Shape()
      ensures Found(size, nblocks, best)
    {
      best := None;
      AvailLevels();
      for i := 0 to nblocks
        invariant Found(size, i, best)
      {
        best := SearchTurn(size, i, best);
      }
    }

    method SearchTurn(size: nat, i: nat, best: Option<nat>) returns (best': Option<nat>)
      requires Shape() && i < nblocks && Found(size, i, best)
      ensures Found(size, i + 1, best')
    {
      var r := SearchList(i, size);
      if r.Some? {
        TakeBest(tree, maxlogsize, size, i, r.value);
        best' := r;
      } else {
        KeepBest(tree, maxlogsize, size, i, best);
        best' := best;
      }
    }

    /** A list is scanned only if its blocks are large enough. */
    method SearchList(i: nat, size: nat) returns (r: Option<nat>)
      requires Shape() && i < nblocks
      ensures match r
              case None => forall x: nat ::
                AvailAt(tree, maxlogsize, x) && LeafAt(tree, maxlogsize, x).logsize + i == maxlogsize ==>
                Pow2(LeafAt(tree, maxlogsize, x).logsize) < size
              case Some(o) => FirstAvail(blktable[i], tree, maxlogsize, o)
                              && IsAvail(tree, maxlogsize, o, maxlogsize - i) && Pow2(maxlogsize - i) >= size
    {
      var phead := blktable[i];
      ListLevel(i);
      r := None;
      if phead != [] {
        assert phead[0] in phead;
        if Pow2(mem[phead[0]].logsize) >= size {
          r := FirstOf(i);
        }
      }
    }

    /** The header of `p` becomes that of its left half, and the right half gets a header. */
    method HalveHeader(p: nat) returns (pnew: nat)
      requires p < mem.Length && mem[p].logsize > 0 && p + Pow2(mem[p].logsize - 1) < mem.Length
      modifies mem
      ensures var h := old(mem[p]);
              var j, pos := h.logsize, Position(FlagRight(h.flags), FlagParent(h.flags));
              && pnew == p + Pow2(j - 1)
              && Describes(mem[p], Block(FlagAvail(h.flags), j - 1), LeftChild(pos), h.ptr)
              && Describes(mem[pnew], Block(true, j - 1), RightChild(pos), pnew + hsize)
      ensures mem[..] == old(mem[..])[p := mem[p]][pnew := mem[pnew]]
    {
      mem[p] := mem[p].(logsize := mem[p].logsize - 1);

      // The block's own LR bit becomes the PARENT bit of its left half
      var flag := mem[p].flags;
      mem[p] := mem[p].(flags := MarkParent(mem[p].flags, FlagRight(mem[p].flags)));
      mem[p] := mem[p].(flags := MarkRight(mem[p].flags, false));

      // The right half inherits the PARENT bit
      pnew := p + Pow2(mem[p].logsize);
      mem[pnew] := BlockInit(mem[pnew].flags, pnew + hsize, true, true, FlagParent(flag), mem[p].logsize);
    }

    /** Off the old list, and both halves onto the head of the next. */
    method RelistHalves(p: nat, pnew: nat, j: nat)
      requires 0 < j <= maxlogsize && maxlogsize - j + 1 < blktable.Length && pnew == p + Half(j)
      modifies blktable
      ensures blktable[..] == SplitLists(old(blktable[..]), maxlogsize, p, j)
    {
      blktable[maxlogsize - j] := Without(blktable[maxlogsize - j], p);
      var newpos := maxlogsize - (j - 1);
      blktable[newpos] := [p] + blktable[newpos];
      blktable[newpos] := [pnew] + blktable[newpos];
      assert blktable[newpos] == [pnew, p] + old(blktable[newpos]);
    }

    /** One turn of the split loop: halve the available block at `p`. */
    method Split(p: nat)
      requires Shape() && AvailAt(tree, maxlogsize, p) && minlogsize < LeafAt(tree, maxlogsize, p).logsize
      modifies this, mem, blktable
      ensures Shape() && nsplits == old(nsplits) + 1 && nmerges == old(nmerges)
      ensures var j := old(LeafAt(tree, maxlogsize, p).logsize);
              && HasRegion(old(tree), maxlogsize, p, j) && tree == Graft(old(tree), maxlogsize, p, j, PAIR)
              && IsAvail(tree, maxlogsize, p, j - 1)
              && blktable[..] == SplitLists(old(blktable[..]), maxlogsize, p, j)
              && blktable[maxlogsize - j + 1] == [p + Pow2(j - 1), p] + old(blktable[..])[maxlogsize - j + 1]
    {
      HeaderAt(p);
      var j := mem[p].logsize;
      nsplits := nsplits + 1;
      var pnew := HalveHeader(p);
      RelistHalves(p, pnew, j);
      SplitKeeps(old(mem[..]), old(blktable[..]), tree, maxlogsize, minlogsize, hsize, old(nsplits - nmerges),
                 p, j, mem[p], mem[pnew]);
      tree := Graft(tree, maxlogsize, p, j, PAIR);
    }

    /** Block `p` is available with `2^i` bytes, and carving `2^n` out of it leads to tree `t`. */
    ghost predicate Carving(p: nat, j: nat, i: nat, n: nat, ls: seq<seq<nat>>, t: Tree)
      reads this, mem, blktable
    {
      && Shape() && minlogsize <= n <= i <= j <= maxlogsize && maxlogsize - n < |ls|
      && IsAvail(tree, maxlogsize, p, i) && HasRegion(tree, maxlogsize, p, i)
      && AllocTree(tree, maxlogsize, p, i, n) == t
      && blktable[..] == AllocLists(ls, maxlogsize, p, j, i)
    }

    /** One turn of the split loop. */
    method SplitTurn(p: nat, ghost j: nat, ghost i: nat, ghost n: nat, ghost ls: seq<seq<nat>>, ghost t: Tree)
      requires Carving(p, j, i, n, ls, t) && n < i
      modifies this, mem, blktable
      ensures Carving(p, j, i - 1, n, ls, t) && nsplits == old(nsplits) + 1 && nmerges == old(nmerges)
    {
      CarveSplit(tree, maxlogsize, p, i, n);
      Split(p);
    }

    /** The split loop: halves the block at `p` until the next half would be too small. */
    method SplitDown(p: nat, size: nat)
      requires Shape() && AvailAt(tree, maxlogsize, p)
      requires Target(minlogsize, size) <= LeafAt(tree, maxlogsize, p).logsize
      modifies this, mem, blktable
      ensures var n, j := Target(minlogsize, size), LeafAt(old(tree), maxlogsize, p).logsize;
              && HasRegion(old(tree), maxlogsize, p, j) && n <= j
              && Carving(p, j, n, n, old(blktable[..]), AllocTree(old(tree), maxlogsize, p, j, n))
              && nsplits == old(nsplits) + (j - n) && nmerges == old(nmerges)
    {
      ghost var n, j := Target(minlogsize, size), LeafAt(tree, maxlogsize, p).logsize;
      TargetThreshold(minlogsize, size);
      TargetFits(minlogsize, size);
      HeaderAt(p);
      ghost var t, ls, i := AllocTree(tree, maxlogsize, p, j, n), blktable[..], j;
      while !(size == Pow2(mem[p].logsize)
              || size > Pow2(mem[p].logsize - 1)
              || minlogsize > mem[p].logsize - 1)
        invariant Carving(p, j, i, n, ls, t) && p < mem.Length && mem[p].logsize == i >= 1
        invariant nsplits == old(nsplits) + (j - i) && nmerges == old(nmerges)
        decreases i
      {
        SplitTurn(p, j, i, n, ls, t);
        i := i - 1;
        HeaderAt(p);
      }
      TargetIsLeast(minlogsize, size, i);
    }

    /** Sets the availability of the block at `p`. */
    method Mark(p: nat, avail: bool)
      requires Shape() && LeafAt(tree, maxlogsize, p).Block?
      modifies this`tree, mem
      ensures Shape()
      ensures var j := LeafAt(old(tree), maxlogsize, p).logsize;
              HasRegion(old(tree), maxlogsize, p, j) && tree == Graft(old(tree), maxlogsize, p, j, Leaf(avail))
    {
      ghost var j := LeafAt(tree, maxlogsize, p).logsize;
      MarkKeeps(mem[..], blktable[..], tree, maxlogsize, minlogsize, hsize, nsplits - nmerges, p, j, avail);
      mem[p] := mem[p].(flags := MarkAvail(mem[p].flags, avail));
      assert mem[..] == old(mem[..])[p := mem[p]];
      tree := Graft(tree, maxlogsize, p, j, Leaf(avail));
    }

    /** What happens to the block the search found: split, mark, return its pointer. */
    method HandOut(p: nat, size: nat) returns (ptr: nat)
      requires Shape() && AvailAt(tree, maxlogsize, p)
      requires var j := LeafAt(tree, maxlogsize, p).logsize;
               && Smallest(tree, maxlogsize, Target(minlogsize, size), p, j) && minlogsize <= j <= maxlogsize
               && FirstAvail(blktable[maxlogsize - j], tree, maxlogsize, p)
      modifies this, mem, blktable
      ensures Shape() && nmerges == old(nmerges) && ptr == p + hsize
      ensures var n := Target(minlogsize, size);
              && Granted(old(tree), old(blktable[..]), maxlogsize, n, p, tree, blktable[..])
              && nsplits == old(nsplits) + (LeafAt(old(tree), maxlogsize, p).logsize - n)
    {
      HeaderAt(p);
      ghost var t, n, j := tree, Target(minlogsize, size), LeafAt(tree, maxlogsize, p).logsize;
      assert blktable[maxlogsize - j] == blktable[..][maxlogsize - j];
      SplitDown(p, size);
      Mark(p, false);
      AllocUsed(t, maxlogsize, p, j, n, p, n);
      HeaderAt(p);
      ptr := mem[p].ptr;
    }

    /**
     `mpool_alloc`.  It fails exactly when every aligned range of the wanted size meets a
     used block; otherwise it cuts a block of exactly that size from a smallest available
     block that is large enough, the first such in its list.
     */
    method Alloc(blksize: nat) returns (r: Option<nat>)
      requires Valid()
      modifies this, mem, blktable
      ensures Valid() && nmerges == old(nmerges)
      ensures r.None? <==> !FitsSomewhere(old(tree), maxlogsize, Target(minlogsize, blksize + hsize))
      ensures r.None? ==> tree == old(tree) && nsplits == old(nsplits)
                          && mem[..] == old(mem[..]) && blktable[..] == old(blktable[..])
      ensures r.Some? ==>
        && r.value >= hsize
        && var o, n := r.value - hsize, Target(minlogsize, blksize + hsize);
           && Granted(old(tree), old(blktable[..]), maxlogsize, n, o, tree, blktable[..])
           && IsUsed(tree, maxlogsize, o, n)
           && nsplits == old(nsplits) + (LeafAt(old(tree), maxlogsize, o).logsize - n)
      // which block it is: none that fits is smaller, and none available of its size is listed ahead of it
      ensures r.Some? ==>
        var o, n := r.value - hsize, Target(minlogsize, blksize + hsize);
        var j := LeafAt(old(tree), maxlogsize, o).logsize;
        && minlogsize <= n <= j <= maxlogsize
        && (forall x: nat, i: nat :: n <= i && IsAvail(old(tree), maxlogsize, x, i) ==> j <= i)
        && (forall x :: Before(old(blktable[..])[maxlogsize - j], x, o) ==> !AvailAt(old(tree), maxlogsize, x))
      // the order of every list afterwards
      ensures AllNewFirst(old(blktable[..]), blktable[..])
      ensures r.Some? ==>
        var o, n := r.value - hsize, Target(minlogsize, blksize + hsize);
        LeafAt(old(tree), maxlogsize, o).logsize > n ==> Before(blktable[..][maxlogsize - n], o + Pow2(n), o)
    {
      ListsNoDup();
      r := Grant(blksize + hsize);
      ListsNoDup();
      if r.None? {
        MovedOrder(blktable[..], blktable[..]);
      } else {
        ghost var o, n := r.value - hsize, Target(minlogsize, blksize + hsize);
        GrantedFirst(old(tree), old(blktable[..]), maxlogsize, n, o, tree, blktable[..]);
        GrantedOrder(old(tree), old(blktable[..]), maxlogsize, n, o, tree, blktable[..]);
      }
    }

    lemma ListsNoDup()
      requires Shape()
      ensures AllNoDup(blktable[..])
    {
    }

    /** Search, and hand out what was found. */
    method Grant(size: nat) returns (r: Option<nat>)
      requires Valid()
      modifies this, mem, blktable
      ensures Valid() && nmerges == old(nmerges)
      ensures r.None? <==> !FitsSomewhere(old(tree), maxlogsize, Target(minlogsize, size))
      ensures r.None? ==> tree == old(tree) && nsplits == old(nsplits)
                          && mem[..] == old(mem[..]) && blktable[..] == old(blktable[..])
      ensures r.Some? ==>
        && r.value >= hsize
        && var o, n := r.value - hsize, Target(minlogsize, size);
           && Granted(old(tree), old(blktable[..]), maxlogsize, n, o, tree, blktable[..])
           && IsUsed(tree, maxlogsize, o, n)
           && nsplits == old(nsplits) + (LeafAt(old(tree), maxlogsize, o).logsize - n)
    {
      var pavail := Search(size);
      SearchMeaning(size, pavail);
      if pavail.None? {
        return None;
      }
      var p := pavail.value;
      var ptr := HandOut(p, size);
      GrantedMeaning(old(tree), old(blktable[..]), maxlogsize, Target(minlogsize, size), p, tree, blktable[..]);
      r := Some(ptr);
    }

    // ----- freeing

    /** The merged block's header, rebuilt from the two buddies. */
    method MergeHeader(pnode: nat, pbuddy: nat) returns (pmerged: nat)
      requires pnode < mem.Length && pbuddy < mem.Length && pnode != pbuddy
      requires FlagRight(mem[pnode].flags) != FlagRight(mem[pbuddy].flags)
      modifies mem
      ensures pmerged == if FlagRight(old(mem[pnode].flags)) then pbuddy else pnode
      ensures var l, r := old(mem[if FlagRight(mem[pnode].flags) then pbuddy else pnode]),
                          old(mem[if FlagRight(mem[pnode].flags) then pnode else pbuddy]);
              Describes(mem[pmerged], Block(true, old(mem[pnode].logsize) + 1),
                        Position(FlagParent(l.flags), FlagParent(r.flags)), l.ptr)
      ensures mem[..] == old(mem[..])[pmerged := mem[pmerged]]
    {
      if !FlagRight(mem[pnode].flags) {
        pmerged := pnode;
        mem[pmerged] := mem[pmerged].(flags := MarkRight(mem[pmerged].flags, FlagParent(mem[pnode].flags)));
        mem[pmerged] := mem[pmerged].(flags := MarkParent(mem[pmerged].flags, FlagParent(mem[pbuddy].flags)));
      } else if !FlagRight(mem[pbuddy].flags) {
        pmerged := pbuddy;
        mem[pmerged] := mem[pmerged].(flags := MarkRight(mem[pmerged].flags, FlagParent(mem[pbuddy].flags)));
        mem[pmerged] := mem[pmerged].(flags := MarkParent(mem[pmerged].flags, FlagParent(mem[pnode].flags)));
      } else {
        // "wrong LR relation": buddies always differ in their LR bit
        assert false;
      }
      mem[pmerged] := mem[pmerged].(logsize := mem[pnode].logsize + 1);
      mem[pmerged] := mem[pmerged].(flags := MarkAvail(mem[pmerged].flags, true));
    }

    /** `MergeHeader` on a block and its buddy: the result is the parent's header. */
    method MergeHeaders(pnode: nat, pbuddy: nat) returns (pmerged: nat)
      requires Shape() && LeafAt(tree, maxlogsize, pnode).Block?
      requires var j := LeafAt(tree, maxlogsize, pnode).logsize;
               && j < maxlogsize && IsAvail(tree, maxlogsize, pbuddy, j)
               && pbuddy == BuddyOf(pnode, j, PositionOf(maxlogsize, ROOT, pnode, j).right)
      modifies mem
      ensures var j := old(LeafAt(tree, maxlogsize, pnode).logsize);
              && pmerged == ParentOf(pnode, j, PositionOf(maxlogsize, ROOT, pnode, j).right) && pmerged < mem.Length
              && Describes(mem[pmerged], Block(true, j + 1),
                            PositionOf(maxlogsize, ROOT, pmerged, j + 1), pmerged + hsize)
      ensures mem[..] == old(mem[..])[pmerged := mem[pmerged]]
    {
      HeaderAt(pnode);
      HeaderAt(pbuddy);
      MergeFacts(tree, maxlogsize, minlogsize, pnode, mem[pnode].logsize);
      pmerged := MergeHeader(pnode, pbuddy);
    }

    /** Both buddies off their list, and the merged block onto the head of the list before. */
    method RelistMerged(pnode: nat, pbuddy: nat, pmerged: nat)
      requires pmerged < mem.Length && 1 <= mem[pmerged].logsize <= maxlogsize
      requires maxlogsize - mem[pmerged].logsize + 1 < blktable.Length
      modifies blktable
      ensures blktable[..]
        == MergeLists(old(blktable[..]), maxlogsize, pnode, pbuddy, pmerged, mem[pmerged].logsize - 1)
    {
      var j := mem[pmerged].logsize - 1;
      blktable[maxlogsize - j] := Without(blktable[maxlogsize - j], pnode);
      blktable[maxlogsize - j] := Without(blktable[maxlogsize - j], pbuddy);
      blktable[maxlogsize - j - 1] := [pmerged] + blktable[maxlogsize - j - 1];
    }

    /** One turn of the coalescing loop: the block at `pnode` and its available buddy become one. */
    method Merge(pnode: nat, pbuddy: nat) returns (pmerged: nat)
      requires Shape() && LeafAt(tree, maxlogsize, pnode).Block?
      requires var j := LeafAt(tree, maxlogsize, pnode).logsize;
               && j < maxlogsize && IsAvail(tree, maxlogsize, pbuddy, j)
               && pbuddy == BuddyOf(pnode, j, PositionOf(maxlogsize, ROOT, pnode, j).right)
      modifies this, mem, blktable
      ensures Shape() && nsplits == old(nsplits) && nmerges == old(nmerges) + 1
      ensures pmerged < mem.Length && mem[pmerged].logsize == LeafAt(old(tree), maxlogsize, pnode).logsize + 1
      ensures var j := LeafAt(old(tree), maxlogsize, pnode).logsize;
              && pmerged == ParentOf(pnode, j, PositionOf(maxlogsize, ROOT, pnode, j).right)
              && HasRegion(old(tree), maxlogsize, pmerged, j + 1)
              && tree == Graft(old(tree), maxlogsize, pmerged, j + 1, FREE)
              && IsAvail(tree, maxlogsize, pmerged, j + 1)
              && FreeTree(tree, maxlogsize, pmerged) == FreeTree(old(tree), maxlogsize, pnode)
              && minlogsize <= j < maxlogsize
              && blktable[..] == MergeLists(old(blktable[..]), maxlogsize, pnode, pbuddy, pmerged, j)
              && blktable[maxlogsize - j - 1] == [pmerged] + old(blktable[..])[maxlogsize - j - 1]
    {
      ghost var j := LeafAt(tree, maxlogsize, pnode).logsize;
      pmerged := MergeHeaders(pnode, pbuddy);
      MergeKeeps(old(mem[..]), old(blktable[..]), tree, maxlogsize, minlogsize, hsize, old(nsplits - nmerges),
                 pnode, j, mem[pmerged]);
      RelistMerged(pnode, pbuddy, pmerged);
      nmerges := nmerges + 1;
      tree := Graft(tree, maxlogsize, pmerged, j + 1, FREE);
    }

    /** `Merge`, as turn `d` of the loop that started at block `(p, j)` with lists `ls`. */
    method MergeTurn(ghost p: nat, ghost j: nat, ghost d: nat, ghost ls: seq<seq<nat>>, pnode: nat, pbuddy: nat)
      returns (pmerged: nat)
      requires Shape() && HasBlock(tree, maxlogsize, pnode, j + d) && j + d < maxlogsize
      requires IsAvail(tree, maxlogsize, pbuddy, j + d)
      requires pbuddy == BuddyOf(pnode, j + d, PositionOf(maxlogsize, ROOT, pnode, j + d).right)
      requires pnode == Ancestor(maxlogsize, p, j, d) && blktable[..] == FreeLists(ls, maxlogsize, p, j, d)
      requires maxlogsize - j < |ls|
      modifies this, mem, blktable
      ensures Shape() && nsplits == old(nsplits) && nmerges == old(nmerges) + 1
      ensures pmerged < mem.Length && mem[pmerged].logsize == j + d + 1
      ensures IsAvail(tree, maxlogsize, pmerged, j + d + 1)
      ensures FreeTree(tree, maxlogsize, pmerged) == FreeTree(old(tree), maxlogsize, pnode)
      ensures pmerged == Ancestor(maxlogsize, p, j, d + 1) && blktable[..] == FreeLists(ls, maxlogsize, p, j, d + 1)
    {
      BuddyRegionOf(pnode);
      FreeListsNext(ls, maxlogsize, p, j, d, pnode, blktable[..]);
      pmerged := Merge(pnode, pbuddy);
    }

    lemma BuddyRegionOf(o: nat)
      requires Shape() && LeafAt(tree, maxlogsize, o).Block? && LeafAt(tree, maxlogsize, o).logsize < maxlogsize
      ensures var j := LeafAt(tree, maxlogsize, o).logsize;
              ParentOf(o, j, PositionOf(maxlogsize, ROOT, o, j).right) >= 0
    {
      LeafRange(tree, maxlogsize, o);
      BuddyRegion(tree, maxlogsize, ROOT, o, LeafAt(tree, maxlogsize, o).logsize);
    }

    /** The buddy's address, by pointer arithmetic and without a lookup. */
    method FindBuddy(pnode: nat) returns (pbuddy: nat)
      requires Shape() && LeafAt(tree, maxlogsize, pnode).Block? && LeafAt(tree, maxlogsize, pnode).logsize < maxlogsize
      ensures var j := LeafAt(tree, maxlogsize, pnode).logsize;
              && pbuddy == BuddyOf(pnode, j, PositionOf(maxlogsize, ROOT, pnode, j).right)
              && pbuddy < mem.Length && mem[pbuddy].logsize <= j
              && LeafAt(tree, maxlogsize, pbuddy) == Block(FlagAvail(mem[pbuddy].flags), mem[pbuddy].logsize)
    {
      HeaderAt(pnode);
      BuddyAddressSound(tree, maxlogsize, minlogsize, pnode, mem[pnode].logsize);
      var address: int;
      if FlagRight(mem[pnode].flags) {
        address := pnode - Pow2(mem[pnode].logsize);
        if address < 0 {
          assert false;  // "buddy out of pool"
        }
      } else {
        address := pnode + Pow2(mem[pnode].logsize);
        if address > Pow2(maxlogsize) - 1 {
          assert false;  // "buddy out of pool"
        }
      }
      pbuddy := address;
      HeaderAt(pbuddy);
    }

    /** The last turn: the block has no available buddy of its size, or is the whole pool. */
    method MarkFreed(pnode: nat)
      requires Shape() && LeafAt(tree, maxlogsize, pnode).Block?
      requires var j := LeafAt(tree, maxlogsize, pnode).logsize;
               var buddy := BuddyOf(pnode, j, PositionOf(maxlogsize, ROOT, pnode, j).right);
               j < maxlogsize ==> buddy >= 0 && !IsAvail(tree, maxlogsize, buddy, j)
      modifies this`tree, mem
      ensures Shape() && tree == FreeTree(old(tree), maxlogsize, pnode)
    {
      ghost var j := LeafAt(tree, maxlogsize, pnode).logsize;
      LeafRange(tree, maxlogsize, pnode);
      if j < maxlogsize {
        StopFacts(tree, maxlogsize, minlogsize, pnode, j);
      }
      Mark(pnode, true);
    }

    /** After `d` merges from block `(p, j)` and lists `ls` on, freeing `pnode` leads to tree `t`. */
    ghost predicate Freeing(p: nat, j: nat, d: nat, ls: seq<seq<nat>>, t: Tree, pnode: nat)
      reads this, mem, blktable
    {
      && Shape() && j + d <= maxlogsize && maxlogsize - j < |ls| && HasBlock(tree, maxlogsize, pnode, j + d)
      && FreeTree(tree, maxlogsize, pnode) == t
      && pnode == Ancestor(maxlogsize, p, j, d) && blktable[..] == FreeLists(ls, maxlogsize, p, j, d)
    }

    /** One turn from `CHUNK_FOUND` on: stop at the top or at a buddy that is not available, or merge. */
    method Turn(ghost p: nat, ghost j: nat, ghost d: nat, ghost ls: seq<seq<nat>>, ghost t: Tree, pnode: nat)
      returns (more: bool, next: nat)
      requires Freeing(p, j, d, ls, t, pnode)
      modifies this, mem, blktable
      ensures nsplits == old(nsplits) && nmerges == old(nmerges) + if more then 1 else 0
      ensures more ==> Freeing(p, j, d + 1, ls, t, next)
      ensures !more ==> Shape() && tree == t && blktable[..] == FreeLists(ls, maxlogsize, p, j, d)
    {
      more, next := false, pnode;
      HeaderAt(pnode);
      if mem[pnode].logsize == maxlogsize {
        if !FlagAvail(mem[pnode].flags) {
          MarkFreed(pnode);
        } else {
          TopIsFree(pnode);
        }
        return;
      }
      var pbuddy := FindBuddy(pnode);
      if mem[pbuddy].logsize != mem[pnode].logsize || !FlagAvail(mem[pbuddy].flags) {
        MarkFreed(pnode);
        return;
      }
      next := MergeTurn(p, j, d, ls, pnode, pbuddy);
      more := true;
    }

    /**
     The body of `mpool_free` from `CHUNK_FOUND` on, for any listed block.  It ends in the
     tree in which the block is available and buddies are joined as far up as possible.
     */
    method Coalesce(p: nat)
      requires Valid() && LeafAt(tree, maxlogsize, p).Block?
      modifies this, mem, blktable
      ensures Valid() && tree == FreeTree(old(tree), maxlogsize, p)
      ensures nsplits == old(nsplits) && nmerges == old(nmerges) + LeafCount(old(tree)) - LeafCount(tree)
      ensures blktable[..] == FreeLists(old(blktable[..]), maxlogsize, p, LeafAt(old(tree), maxlogsize, p).logsize,
                                        LeafCount(old(tree)) - LeafCount(tree))
      ensures AllNewFirst(old(blktable[..]), blktable[..])
    {
      FreeKeepsCanonical(tree, maxlogsize, minlogsize, p);
      HeaderAt(p);
      ghost var d := CoalesceLoop(p, LeafAt(tree, maxlogsize, p).logsize, blktable[..], FreeTree(tree, maxlogsize, p));
      assert LeafCount(tree) + d == LeafCount(old(tree));
      FreeOrder(old(blktable[..]), maxlogsize, p, LeafAt(old(tree), maxlogsize, p).logsize, d);
    }

    /** The `goto` loop of `mpool_free`, as `d` merges and a last turn. */
    method CoalesceLoop(p: nat, ghost j: nat, ghost ls: seq<seq<nat>>, ghost t: Tree) returns (ghost d: nat)
      requires Freeing(p, j, 0, ls, t, p)
      modifies this, mem, blktable
      ensures Shape() && tree == t && blktable[..] == FreeLists(ls, maxlogsize, p, j, d)
      ensures nsplits == old(nsplits) && nmerges == old(nmerges) + d
    {
      d := 0;
      var pnode, more := p, true;
      while more
        invariant nsplits == old(nsplits) && nmerges == old(nmerges) + d
        invariant more ==> Freeing(p, j, d, ls, t, pnode)
        invariant !more ==> Shape() && tree == t && blktable[..] == FreeLists(ls, maxlogsize, p, j, d)
        decreases more, maxlogsize - j - d
      {
        more, pnode := Turn(p, j, d, ls, t, pnode);
        if more {
          d := d + 1;
        }
      }
    }

    lemma TopIsFree(o: nat)
      requires Shape() && o < mem.Length && LeafAt(tree, maxlogsize, o).Block? && FlagAvail(mem[o].flags)
      requires LeafAt(tree, maxlogsize, o).logsize == maxlogsize
      ensures tree == FreeTree(tree, maxlogsize, o) == FREE
    {
      HeaderAt(o);
      LeafRange(tree, maxlogsize, o);
    }

    /** `mpool_free`: the header lies `hsize` bytes before the client's pointer. */
    method Free(ptr: nat)
      requires Valid() && hsize <= ptr && LeafAt(tree, maxlogsize, ptr - hsize).Block?
      modifies this, mem, blktable
      ensures Valid() && tree == FreeTree(old(tree), maxlogsize, ptr - hsize)
      ensures nsplits == old(nsplits) && nmerges == old(nmerges) + LeafCount(old(tree)) - LeafCount(tree)
      ensures blktable[..] == FreeLists(old(blktable[..]), maxlogsize, ptr - hsize,
                                        LeafAt(old(tree), maxlogsize, ptr - hsize).logsize,
                                        LeafCount(old(tree)) - LeafCount(tree))
      ensures AllNewFirst(old(blktable[..]), blktable[..])
    {
      Coalesce(ptr - hsize);
    }

    /**
     `mpool_free` with `MPOOL_OPT_FOR_SECURITY`: any pointer at all may be passed.  One that
     is no block's pointer is ignored, and so is one whose block is available already.
     */
    method FreeByLookup(ptr: nat)
      requires Valid()
      modifies this, mem, blktable
      ensures Valid() && nsplits == old(nsplits)
      ensures tree == if hsize <= ptr && LeafAt(old(tree), maxlogsize, ptr - hsize).Block?
                      then FreeTree(old(tree), maxlogsize, ptr - hsize) else old(tree)
      ensures blktable[..] == if hsize <= ptr && LeafAt(old(tree), maxlogsize, ptr - hsize).Block?
                              then FreeLists(old(blktable[..]), maxlogsize, ptr - hsize,
                                             LeafAt(old(tree), maxlogsize, ptr - hsize).logsize,
                                             LeafCount(old(tree)) - LeafCount(tree))
                              else old(blktable[..])
      ensures AllNewFirst(old(blktable[..]), blktable[..])
      ensures (ptr < hsize || AvailAt(old(tree), maxlogsize, ptr - hsize)
               || LeafAt(old(tree), maxlogsize, ptr - hsize) == NoBlock)
              ==> tree == old(tree) && nmerges == old(nmerges)
    {
      if hsize <= ptr && AvailAt(tree, maxlogsize, ptr - hsize) {
        FreeAvailable(tree, maxlogsize, ptr - hsize);
      }
      MovedOrder(blktable[..], blktable[..]);
      var found := Lookup(ptr);
      if found.Some? {
        Coalesce(found.value);
      }
    }

    /** The scan of every list for the block that owns `ptr`. */
    method Lookup(ptr: nat) returns (r: Option<nat>)
      requires Shape()
      ensures match r
              case None => ptr < hsize || LeafAt(tree, maxlogsize, ptr - hsize) == NoBlock
              case Some(o) => o + hsize == ptr && LeafAt(tree, maxlogsize, o).Block?
    {
      HeadersAt();
      for i := 0 to nblocks
        invariant hsize <= ptr && LeafAt(tree, maxlogsize, ptr - hsize).Block? ==>
          LeafAt(tree, maxlogsize, ptr - hsize).logsize + i <= maxlogsize
      {
        var phead := blktable[i];
        assert phead == blktable[..][i];
        for l := 0 to |phead|
          invariant hsize <= ptr ==> ptr - hsize !in phead[..l]
        {
          assert phead[l] in phead && HasBlock(tree, maxlogsize, phead[l], maxlogsize - i);
          HeaderAt(phead[l]);
          if mem[phead[l]].ptr == ptr {
            return Some(phead[l]);
          }
        }
        if hsize <= ptr {
          assert ptr - hsize in phead <==> HasBlock(tree, maxlogsize, ptr - hsize, maxlogsize - i);
        }
      }
      r := None;
    }

    /** The search finds a smallest block that is large enough, or there is no room at all. */
    lemma SearchMeaning(size: nat, best: Option<nat>)
      requires Valid() && Found(size, nblocks, best)
      ensures best.None? <==> !FitsSomewhere(tree, maxlogsize, Target(minlogsize, size))
      ensures best.Some? ==>
        && AvailAt(tree, maxlogsize, best.value)
        && var j := LeafAt(tree, maxlogsize, best.value).logsize;
           && Smallest(tree, maxlogsize, Target(minlogsize, size), best.value, j)
           && minlogsize <= j <= maxlogsize
           && FirstAvail(blktable[maxlogsize - j], tree, maxlogsize, best.value)
    {
      var n := Target(minlogsize, size);
      HeadersAt();
      TargetThreshold(minlogsize, size);
      PlacementComplete(tree, maxlogsize, minlogsize, n);
      if best.Some? {
        assert IsAvail(tree, maxlogsize, best.value, LeafAt(tree, maxlogsize, best.value).logsize);
      }
      forall x: nat, i: nat | n <= i && IsAvail(tree, maxlogsize, x, i)
        ensures best.Some? && LeafAt(tree, maxlogsize, best.value).logsize <= i
      {
        assert AvailAt(tree, maxlogsize, x);
      }
    }
  }

  /** Splitting once and then carving the left half is carving the whole block. */
  lemma CarveSplit(t: Tree, k: nat, o: nat, j: nat, n: nat)
    requires HasRegion(t, k, o, j) && n < j
    ensures var g := Graft(t, k, o, j, PAIR);
            HasRegion(g, k, o, j - 1) && AllocTree(g, k, o, j - 1, n) == AllocTree(t, k, o, j, n)
  {
    var g := Graft(t, k, o, j, PAIR);
    GraftGraft(t, k, o, j, PAIR, Carve(j, n));
    RegionHalves(g, k, o, j);
  }

  /** A block whose buddy is not available in one piece is freed where it stands. */
  lemma StopFacts(t: Tree, k: nat, m: nat, o: nat, j: nat)
    requires Fits(t, k, m) && HasBlock(t, k, o, j) && j < k
    requires var buddy := BuddyOf(o, j, PositionOf(k, ROOT, o, j).right); buddy >= 0 && !IsAvail(t, k, buddy, j)
    ensures HasRegion(t, k, o, j) && FreeTree(t, k, o) == Graft(t, k, o, j, FREE)
  {
    var right := PositionOf(k, ROOT, o, j).right;
    LeafRange(t, k, o);
    BuddyRegion(t, k, ROOT, o, j);
    RegionLeaf(t, k, BuddyOf(o, j, right), j);
    StopStep(t, k, ParentOf(o, j, right), j, right);
  }
}
