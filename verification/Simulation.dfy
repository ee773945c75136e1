/** The epoch simulation of `buddy/test4.c`: a client that frees every block at its due epoch. */
module Simulation {
  import opened Powers
  import opened Lists
  import opened BuddyTree
  import opened BuddySpec
  import opened BuddyTheorems
  import opened MemoryPool

  /** `simnode[born]`: the block allocated in epoch `born`, to be freed in epoch `lifetime`. */
  datatype SimNode = SimNode(born: nat, ptr: nat, lifetime: nat)

  /** A free that happened: of which node, in which epoch. */
  datatype Death = Death(node: SimNode, epoch: nat)

  /** One epoch's two calls of `rand`. */
  datatype Choice = Choice(size: nat, life: nat)

  const MAX_LOGSIZE := 5

  ghost predicate Sorted(s: seq<SimNode>) {
    forall a, b :: 0 <= a < b < |s| ==> s[a].lifetime <= s[b].lifetime
  }

  /** A new node goes behind every node that is due no later. */
  ghost function Insert(s: seq<SimNode>, x: SimNode): seq<SimNode> {
    if s == [] || x.lifetime < s[0].lifetime then [x] + s else [s[0]] + Insert(s[1..], x)
  }

  lemma {:induction false} InsertAt(s: seq<SimNode>, x: SimNode, i: nat)
    requires i <= |s| && (i < |s| ==> x.lifetime < s[i].lifetime)
    requires forall a :: 0 <= a < i ==> s[a].lifetime <= x.lifetime
    ensures Insert(s, x) == s[..i] + [x] + s[i..]
  {
    if i == 0 {
      assert s[..0] + [x] + s[0..] == [x] + s;
    } else {
      InsertAt(s[1..], x, i - 1);
      assert s[..i] == [s[0]] + s[1..][..i - 1];
    }
  }

  lemma {:induction false} InsertSorted(s: seq<SimNode>, x: SimNode)
    requires Sorted(s)
    ensures Sorted(Insert(s, x))
    ensures forall y :: y in Insert(s, x) <==> y in s || y == x
  {
    if s != [] && x.lifetime >= s[0].lifetime {
      InsertSorted(s[1..], x);
      var r := Insert(s[1..], x);
      assert s == [s[0]] + s[1..];
      forall a | 0 <= a < |r|
        ensures s[0].lifetime <= r[a].lifetime
      {
        assert r[a] in r;
      }
    }
  }

  ghost predicate HasPtr(nodes: seq<SimNode>, p: int) {
    nodes != [] && (nodes[0].ptr == p || HasPtr(nodes[1..], p))
  }

  ghost predicate DistinctPtrs(nodes: seq<SimNode>) {
    nodes == [] || (!HasPtr(nodes[1..], nodes[0].ptr) && DistinctPtrs(nodes[1..]))
  }

  lemma {:induction false} InsertPtrs(s: seq<SimNode>, x: SimNode, p: int)
    ensures HasPtr(Insert(s, x), p) <==> HasPtr(s, p) || p == x.ptr
  {
    if s != [] && x.lifetime >= s[0].lifetime {
      InsertPtrs(s[1..], x, p);
      assert Insert(s, x)[1..] == Insert(s[1..], x);
    } else {
      assert Insert(s, x)[1..] == s;
    }
  }

  lemma {:induction false} InsertLength(s: seq<SimNode>, x: SimNode)
    ensures |Insert(s, x)| == |s| + 1
  {
    if s != [] && x.lifetime >= s[0].lifetime {
      InsertLength(s[1..], x);
    }
  }

  lemma {:induction false} PtrOfNode(nodes: seq<SimNode>, p: int)
    ensures HasPtr(nodes, p) <==> exists x :: x in nodes && x.ptr == p
  {
    if nodes != [] {
      PtrOfNode(nodes[1..], p);
      assert nodes == [nodes[0]] + nodes[1..];
    }
  }

  lemma {:induction false} InsertDistinct(s: seq<SimNode>, x: SimNode)
    requires DistinctPtrs(s) && !HasPtr(s, x.ptr)
    ensures DistinctPtrs(Insert(s, x))
  {
    if s != [] && x.lifetime >= s[0].lifetime {
      InsertDistinct(s[1..], x);
      InsertPtrs(s[1..], x, s[0].ptr);
      assert Insert(s, x)[1..] == Insert(s[1..], x);
    } else {
      assert Insert(s, x)[1..] == s;
    }
  }

  /** The listed nodes are exactly the used blocks, each once. */
  ghost predicate Owns(nodes: seq<SimNode>, t: Tree, k: nat, hsize: nat) {
    && DistinctPtrs(nodes) && |nodes| == UsedCount(t)
    && (forall p: int :: HasPtr(nodes, p) ==> p >= hsize)
    && (forall o: nat :: UsedAt(t, k, o) <==> HasPtr(nodes, o + hsize))
  }

  ghost predicate UsedAt(t: Tree, k: nat, o: nat) {
    LeafAt(t, k, o).Block? && !LeafAt(t, k, o).avail
  }

  lemma FreeUsedAt(t: Tree, k: nat, o0: nat, o: nat)
    requires LeafAt(t, k, o0).Block?
    ensures UsedAt(FreeTree(t, k, o0), k, o) <==> UsedAt(t, k, o) && o != o0
  {
    var t' := FreeTree(t, k, o0);
    if LeafAt(t, k, o).Block? {
      FreeUsed(t, k, o0, o, LeafAt(t, k, o).logsize);
    }
    if LeafAt(t', k, o).Block? {
      FreeUsed(t, k, o0, o, LeafAt(t', k, o).logsize);
    }
  }

  lemma OwnsAfterFree(nodes: seq<SimNode>, t: Tree, k: nat, hsize: nat)
    requires nodes != [] && Owns(nodes, t, k, hsize)
    ensures nodes[0].ptr >= hsize && UsedAt(t, k, nodes[0].ptr - hsize)
    ensures Owns(nodes[1..], FreeTree(t, k, nodes[0].ptr - hsize), k, hsize)
  {
    assert HasPtr(nodes, nodes[0].ptr);
    var o0 := nodes[0].ptr - hsize;
    assert UsedAt(t, k, o0);
    FreeCount(t, k, o0);
    forall p: int | HasPtr(nodes[1..], p)
      ensures p >= hsize
    {
      assert HasPtr(nodes, p);
    }
    forall o: nat
      ensures UsedAt(FreeTree(t, k, o0), k, o) <==> HasPtr(nodes[1..], o + hsize)
    {
      FreeUsedAt(t, k, o0, o);
    }
  }

  lemma OwnsAfterAlloc(nodes: seq<SimNode>, x: SimNode, t: Tree, k: nat, o: nat, j: nat, n: nat, hsize: nat)
    requires Owns(nodes, t, k, hsize) && x.ptr == o + hsize
    requires IsAvail(t, k, o, j) && n <= j && HasRegion(t, k, o, j)
    ensures Owns(Insert(nodes, x), AllocTree(t, k, o, j, n), k, hsize)
  {
    var nodes' := Insert(nodes, x);
    assert !UsedAt(t, k, o);
    InsertDistinct(nodes, x);
    LeafRange(t, k, o);
    AllocCount(t, k, o, j, n);
    InsertLength(nodes, x);
    forall p: int | HasPtr(nodes', p)
      ensures p >= hsize
    {
      InsertPtrs(nodes, x, p);
    }
    forall y: nat
      ensures UsedAt(AllocTree(t, k, o, j, n), k, y) <==> HasPtr(nodes', y + hsize)
    {
      AllocUsedAt(t, k, o, j, n, y);
      InsertPtrs(nodes, x, y + hsize);
    }
  }

  lemma AllocUsedAt(t: Tree, k: nat, o: nat, j: nat, n: nat, y: nat)
    requires IsAvail(t, k, o, j) && n <= j && HasRegion(t, k, o, j)
    ensures UsedAt(AllocTree(t, k, o, j, n), k, y) <==> UsedAt(t, k, y) || y == o
  {
    var t' := AllocTree(t, k, o, j, n);
    AllocUsed(t, k, o, j, n, y, n);
    if LeafAt(t, k, y).Block? {
      AllocUsed(t, k, o, j, n, y, LeafAt(t, k, y).logsize);
    }
    if LeafAt(t', k, y).Block? {
      AllocUsed(t, k, o, j, n, y, LeafAt(t', k, y).logsize);
    }
  }

  // ----- the simulation

  /** The lifetime drawn in epoch `t`: at most `m`, and near the end at most what is left. */
  function Lifetime(t: nat, e: nat, m: nat, choice: Choice): (lt: nat)
    requires 1 <= m <= e && t < e
    ensures 1 <= lt <= m && t + lt <= e
  {
    if t < e - m then 1 + choice.life % m else 1 + choice.life % (e - t)
  }

  /** The number of bytes drawn: a power of two up to `2^MAX_LOGSIZE`. */
  function RequestSize(choice: Choice): nat {
    Pow2(choice.size % (1 + MAX_LOGSIZE))
  }

  /**
   Up to `m`, or to the end of the simulation if that is nearer, each lifetime is drawn: draws
   run through all of them in order, and over again.
   */
  lemma LifetimesDrawn(t: nat, e: nat, m: nat, size: nat, life: nat)
    requires 1 <= m <= e && t < e
    ensures var bound := if m <= e - t then m else e - t;
            var lt, next := Lifetime(t, e, m, Choice(size, life)), Lifetime(t, e, m, Choice(size, life + 1));
            && 1 <= lt <= bound
            && next == (if lt == bound then 1 else lt + 1)
            && forall s: nat, draw: nat :: draw < bound ==> Lifetime(t, e, m, Choice(s, draw)) == draw + 1
  {
    var bound := if m <= e - t then m else e - t;
    DivMod(life, bound);
    var q, r := life / bound, life % bound;
    if r == bound - 1 {
      MulDistributes(bound, q, 1);
      QuotientUnique(life + 1, bound, q + 1, 0);
    } else {
      QuotientUnique(life + 1, bound, q, r + 1);
    }
    forall s: nat, draw: nat | draw < bound
      ensures Lifetime(t, e, m, Choice(s, draw)) == draw + 1
    {
      QuotientUnique(draw, bound, 0, draw);
    }
  }

  /** The sizes drawn are the powers of two from 1 to 32, one per residue of the draw. */
  lemma SizesDrawn(life: nat)
    ensures RequestSize(Choice(0, life)) == 1 && RequestSize(Choice(1, life)) == 2
    ensures RequestSize(Choice(2, life)) == 4 && RequestSize(Choice(3, life)) == 8
    ensures RequestSize(Choice(4, life)) == 16 && RequestSize(Choice(5, life)) == 32
    ensures forall size: nat :: RequestSize(Choice(size + 6, life)) == RequestSize(Choice(size, life))
  {
    assert Pow2(5) == 32;
    forall size: nat
      ensures RequestSize(Choice(size + 6, life)) == RequestSize(Choice(size, life))
    {
      assert (size + 6) % 6 == size % 6;
    }
  }

  /** The logsize of the block for that request, with its header, in a pool of least logsize `m`. */
  function BlockLogsize(choice: Choice, m: nat, hsize: nat): nat {
    Target(m, RequestSize(choice) + hsize)
  }

  /** Every listed node has a block of just the size that its epoch drew. */
  ghost predicate Sized(nodes: seq<SimNode>, t: Tree, k: nat, m: nat, hsize: nat, choices: seq<Choice>) {
    forall x {:trigger HasSize(x, t, k, m, hsize, choices)} :: x in nodes ==> HasSize(x, t, k, m, hsize, choices)
  }

  ghost predicate HasSize(x: SimNode, t: Tree, k: nat, m: nat, hsize: nat, choices: seq<Choice>) {
    && x.born < |choices| && x.ptr >= hsize
    && IsUsed(t, k, x.ptr - hsize, BlockLogsize(choices[x.born], m, hsize))
  }

  lemma SizedAfterFree(nodes: seq<SimNode>, t: Tree, k: nat, m: nat, hsize: nat, choices: seq<Choice>)
    requires nodes != [] && Owns(nodes, t, k, hsize) && Sized(nodes, t, k, m, hsize, choices)
    ensures nodes[0].ptr >= hsize
    ensures Sized(nodes[1..], FreeTree(t, k, nodes[0].ptr - hsize), k, m, hsize, choices)
  {
    OwnsAfterFree(nodes, t, k, hsize);
    forall x | x in nodes[1..]
      ensures HasSize(x, FreeTree(t, k, nodes[0].ptr - hsize), k, m, hsize, choices)
    {
      PtrOfNode(nodes[1..], x.ptr);
      assert x in nodes && HasSize(x, t, k, m, hsize, choices);
      FreeUsed(t, k, nodes[0].ptr - hsize, x.ptr - hsize, BlockLogsize(choices[x.born], m, hsize));
    }
  }

  lemma SizedAfterAlloc(nodes: seq<SimNode>, x: SimNode, t: Tree, t': Tree, k: nat, m: nat, hsize: nat,
                        choices: seq<Choice>)
    requires Sorted(nodes) && Sized(nodes, t, k, m, hsize, choices) && x.born < |choices| && x.ptr >= hsize
    requires Joins(t, t', k, x.ptr - hsize, BlockLogsize(choices[x.born], m, hsize))
    ensures Sized(Insert(nodes, x), t', k, m, hsize, choices)
  {
    InsertSorted(nodes, x);
    forall y | y in Insert(nodes, x)
      ensures HasSize(y, t', k, m, hsize, choices)
    {
      assert y in nodes ==> HasSize(y, t, k, m, hsize, choices);
    }
  }

  /** The used blocks of `t'` are those of `t` and the one given. */
  ghost predicate Joins(t: Tree, t': Tree, k: nat, o: nat, n: nat) {
    forall y: nat, i: nat :: IsUsed(t', k, y, i) <==> IsUsed(t, k, y, i) || (y == o && i == n)
  }

  /** The largest block that any epoch can ask for. */
  function LargestBlock(m: nat, hsize: nat): nat {
    Target(m, Pow2(MAX_LOGSIZE) + hsize)
  }

  lemma BlockAtMostLargest(choice: Choice, m: nat, hsize: nat)
    ensures BlockLogsize(choice, m, hsize) <= LargestBlock(m, hsize)
  {
    Pow2Monotone(choice.size % (1 + MAX_LOGSIZE), MAX_LOGSIZE);
    TargetThreshold(m, RequestSize(choice) + hsize);
    TargetFits(m, Pow2(MAX_LOGSIZE) + hsize);
  }

  lemma OwnedAtMostLargest(nodes: seq<SimNode>, t: Tree, k: nat, m: nat, hsize: nat, choices: seq<Choice>)
    requires Owns(nodes, t, k, hsize) && Sized(nodes, t, k, m, hsize, choices)
    ensures UsedAtMost(t, k, LargestBlock(m, hsize))
  {
    forall o: nat, i: nat | IsUsed(t, k, o, i)
      ensures i <= LargestBlock(m, hsize)
    {
      assert UsedAt(t, k, o) <==> HasPtr(nodes, o + hsize);
      PtrOfNode(nodes, o + hsize);
      var x :| x in nodes && x.ptr == o + hsize;
      assert HasSize(x, t, k, m, hsize, choices);
      BlockAtMostLargest(choices[x.born], m, hsize);
    }
  }

  /** With `c` the largest block's logsize, a pool of `2^(k-c)` such blocks has room for one more. */
  lemma RoomForChoice(nodes: seq<SimNode>, t: Tree, k: nat, m: nat, hsize: nat, choices: seq<Choice>, choice: Choice)
    requires Fits(t, k, m) && Canonical(t)
    requires Owns(nodes, t, k, hsize) && Sized(nodes, t, k, m, hsize, choices)
    requires var c := LargestBlock(m, hsize); c <= k && |nodes| < Pow2(k - c)
    ensures FitsSomewhere(t, k, BlockLogsize(choice, m, hsize))
  {
    OwnedAtMostLargest(nodes, t, k, m, hsize, choices);
    BlockAtMostLargest(choice, m, hsize);
    var o, j := RoomForOneMore(t, k, m, LargestBlock(m, hsize));
    PlacementComplete(t, k, m, BlockLogsize(choice, m, hsize));
  }

  /** Node `x` was allocated before epoch `t` and is due when its epoch's choice said. */
  ghost predicate Lawful(x: SimNode, t: nat, e: nat, m: nat, choices: seq<Choice>)
    requires 1 <= m <= e == |choices|
  {
    x.born < t <= e && x.lifetime == x.born + Lifetime(x.born, e, m, choices[x.born])
  }

  /** The birth epochs of the dead and of the listed nodes. */
  ghost function Births(nodes: seq<SimNode>, deaths: seq<Death>): seq<nat> {
    seq(|deaths|, i requires 0 <= i < |deaths| => deaths[i].node.born)
    + Born(nodes)
  }

  ghost function Born(nodes: seq<SimNode>): seq<nat> {
    seq(|nodes|, i requires 0 <= i < |nodes| => nodes[i].born)
  }

  /** Every epoch before `t` has one node, listed or dead, and each death was on time. */
  ghost predicate Accounted(nodes: seq<SimNode>, deaths: seq<Death>, t: nat, e: nat, m: nat, choices: seq<Choice>)
    requires 1 <= m <= e == |choices|
  {
    && NoDup(Births(nodes, deaths))
    && (forall b: nat :: b in Births(nodes, deaths) <==> b < t)
    && (forall x :: x in nodes ==> Lawful(x, t, e, m, choices))
    && (forall d :: d in deaths ==> Lawful(d.node, t, e, m, choices) && d.epoch == d.node.lifetime)
  }

  ghost function Buried(nodes: seq<SimNode>, c: nat, t: nat): seq<Death>
    requires c <= |nodes|
  {
    seq(c, a requires 0 <= a < c => Death(nodes[a], t))
  }

  lemma AccountedAfterFree(nodes: seq<SimNode>, deaths: seq<Death>, c: nat, t: nat, now: nat, e: nat, m: nat,
                           choices: seq<Choice>)
    requires 1 <= m <= e == |choices|
    requires Accounted(nodes, deaths, now, e, m, choices) && c <= |nodes|
    requires forall a :: 0 <= a < c ==> nodes[a].lifetime == t
    ensures Accounted(nodes[c..], deaths + Buried(nodes, c, t), now, e, m, choices)
  {
    var deaths' := deaths + Buried(nodes, c, t);
    assert Births(nodes[c..], deaths') == Births(nodes, deaths);
    forall d | d in deaths'
      ensures Lawful(d.node, now, e, m, choices) && d.epoch == d.node.lifetime
    {
      if d !in deaths {
        var a :| 0 <= a < c && d == Death(nodes[a], t);
        assert nodes[a] in nodes;
      }
    }
  }

  lemma AccountedAfterInsert(nodes: seq<SimNode>, deaths: seq<Death>, x: SimNode, t: nat, e: nat, m: nat,
                             choices: seq<Choice>)
    requires 1 <= m <= e == |choices|
    requires Accounted(nodes, deaths, t, e, m, choices) && Sorted(nodes)
    requires t < e && x.born == t && x.lifetime == t + Lifetime(t, e, m, choices[t])
    ensures Accounted(Insert(nodes, x), deaths, t + 1, e, m, choices)
  {
    InsertSorted(nodes, x);
    BirthsAfterInsert(nodes, deaths, x);
    assert t !in Births(nodes, deaths);
  }

  /** The new node's epoch joins the births. */
  lemma BirthsAfterInsert(nodes: seq<SimNode>, deaths: seq<Death>, x: SimNode)
    requires NoDup(Births(nodes, deaths)) && x.born !in Births(nodes, deaths)
    ensures NoDup(Births(Insert(nodes, x), deaths))
    ensures forall b: nat :: b in Births(Insert(nodes, x), deaths) <==> b in Births(nodes, deaths) || b == x.born
  {
    var i := InsertPosition(nodes, x);
    InsertAt(nodes, x, i);
    var b, p := Births(nodes, deaths), |deaths| + i;
    BirthsSplit(nodes, deaths, x, i);
    InsertElement(b, p, x.born);
  }

  lemma BirthsSplit(nodes: seq<SimNode>, deaths: seq<Death>, x: SimNode, i: nat)
    requires i <= |nodes|
    ensures var b, p := Births(nodes, deaths), |deaths| + i;
            Births(nodes[..i] + [x] + nodes[i..], deaths) == b[..p] + [x.born] + b[p..]
  {
  }

  lemma InsertElement(s: seq<nat>, p: nat, x: nat)
    requires p <= |s| && NoDup(s) && x !in s
    ensures NoDup(s[..p] + [x] + s[p..])
    ensures forall y :: y in s[..p] + [x] + s[p..] <==> y in s || y == x
  {
    assert s == s[..p] + s[p..];
  }

  lemma {:induction false} InsertPosition(s: seq<SimNode>, x: SimNode) returns (i: nat)
    ensures i <= |s| && (i < |s| ==> x.lifetime < s[i].lifetime)
    ensures forall a :: 0 <= a < i ==> s[a].lifetime <= x.lifetime
  {
    if s == [] || x.lifetime < s[0].lifetime {
      i := 0;
    } else {
      i := InsertPosition(s[1..], x);
      i := i + 1;
    }
  }

  class Sim {
    const pool: MPool
    var simhead: seq<SimNode>
    ghost var deaths: seq<Death>

    constructor (pool: MPool)
      ensures this.pool == pool && simhead == [] && deaths == []
    {
      this.pool, simhead, deaths := pool, [], [];
    }

    ghost predicate Valid()
      reads this, pool, pool.mem, pool.blktable
    {
      pool.Valid() && Owns(simhead, pool.tree, pool.maxlogsize, pool.hsize) && Sorted(simhead)
    }

    /** `sim_add_to_list`: walks to the first node that is due later. */
    method AddToList(x: SimNode)
      modifies this`simhead
      ensures simhead == Insert(old(simhead), x)
      // behind all nodes that are due no later, ahead of one that is due later
      ensures exists i :: 0 <= i <= |old(simhead)| && simhead == old(simhead)[..i] + [x] + old(simhead)[i..]
                          && (forall a :: 0 <= a < i ==> old(simhead)[a].lifetime <= x.lifetime)
                          && (i < |old(simhead)| ==> x.lifetime < old(simhead)[i].lifetime)
    {
      var i := 0;
      while i < |simhead|
        invariant i <= |simhead| && (simhead != [] ==> i < |simhead|) && simhead == old(simhead)
        invariant forall a :: 0 <= a < i ==> simhead[a].lifetime <= x.lifetime
      {
        if x.lifetime < simhead[i].lifetime {
          InsertAt(simhead, x, i);
          simhead := simhead[..i] + [x] + simhead[i..];
          assert simhead == old(simhead)[..i] + [x] + old(simhead)[i..];
          return;
        } else if i + 1 == |simhead| {
          InsertAt(simhead, x, i + 1);
          assert simhead[..i + 1] == simhead && simhead[i + 1..] == [];
          simhead := simhead + [x];
          assert simhead == old(simhead)[..i + 1] + [x] + old(simhead)[i + 1..];
          return;
        }
        i := i + 1;
      }
      simhead := [x] + simhead;
      assert simhead == old(simhead)[..0] + [x] + old(simhead)[0..];
    }

    ghost predicate SizedFor(choices: seq<Choice>)
      reads this, pool
    {
      Sized(simhead, pool.tree, pool.maxlogsize, pool.minlogsize, pool.hsize, choices)
    }

    /** Frees the first node's block and takes the node off the list. */
    method FreeHead(t: nat, ghost choices: seq<Choice>)
      requires Valid() && SizedFor(choices) && simhead != []
      modifies this, pool, pool.mem, pool.blktable
      ensures Valid() && SizedFor(choices) && simhead == old(simhead)[1..]
      ensures deaths == old(deaths) + [Death(old(simhead)[0], t)]
    {
      SizedAfterFree(simhead, pool.tree, pool.maxlogsize, pool.minlogsize, pool.hsize, choices);
      OwnsAfterFree(simhead, pool.tree, pool.maxlogsize, pool.hsize);
      pool.Free(simhead[0].ptr);
      deaths := deaths + [Death(simhead[0], t)];
      simhead := simhead[1..];
    }

    /** `sim_free_from_list`: frees from the head while nodes are due in this very epoch. */
    method FreeFromList(t: nat, ghost choices: seq<Choice>) returns (ghost c: nat)
      requires Valid() && SizedFor(choices)
      modifies this, pool, pool.mem, pool.blktable
      ensures Valid() && SizedFor(choices)
      ensures c <= |old(simhead)| && simhead == old(simhead)[c..]
      ensures forall a :: 0 <= a < c ==> old(simhead)[a].lifetime == t
      ensures simhead != [] ==> simhead[0].lifetime != t
      ensures deaths == old(deaths) + Buried(old(simhead), c, t)
    {
      c := 0;
      while simhead != [] && simhead[0].lifetime == t
        invariant Valid() && SizedFor(choices) && c <= |old(simhead)| && simhead == old(simhead)[c..]
        invariant forall a :: 0 <= a < c ==> old(simhead)[a].lifetime == t
        invariant deaths == old(deaths) + Buried(old(simhead), c, t)
        decreases |simhead|
      {
        FreeHead(t, choices);
        assert Buried(old(simhead), c + 1, t) == Buried(old(simhead), c, t) + [Death(old(simhead)[c], t)];
        c := c + 1;
      }
    }

    /** Free what is due in epoch `t`; afterwards nothing listed is due or overdue. */
    method FreeDue(t: nat, now: nat, e: nat, m: nat, ghost choices: seq<Choice>)
      requires Valid() && SizedFor(choices) && 1 <= m <= e == |choices|
      requires Accounted(simhead, deaths, now, e, m, choices)
      requires forall x :: x in simhead ==> x.lifetime >= t
      modifies this, pool, pool.mem, pool.blktable
      ensures Valid() && SizedFor(choices) && Accounted(simhead, deaths, now, e, m, choices)
      ensures forall x :: x in simhead ==> x.lifetime > t
    {
      ghost var c := FreeFromList(t, choices);
      AccountedAfterFree(old(simhead), old(deaths), c, t, now, e, m, choices);
      assert simhead != [] ==> simhead[0] in old(simhead);
    }

    /** The logsize of the block that the choice asks this pool for. */
    ghost function Wanted(choice: Choice): nat
      reads this, pool
    {
      BlockLogsize(choice, pool.minlogsize, pool.hsize)
    }

    /** No aligned range of the pool is free for the block that epoch `t` asks for. */
    ghost predicate NoRoom(choice: Choice)
      reads this, pool
    {
      !FitsSomewhere(pool.tree, pool.maxlogsize, Wanted(choice))
    }

    /** The pool has at least `m` regions of the largest size that can be asked for. */
    ghost predicate Ample(m: nat)
      reads this, pool
    {
      var c := LargestBlock(pool.minlogsize, pool.hsize);
      c <= pool.maxlogsize && m <= Pow2(pool.maxlogsize - c)
    }

    lemma AmpleHasRoom(t: nat, e: nat, m: nat, choices: seq<Choice>)
      requires Valid() && SizedFor(choices) && 1 <= m <= e == |choices| && t < e
      requires Accounted(simhead, deaths, t, e, m, choices) && (forall x :: x in simhead ==> x.lifetime > t)
      ensures Ample(m) ==> !NoRoom(choices[t])
    {
      FewListed(simhead, deaths, t, e, m, choices);
      if Ample(m) {
        RoomForChoice(simhead, pool.tree, pool.maxlogsize, pool.minlogsize, pool.hsize, choices, choices[t]);
      }
    }

    /** Allocate a block of the size and lifetime that epoch `t` drew, and list it. */
    method AllocOne(t: nat, e: nat, m: nat, choices: seq<Choice>) returns (ok: bool, ghost ptr: nat)
      requires Valid() && SizedFor(choices) && 1 <= m <= e == |choices| && t < e
      requires Accounted(simhead, deaths, t, e, m, choices) && (forall x :: x in simhead ==> x.lifetime > t)
      modifies this, pool, pool.mem, pool.blktable
      ensures Valid() && SizedFor(choices) && deaths == old(deaths)
      ensures ok ==> ptr >= pool.hsize
                     && IsUsed(pool.tree, pool.maxlogsize, ptr - pool.hsize,
                               Target(pool.minlogsize, RequestSize(choices[t]) + pool.hsize))
                     && simhead == Insert(old(simhead), SimNode(t, ptr, t + Lifetime(t, e, m, choices[t])))
      ensures ok ==> Accounted(simhead, deaths, t + 1, e, m, choices) && (forall x :: x in simhead ==> x.lifetime > t)
      ensures !ok ==> NoRoom(choices[t]) && simhead == old(simhead)
                      && !FitsSomewhere(pool.tree, pool.maxlogsize,
                                        Target(pool.minlogsize, RequestSize(choices[t]) + pool.hsize))
      ensures Ample(m) ==> ok
    {
      AmpleHasRoom(t, e, m, choices);
      ghost var was := pool.tree;
      var block := AllocListed(RequestSize(choices[t]));
      if block.None? {
        return false, 0;
      }
      var simnode := SimNode(t, block.value, t + Lifetime(t, e, m, choices[t]));
      AccountedAfterInsert(simhead, deaths, simnode, t, e, m, choices);
      InsertSorted(simhead, simnode);
      SizedAfterAlloc(simhead, simnode, was, pool.tree, pool.maxlogsize, pool.minlogsize, pool.hsize, choices);
      AddToList(simnode);
      ok, ptr := true, block.value;
    }

    /**
     `mpool_alloc`, in terms of the list: a block of the wanted size, such that any node for it
     keeps ownership exact, or no room for one.
     */
    method AllocListed(sz: nat) returns (ptr: Option<nat>)
      requires Valid()
      modifies pool, pool.mem, pool.blktable
      ensures pool.Valid()
      ensures ptr.None? ==> Valid() && pool.tree == old(pool.tree)
      ensures ptr.None? <==>
        !FitsSomewhere(old(pool.tree), pool.maxlogsize, Target(pool.minlogsize, sz + pool.hsize))
      ensures ptr.Some? ==>
        && ptr.value >= pool.hsize
        && Joins(old(pool.tree), pool.tree, pool.maxlogsize, ptr.value - pool.hsize,
                 Target(pool.minlogsize, sz + pool.hsize))
      ensures ptr.Some? ==> forall x: SimNode :: x.ptr == ptr.value ==>
        Owns(Insert(simhead, x), pool.tree, pool.maxlogsize, pool.hsize)
    {
      ghost var k, t := pool.maxlogsize, pool.tree;
      ptr := pool.Alloc(sz);
      if ptr.Some? {
        ghost var o, n := ptr.value - pool.hsize, Target(pool.minlogsize, sz + pool.hsize);
        ghost var j := LeafAt(t, k, o).logsize;
        forall x: SimNode | x.ptr == ptr.value
          ensures Owns(Insert(simhead, x), pool.tree, k, pool.hsize)
        {
          OwnsAfterAlloc(simhead, x, t, k, o, j, n, pool.hsize);
        }
        forall y: nat, i: nat
          ensures IsUsed(pool.tree, k, y, i) <==> IsUsed(t, k, y, i) || (y == o && i == n)
        {
          AllocUsed(t, k, o, j, n, y, i);
        }
      }
    }

    /** The simulation came to its end: every block was freed once, when due, and none is left. */
    ghost predicate Finished(e: nat, m: nat, choices: seq<Choice>)
      requires 1 <= m <= e == |choices|
      reads this, pool
    {
      && simhead == [] && pool.tree == FREE && pool.nsplits == pool.nmerges
      && Accounted([], deaths, e, e, m, choices)
    }

    /**
     `main`, for `e` epochs, maximum lifetime `m` and any random choices.  Either it comes to
     its end, or in some epoch `t` there is no room for just the block that epoch asks for, and
     the epochs before have all been accounted for.
     */
    method Run(e: nat, m: nat, choices: seq<Choice>) returns (ok: bool, t: nat)
      requires Valid() && simhead == [] && deaths == [] && 1 <= m <= e == |choices|
      modifies this, pool, pool.mem, pool.blktable
      ensures Valid()
      ensures ok ==> t == e && Finished(e, m, choices)
      ensures !ok ==> t < e && NoRoom(choices[t]) && Accounted(simhead, deaths, t, e, m, choices)
                      && forall x :: x in simhead ==> x.lifetime > t
      ensures Ample(m) ==> ok
    {
      t := 0;
      while t < e
        invariant t <= e && Valid() && SizedFor(choices) && Accounted(simhead, deaths, t, e, m, choices)
        invariant forall x :: x in simhead ==> x.lifetime >= t
      {
        FreeDue(t, t, e, m, choices);
        ghost var ptr;
        ok, ptr := AllocOne(t, e, m, choices);
        if !ok {
          return;
        }
        t := t + 1;
      }
      FreeLast(e, m, choices);
      ok := true;
    }

    /** After the last epoch everything that is still listed is due. */
    method FreeLast(e: nat, m: nat, ghost choices: seq<Choice>)
      requires Valid() && SizedFor(choices) && 1 <= m <= e == |choices| && Accounted(simhead, deaths, e, e, m, choices)
      requires forall x :: x in simhead ==> x.lifetime >= e
      modifies this, pool, pool.mem, pool.blktable
      ensures Valid() && Finished(e, m, choices)
    {
      FreeDue(e, e, e, m, choices);
      SomeElement(simhead);
      assert simhead == [];
      NothingListed(pool.tree, pool.maxlogsize, pool.minlogsize, pool.hsize);
    }
  }

  /**
   `main` from its start: a pool of `2^25` bytes with blocks of at least `2^5`, and the
   simulation on it.  The pool is refused exactly when a header does not fit in `2^5` bytes.
   */
  method Simulate(hsize: nat, e: nat, m: nat, choices: seq<Choice>, memory: bool)
    returns (ret: Mpret, ok: bool, t: nat, sim: Sim?)
    requires hsize > 0 && 1 <= m <= e == |choices|
    ensures ret == if hsize >= 32 then MPOOL_EBADVAL else if memory then MPOOL_OK else MPOOL_ENOMEM
    ensures ret == MPOOL_OK <==> sim != null
    ensures sim != null ==> sim.Valid() && sim.pool.hsize == hsize
                            && sim.pool.maxlogsize == 25 && sim.pool.minlogsize == 5
    ensures ok ==> sim != null && sim.Finished(e, m, choices)
    ensures sim != null && !ok ==> t < e && sim.NoRoom(choices[t])
                                   && Accounted(sim.simhead, sim.deaths, t, e, m, choices)
    ensures sim != null && m <= 0x80000 ==> ok
  {
    assert Pow2(5) == 32;
    if hsize < 32 {
      AmpleRoom(hsize);
    }
    ok, t, sim := false, 0, null;
    var pool;
    ret, pool := MPool.Init(25, 5, hsize, memory);
    if pool != null {
      sim := new Sim(pool);
      NothingUsedYet(25);
      ok, t := sim.Run(e, m, choices);
    }
  }

  /** `2^25` bytes are `2^19` blocks of the largest size, and `0x80000` is `2^19`. */
  lemma AmpleRoom(hsize: nat)
    requires 0 < hsize < 32
    ensures LargestBlock(5, hsize) == 6 && Pow2(25 - 6) == 0x80000
  {
    assert Pow2(5) == 32 && Pow2(6) == 64;
    TargetIsLeast(5, 32 + hsize, 6);
  }

  lemma NothingUsedYet(k: nat)
    ensures forall o: nat :: !UsedAt(FREE, k, o)
  {
  }

  /** In any epoch fewer than `m` nodes are listed: all were born in the last `m - 1` epochs. */
  lemma FewListed(nodes: seq<SimNode>, deaths: seq<Death>, t: nat, e: nat, m: nat, choices: seq<Choice>)
    requires 1 <= m <= e == |choices| && Accounted(nodes, deaths, t, e, m, choices)
    requires forall x :: x in nodes ==> x.lifetime > t
    ensures |nodes| < m
  {
    NoDupSuffix(Births(nodes, deaths), |deaths|);
    assert Births(nodes, deaths)[|deaths|..] == Born(nodes);
    forall b | b in Born(nodes)
      ensures t - m + 1 <= b < t
    {
      var i :| 0 <= i < |nodes| && Born(nodes)[i] == b;
      assert nodes[i] in nodes;
    }
    NoDupInRange(Born(nodes), t - m + 1, t);
  }

  lemma SomeElement(s: seq<SimNode>)
    ensures s == [] || exists x :: x in s
  {
    if s != [] {
      assert s[0] in s;
    }
  }

  lemma NothingListed(t: Tree, k: nat, m: nat, hsize: nat)
    requires Owns([], t, k, hsize) && Fits(t, k, m) && Canonical(t)
    ensures t == FREE
  {
    forall x: nat, i: nat
      ensures !IsUsed(t, k, x, i)
    {
      assert UsedAt(t, k, x) <==> HasPtr([], x + hsize);
    }
    NothingUsed(t, k, m);
  }
}
