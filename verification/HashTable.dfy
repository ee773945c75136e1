/** The chained hash table of `genstructs/htable/htable.c`, refining a finite map. */
module HashTable {
  import opened Powers
  import opened Lists

  datatype Entry<K, V> = Entry(key: K, data: V)

  datatype Htret = HT_OK | HT_EXISTS | HT_NOMEM | HT_NOTFOUND

  /** `hash & (size - 1)`. */
  function Index(h: nat, size: nat): nat
    requires size >= 1
  {
    BitAnd(h, size - 1)
  }

  lemma IndexInRange(h: nat, n: nat)
    ensures Index(h, Pow2(n)) == h % Pow2(n) && Index(h, Pow2(n)) < Pow2(n)
  {
    MaskIsRemainder(h, n);
    DivMod(h, Pow2(n));
  }

  /** The chain of a table half the size that feeds chain `j`. */
  function OldIndex(j: nat, size: nat): nat {
    if j < size then j else j - size
  }

  /** Doubling the table sends each chain to two chains. */
  lemma IndexAfterGrow(h: nat, n: nat)
    ensures Index(h, Pow2(n + 1)) < Pow2(n + 1)
    ensures Index(h, Pow2(n)) == OldIndex(Index(h, Pow2(n + 1)), Pow2(n))
  {
    IndexInRange(h, n);
    IndexInRange(h, n + 1);
    FoldRemainder(h, Pow2(n));
  }

  lemma FoldRemainder(h: nat, s: nat)
    requires s > 0
    ensures h % s == OldIndex(h % (2 * s), s)
  {
    var q, r := h / (2 * s), h % (2 * s);
    DivMod(h, 2 * s);
    assert (2 * s) * q == s * (2 * q);
    if r < s {
      QuotientUnique(h, s, 2 * q, r);
    } else {
      MulDistributes(s, 2 * q, 1);
      QuotientUnique(h, s, 2 * q + 1, r - s);
    }
  }

  // ----- chains

  /** What a search of the chain finds: the data of the first entry with the key. */
  function Lookup<K(==), V>(chain: seq<Entry<K, V>>, key: K): Option<V> {
    if chain == [] then None
    else if chain[0].key == key then Some(chain[0].data)
    else Lookup(chain[1..], key)
  }

  ghost predicate DistinctKeys<K, V>(chain: seq<Entry<K, V>>) {
    forall a, b :: 0 <= a < b < |chain| ==> chain[a].key != chain[b].key
  }

  lemma {:induction false} LookupAppend<K, V>(chain: seq<Entry<K, V>>, e: Entry<K, V>, key: K)
    ensures Lookup(chain + [e], key)
         == if Lookup(chain, key).Some? then Lookup(chain, key) else if e.key == key then Some(e.data) else None
  {
    if chain != [] {
      assert (chain + [e])[1..] == chain[1..] + [e];
      LookupAppend(chain[1..], e, key);
    }
  }

  lemma {:induction false} LookupMisses<K, V>(chain: seq<Entry<K, V>>, key: K)
    ensures Lookup(chain, key).None? <==> forall a :: 0 <= a < |chain| ==> chain[a].key != key
  {
    if chain != [] {
      LookupMisses(chain[1..], key);
      assert chain == [chain[0]] + chain[1..];
    }
  }

  lemma {:induction false} LookupHit<K, V>(chain: seq<Entry<K, V>>, i: nat)
    requires DistinctKeys(chain) && i < |chain|
    ensures Lookup(chain, chain[i].key) == Some(chain[i].data)
  {
    if i > 0 {
      LookupHit(chain[1..], i - 1);
    }
  }

  lemma {:induction false} LookupRemoved<K, V>(chain: seq<Entry<K, V>>, i: nat, key: K)
    requires DistinctKeys(chain) && i < |chain|
    ensures Lookup(chain[..i] + chain[i + 1..], key) == if key == chain[i].key then None else Lookup(chain, key)
  {
    var r := chain[..i] + chain[i + 1..];
    if i == 0 {
      assert r == chain[1..];
      LookupMisses(chain[1..], chain[0].key);
    } else {
      assert r[1..] == chain[1..][..i - 1] + chain[1..][i..];
      LookupRemoved(chain[1..], i - 1, key);
    }
  }

  /** The entries of a chain that go to chain `j` of a table of the given size, in order. */
  function Filter<K, V>(chain: seq<Entry<K, V>>, hashf: K -> nat, size: nat, j: nat): seq<Entry<K, V>>
    requires size >= 1
  {
    if chain == [] then []
    else (if Index(hashf(chain[0].key), size) == j then [chain[0]] else []) + Filter(chain[1..], hashf, size, j)
  }

  lemma {:induction false} FilterAppend<K, V>(chain: seq<Entry<K, V>>, e: Entry<K, V>, hashf: K -> nat,
                                              size: nat, j: nat)
    requires size >= 1
    ensures Filter(chain + [e], hashf, size, j)
         == Filter(chain, hashf, size, j) + if Index(hashf(e.key), size) == j then [e] else []
  {
    var longer := chain + [e];
    if chain == [] {
      assert longer[0] == e && longer[1..] == [];
    } else {
      assert longer[0] == chain[0] && longer[1..] == chain[1..] + [e];
      FilterAppend(chain[1..], e, hashf, size, j);
      FilterCons(chain, hashf, size, j);
      FilterCons(longer, hashf, size, j);
    }
  }

  lemma FilterCons<K, V>(chain: seq<Entry<K, V>>, hashf: K -> nat, size: nat, j: nat)
    requires size >= 1 && chain != []
    ensures Filter(chain, hashf, size, j)
         == (if Index(hashf(chain[0].key), size) == j then [chain[0]] else []) + Filter(chain[1..], hashf, size, j)
  {
  }

  /** A chain's entries keep their order when they are filtered. */
  lemma {:induction false} FilterOrder<K, V>(chain: seq<Entry<K, V>>, hashf: K -> nat, size: nat, j: nat,
                                             x: Entry<K, V>, y: Entry<K, V>)
    requires size >= 1 && Before(Filter(chain, hashf, size, j), x, y)
    ensures Before(chain, x, y)
  {
    if chain != [] {
      var h, rest := chain[0], Filter(chain[1..], hashf, size, j);
      assert chain == [h] + chain[1..];
      BeforeCons(h, chain[1..], x, y);
      if Index(hashf(h.key), size) == j {
        BeforeCons(h, rest, x, y);
        if y in rest {
          FilterElements(chain[1..], hashf, size, j, y);
        }
      }
      if Before(rest, x, y) {
        FilterOrder(chain[1..], hashf, size, j, x, y);
      }
    }
  }

  lemma {:induction false} FilterElements<K, V>(chain: seq<Entry<K, V>>, hashf: K -> nat, size: nat, j: nat,
                                                e: Entry<K, V>)
    requires size >= 1
    ensures e in Filter(chain, hashf, size, j) <==> e in chain && Index(hashf(e.key), size) == j
  {
    if chain != [] {
      FilterElements(chain[1..], hashf, size, j, e);
      assert chain == [chain[0]] + chain[1..];
    }
  }

  lemma {:induction false} FilterDistinct<K, V>(chain: seq<Entry<K, V>>, hashf: K -> nat, size: nat, j: nat)
    requires size >= 1 && DistinctKeys(chain)
    ensures DistinctKeys(Filter(chain, hashf, size, j))
  {
    if chain != [] {
      FilterDistinct(chain[1..], hashf, size, j);
      var r := Filter(chain[1..], hashf, size, j);
      forall a | 0 <= a < |r|
        ensures r[a].key != chain[0].key
      {
        FilterElements(chain[1..], hashf, size, j, r[a]);
        assert r[a] in r;
      }
    }
  }

  lemma {:induction false} FilterLookup<K, V>(chain: seq<Entry<K, V>>, hashf: K -> nat, size: nat, key: K)
    requires size >= 1
    ensures Lookup(Filter(chain, hashf, size, Index(hashf(key), size)), key) == Lookup(chain, key)
  {
    if chain != [] {
      FilterLookup(chain[1..], hashf, size, key);
      var j := Index(hashf(key), size);
      var r := Filter(chain[1..], hashf, size, j);
      assert ([chain[0]] + r)[1..] == r && [] + r == r;
    }
  }

  ghost function EmptiedUpTo<T>(table: seq<seq<T>>, i: nat): seq<seq<T>> {
    seq(|table|, l requires 0 <= l < |table| => if l < i then [] else table[l])
  }

  /** Chain `j` halfway through rehashing: filled from old chains below `i` only. */
  ghost predicate RehashedUpTo<K, V>(now: seq<seq<Entry<K, V>>>, was: seq<seq<Entry<K, V>>>, hashf: K -> nat,
                                     i: nat, j: nat)
    requires |now| == 2 * |was| && j < |now|
  {
    now[j] == if OldIndex(j, |was|) < i then Filter(was[OldIndex(j, |was|)], hashf, |now|, j) else []
  }

  ghost predicate RehashedBelow<K, V>(now: seq<seq<Entry<K, V>>>, was: seq<seq<Entry<K, V>>>, hashf: K -> nat, i: nat)
    requires |now| == 2 * |was|
  {
    forall j :: 0 <= j < |now| ==> RehashedUpTo(now, was, hashf, i, j)
  }

  lemma NotYetRehashed<K, V>(now: seq<seq<Entry<K, V>>>, was: seq<seq<Entry<K, V>>>, hashf: K -> nat, i: nat)
    requires |now| == 2 * |was| && RehashedBelow(now, was, hashf, i)
    ensures forall j :: 0 <= j < |now| && OldIndex(j, |was|) == i ==> now[j] == []
  {
    forall j | 0 <= j < |now| && OldIndex(j, |was|) == i
      ensures now[j] == []
    {
      assert RehashedUpTo(now, was, hashf, i, j);
    }
  }

  /** The two chains that chain `i` of `n` feeds have got `part` of it, the others are as before. */
  ghost predicate Spread<K, V>(now: seq<seq<Entry<K, V>>>, now': seq<seq<Entry<K, V>>>, part: seq<Entry<K, V>>,
                               hashf: K -> nat, n: nat, i: nat)
  {
    && |now| == |now'| == 2 * n
    && forall j :: 0 <= j < |now'| ==>
         now'[j] == if OldIndex(j, n) == i then Filter(part, hashf, |now'|, j) else now[j]
  }

  lemma SpreadNext<K, V>(now: seq<seq<Entry<K, V>>>, now': seq<seq<Entry<K, V>>>, part: seq<Entry<K, V>>,
                         hashf: K -> nat, n: nat, i: nat, e: Entry<K, V>, l: nat)
    requires Spread(now, now', part, hashf, n, i) && i < n
    requires l == Index(hashf(e.key), 2 * n) < |now'| && OldIndex(l, n) == i
    ensures Spread(now, now'[l := now'[l] + [e]], part + [e], hashf, n, i)
  {
    forall j | 0 <= j < 2 * n
      ensures Filter(part + [e], hashf, 2 * n, j) == Filter(part, hashf, 2 * n, j) + if l == j then [e] else []
    {
      FilterAppend(part, e, hashf, 2 * n, j);
    }
  }

  lemma OneMoreRehashed<K, V>(now: seq<seq<Entry<K, V>>>, now': seq<seq<Entry<K, V>>>,
                              was: seq<seq<Entry<K, V>>>, hashf: K -> nat, i: nat)
    requires i < |was| && Spread(now, now', was[i], hashf, |was|, i) && RehashedBelow(now, was, hashf, i)
    ensures RehashedBelow(now', was, hashf, i + 1)
  {
    var next := i + 1;
    forall j | 0 <= j < |now'|
      ensures RehashedUpTo(now', was, hashf, next, j)
    {
      assert RehashedUpTo(now, was, hashf, i, j);
    }
  }

  // ----- counting nodes

  function NodeCount<T>(table: seq<seq<T>>): nat {
    if table == [] then 0 else |table[0]| + NodeCount(table[1..])
  }

  lemma {:induction false} NodeCountUpdate<T>(table: seq<seq<T>>, i: nat, c: seq<T>)
    requires i < |table|
    ensures NodeCount(table[i := c]) + |table[i]| == NodeCount(table) + |c|
  {
    if i > 0 {
      NodeCountUpdate(table[1..], i - 1, c);
      assert table[i := c][1..] == table[1..][i - 1 := c];
    } else {
      assert table[0 := c][1..] == table[1..];
    }
  }

  lemma {:induction false} NodeCountZero<T>(table: seq<seq<T>>)
    requires forall i :: 0 <= i < |table| ==> table[i] == []
    ensures NodeCount(table) == 0
  {
    if table != [] {
      NodeCountZero(table[1..]);
    }
  }

  /** Allocates and initialises `n` empty chains. */
  method NewTable<T>(n: nat) returns (t: array<seq<T>>)
    ensures fresh(t) && t.Length == n && NodeCount(t[..]) == 0
    ensures forall i :: 0 <= i < n ==> t[i] == []
  {
    t := new seq<T>[n];
    for i := 0 to n
      invariant forall l :: 0 <= l < i ==> t[l] == []
    {
      t[i] := [];
    }
    NodeCountZero(t[..]);
  }

  // ----- the table and the map

  ghost function Home<K>(hashf: K -> nat, key: K, n: nat): nat {
    Index(hashf(key), Pow2(n))
  }

  /** Searching the key's chain finds what the map holds. */
  ghost predicate Finds<K, V>(chains: seq<seq<Entry<K, V>>>, hashf: K -> nat, n: nat, m: map<K, V>, k: K) {
    Home(hashf, k, n) < |chains| && Lookup(chains[Home(hashf, k, n)], k) == if k in m then Some(m[k]) else None
  }

  /** Every entry is in the chain of its hash, and no chain holds a key twice. */
  ghost predicate WellPlaced<K, V>(chain: seq<Entry<K, V>>, hashf: K -> nat, size: nat, i: nat)
    requires size >= 1
  {
    DistinctKeys(chain) && forall a :: 0 <= a < |chain| ==> Index(hashf(chain[a].key), size) == i
  }

  /** The chains of a table with `2^n` of them refine the map. */
  ghost predicate Refines<K(!new), V>(chains: seq<seq<Entry<K, V>>>, hashf: K -> nat, n: nat, m: map<K, V>) {
    && |chains| == Pow2(n)
    && (forall i :: 0 <= i < |chains| ==> WellPlaced(chains[i], hashf, |chains|, i))
    && (forall k :: Finds(chains, hashf, n, m, k))
  }

  lemma EmptyRefines<K(!new), V>(chains: seq<seq<Entry<K, V>>>, hashf: K -> nat, n: nat)
    requires |chains| == Pow2(n) && (forall i :: 0 <= i < |chains| ==> chains[i] == [])
    ensures Refines(chains, hashf, n, map[])
  {
    forall k
      ensures Finds(chains, hashf, n, map[], k)
    {
      IndexInRange(hashf(k), n);
    }
  }

  /** New chain `j` is the order-preserving filter of the old chain that feeds it. */
  ghost predicate FilteredFrom<K, V>(now: seq<seq<Entry<K, V>>>, was: seq<seq<Entry<K, V>>>, hashf: K -> nat, j: nat) {
    && |now| == 2 * |was| && j < |now|
    && now[j] == Filter(was[OldIndex(j, |was|)], hashf, |now|, j)
  }

  /** Filtered chains refine the same map one size up. */
  lemma RehashRefines<K(!new), V>(was: seq<seq<Entry<K, V>>>, now: seq<seq<Entry<K, V>>>, hashf: K -> nat,
                                  n: nat, m: map<K, V>)
    requires Refines(was, hashf, n, m) && |now| == 2 * |was|
    requires forall j :: 0 <= j < |now| ==> FilteredFrom(now, was, hashf, j)
    ensures Refines(now, hashf, n + 1, m)
  {
    forall j | 0 <= j < |now|
      ensures WellPlaced(now[j], hashf, |now|, j)
    {
      assert FilteredFrom(now, was, hashf, j);
      var c := was[OldIndex(j, |was|)];
      assert WellPlaced(c, hashf, |was|, OldIndex(j, |was|));
      FilterDistinct(c, hashf, |now|, j);
      forall a | 0 <= a < |now[j]|
        ensures Index(hashf(now[j][a].key), |now|) == j
      {
        assert now[j][a] in now[j];
        FilterElements(c, hashf, |now|, j, now[j][a]);
      }
    }
    var n' := n + 1;
    forall k
      ensures Finds(now, hashf, n', m, k)
    {
      assert Finds(was, hashf, n, m, k);
      IndexAfterGrow(hashf(k), n);
      assert FilteredFrom(now, was, hashf, Home(hashf, k, n + 1));
      FilterLookup(was[Home(hashf, k, n)], hashf, |now|, k);
    }
  }

  /** Appending an entry with a new key to its chain adds it to the map. */
  lemma AppendRefines<K(!new), V>(chains: seq<seq<Entry<K, V>>>, hashf: K -> nat, n: nat, m: map<K, V>, e: Entry<K, V>)
    requires Refines(chains, hashf, n, m) && e.key !in m
    ensures Home(hashf, e.key, n) < |chains|
    ensures var i := Home(hashf, e.key, n); Refines(chains[i := chains[i] + [e]], hashf, n, m[e.key := e.data])
  {
    var i := Home(hashf, e.key, n);
    assert Finds(chains, hashf, n, m, e.key);
    var now := chains[i := chains[i] + [e]];
    LookupMisses(chains[i], e.key);
    assert WellPlaced(chains[i], hashf, |chains|, i);
    assert WellPlaced(now[i], hashf, |chains|, i);
    var m' := m[e.key := e.data];
    forall k
      ensures Finds(now, hashf, n, m', k)
    {
      assert Finds(chains, hashf, n, m, k);
      LookupAppend(chains[i], e, k);
    }
  }

  /** Taking an entry out of its chain takes its key out of the map. */
  lemma RemoveRefines<K(!new), V>(chains: seq<seq<Entry<K, V>>>, hashf: K -> nat, n: nat, m: map<K, V>, key: K, l: nat)
    requires Refines(chains, hashf, n, m) && Home(hashf, key, n) < |chains|
    requires l < |chains[Home(hashf, key, n)]| && chains[Home(hashf, key, n)][l].key == key
    ensures key in m
    ensures var i := Home(hashf, key, n);
            Refines(chains[i := chains[i][..l] + chains[i][l + 1..]], hashf, n, m - {key})
  {
    var i := Home(hashf, key, n);
    var c := chains[i];
    assert WellPlaced(c, hashf, |chains|, i) && Finds(chains, hashf, n, m, key);
    LookupHit(c, l);
    var now := chains[i := c[..l] + c[l + 1..]];
    assert WellPlaced(now[i], hashf, |chains|, i);
    var m' := m - {key};
    forall k
      ensures Finds(now, hashf, n, m', k)
    {
      assert Finds(chains, hashf, n, m, k);
      LookupRemoved(c, l, k);
    }
  }

  // ----- a table as a value, and what the operations make of it

  datatype Table<K, V> = Table(logsize: nat, factor: nat, chains: seq<seq<Entry<K, V>>>)

  /** `htable_init`. */
  function EmptyTable<K, V>(logsize: nat, factor: nat): Table<K, V> {
    Table(logsize, factor, seq(Pow2(logsize), i => []))
  }

  /** The new entry at the tail of its chain. */
  function Appended<K, V>(t: Table<K, V>, i: nat, e: Entry<K, V>): Table<K, V>
    requires i < |t.chains|
  {
    t.(chains := t.chains[i := t.chains[i] + [e]])
  }

  /** Every chain filtered into two. */
  function Doubled<K, V>(t: Table<K, V>, hashf: K -> nat): Table<K, V>
    requires t.chains != []
  {
    var n := |t.chains|;
    Table(t.logsize + 1, t.factor,
          seq(2 * n, j requires 0 <= j < 2 * n => Filter(t.chains[OldIndex(j, n)], hashf, 2 * n, j)))
  }

  function GrownIfFull<K, V>(t: Table<K, V>, hashf: K -> nat, growMemory: bool): Table<K, V>
    requires t.chains != []
  {
    if NodeCount(t.chains) > t.factor * |t.chains| && growMemory then Doubled(t, hashf) else t
  }

  /** `htable_insert`; `memory` and `growMemory` say whether the two allocations succeed. */
  function Inserted<K(==), V>(t: Table<K, V>, hashf: K -> nat, key: K, data: V, memory: bool, growMemory: bool)
    : (Table<K, V>, Htret)
    requires |t.chains| == Pow2(t.logsize)
  {
    IndexInRange(hashf(key), t.logsize);
    var i := Index(hashf(key), |t.chains|);
    if Lookup(t.chains[i], key).Some? then (t, HT_EXISTS)
    else if !memory then (t, HT_NOMEM)
    else (GrownIfFull(Appended(t, i, Entry(key, data)), hashf, growMemory), HT_OK)
  }

  lemma DoubledRefines<K(!new), V>(t: Table<K, V>, hashf: K -> nat, m: map<K, V>)
    requires Refines(t.chains, hashf, t.logsize, m)
    ensures Refines(Doubled(t, hashf).chains, hashf, t.logsize + 1, m)
  {
    var now := Doubled(t, hashf).chains;
    assert forall j :: 0 <= j < |now| ==> FilteredFrom(now, t.chains, hashf, j);
    RehashRefines(t.chains, now, hashf, t.logsize, m);
  }

  lemma IsDoubled<K, V>(t: Table<K, V>, now: seq<seq<Entry<K, V>>>, hashf: K -> nat)
    requires t.chains != [] && |now| == 2 * |t.chains|
    requires forall j :: 0 <= j < |now| ==> FilteredFrom(now, t.chains, hashf, j)
    ensures now == Doubled(t, hashf).chains
  {
    forall j | 0 <= j < |now|
      ensures now[j] == Doubled(t, hashf).chains[j]
    {
      assert FilteredFrom(now, t.chains, hashf, j);
    }
  }

  /** On a table that refines a map, inserting is inserting into the map, the first insert winning. */
  lemma InsertedRefines<K(!new), V>(t: Table<K, V>, hashf: K -> nat, m: map<K, V>, key: K, data: V,
                                    memory: bool, growMemory: bool)
    requires Refines(t.chains, hashf, t.logsize, m)
    ensures var (t', ret) := Inserted(t, hashf, key, data, memory, growMemory);
            && ret == (if key in m then HT_EXISTS else if memory then HT_OK else HT_NOMEM)
            && Refines(t'.chains, hashf, t'.logsize, if ret.HT_OK? then m[key := data] else m)
  {
    IndexInRange(hashf(key), t.logsize);
    assert Finds(t.chains, hashf, t.logsize, m, key);
    if key !in m && memory {
      AppendRefines(t.chains, hashf, t.logsize, m, Entry(key, data));
      DoubledRefines(Appended(t, Home(hashf, key, t.logsize), Entry(key, data)), hashf, m[key := data]);
    }
  }

  /** `htable_search`. */
  function Found<K(==), V>(t: Table<K, V>, hashf: K -> nat, key: K): Option<V>
    requires |t.chains| == Pow2(t.logsize)
  {
    IndexInRange(hashf(key), t.logsize);
    Lookup(t.chains[Index(hashf(key), |t.chains|)], key)
  }

  lemma FoundIsMap<K(!new), V>(t: Table<K, V>, hashf: K -> nat, m: map<K, V>, key: K)
    requires Refines(t.chains, hashf, t.logsize, m)
    ensures Found(t, hashf, key) == if key in m then Some(m[key]) else None
  {
    assert Finds(t.chains, hashf, t.logsize, m, key);
  }

  class HTable<K(==, !new), V> {
    var size: nat
    var used: nat
    const factor: nat
    var limit: nat
    var grows: nat
    const hashf: K -> nat
    var table: array<seq<Entry<K, V>>>
    ghost var logsize: nat
    ghost var contents: map<K, V>

    // history, for the cost of rehashing
    ghost const limit0: nat
    ghost var inserts: nat   // successful inserts
    ghost var moves: nat     // nodes moved by rehashing
    ghost var regular: bool  // all growth came from inserts and found memory

    /** What the counters say of the past, as long as growth was regular. */
    ghost predicate Amortised()
      reads this
    {
      && used <= inserts && grows <= inserts
      && used <= limit
      && moves + limit0 == limit + grows
      && (if grows == 0 then limit == limit0 else limit <= 2 * (inserts - 1))
    }

    ghost predicate Core()
      reads this, table
    {
      && size == table.Length == Pow2(logsize)
      && limit == factor * size
      && Refines(table[..], hashf, logsize, contents)
      && used == |contents| == NodeCount(table[..])
    }

    ghost predicate Valid()
      reads this, table
    {
      Core() && (regular && factor >= 1 ==> Amortised())
    }

    /** The table as a value. */
    ghost function Value(): Table<K, V>
      reads this, table
    {
      Table(logsize, factor, table[..])
    }

    /** `htable_init`; the size is a power of two, as the source asks of its callers. */
    constructor (ghost logsize: nat, size: nat, factor: nat, hashf: K -> nat)
      requires size == Pow2(logsize)
      ensures Valid() && fresh(table) && contents == map[] && this.size == size && regular
      ensures Value() == EmptyTable(logsize, factor)
      ensures this.factor == factor && this.hashf == hashf && limit == factor * size
      ensures used == grows == inserts == moves == 0
    {
      this.size, this.factor, this.hashf := size, factor, hashf;
      used, limit, grows := 0, factor * size, 0;
      this.logsize, contents, limit0 := logsize, map[], factor * size;
      inserts, moves, regular := 0, 0, true;
      var t: array<seq<Entry<K, V>>> := NewTable(size);
      table := t;
      new;
      EmptyRefines(table[..], hashf, logsize);
    }

    /** The position of the first entry with the key in the chain at `i`. */
    method Find(i: nat, key: K) returns (pos: Option<nat>)
      requires i < table.Length
      ensures match pos
              case None => Lookup(table[i], key) == None
              case Some(l) => l < |table[i]| && table[i][l].key == key
    {
      var phead := table[i];
      LookupMisses(phead, key);
      for l := 0 to |phead|
        invariant forall a :: 0 <= a < l ==> phead[a].key != key
      {
        if phead[l].key == key {
          return Some(l);
        }
      }
      pos := None;
    }

    /** `htable_search`: the data stored under the key, if any. */
    method Search(key: K) returns (r: Option<V>)
      requires Valid()
      ensures r == if key in contents then Some(contents[key]) else None
      ensures r == Found(Value(), hashf, key)
    {
      IndexInRange(hashf(key), logsize);
      FoundIsMap(Value(), hashf, contents, key);
      var i := Index(hashf(key), size);
      assert Finds(table[..], hashf, logsize, contents, key) && WellPlaced(table[..][i], hashf, size, i);
      var pos := Find(i, key);
      if pos.None? {
        return None;
      }
      LookupHit(table[i], pos.value);
      r := Some(table[i][pos.value].data);
    }

    /** Moves every node to its chain in a table of twice the size. */
    method Rehash() returns (newtable: array<seq<Entry<K, V>>>)
      requires size == table.Length == Pow2(logsize) && Refines(table[..], hashf, logsize, contents)
      modifies table, `moves
      ensures fresh(newtable) && newtable.Length == 2 * size
      ensures forall j :: 0 <= j < 2 * size ==> FilteredFrom(newtable[..], old(table[..]), hashf, j)
      ensures moves == old(moves) + NodeCount(old(table[..]))
      ensures NodeCount(newtable[..]) == NodeCount(old(table[..]))
    {
      newtable := NewTable(2 * size);
      ghost var was := table[..];
      for i := 0 to size
        invariant table[..] == EmptiedUpTo(was, i) && (i < size ==> table[i] == was[i])
        invariant RehashedBelow(newtable[..], was, hashf, i)
        invariant NodeCount(table[..]) + NodeCount(newtable[..]) == NodeCount(was)
        invariant moves == old(moves) + NodeCount(newtable[..])
        modifies table, newtable, `moves
      {
        Drain(newtable, i, was);
      }
      NodeCountZero(table[..]);
      forall j | 0 <= j < 2 * size
        ensures FilteredFrom(newtable[..], was, hashf, j)
      {
        assert RehashedUpTo(newtable[..], was, hashf, size, j);
      }
    }

    /** Moves the head of old chain `i` to the tail of its new chain. */
    method MoveHead(newtable: array<seq<Entry<K, V>>>, i: nat, ghost chain: seq<Entry<K, V>>, ghost c: nat,
                    ghost nt: seq<seq<Entry<K, V>>>)
      requires newtable != table && newtable.Length == 2 * table.Length && i < table.Length == Pow2(logsize)
      requires c < |chain| && table[i] == chain[c..] && Index(hashf(chain[c].key), table.Length) == i
      requires Spread(nt, newtable[..], chain[..c], hashf, table.Length, i)
      modifies table, newtable, `moves
      ensures table[..] == old(table[..])[i := chain[c + 1..]]
      ensures Spread(nt, newtable[..], chain[..c + 1], hashf, table.Length, i)
      ensures NodeCount(table[..]) + 1 == old(NodeCount(table[..]))
      ensures NodeCount(newtable[..]) == old(NodeCount(newtable[..])) + 1 && moves == old(moves) + 1
    {
      var pnode := table[i][0];
      IndexAfterGrow(hashf(pnode.key), logsize);
      var newhash := Index(hashf(pnode.key), newtable.Length);
      assert chain[..c + 1] == chain[..c] + [pnode];
      SpreadNext(nt, newtable[..], chain[..c], hashf, table.Length, i, pnode, newhash);
      NodeCountUpdate(table[..], i, table[i][1..]);
      NodeCountUpdate(newtable[..], newhash, newtable[newhash] + [pnode]);
      table[i] := table[i][1..];
      newtable[newhash] := newtable[newhash] + [pnode];
      moves := moves + 1;
      assert table[..] == old(table[..])[i := chain[c + 1..]];
      assert newtable[..] == old(newtable[..])[newhash := old(newtable[newhash]) + [pnode]];
    }

    /** Empties old chain `i` from its head into the tails of its two new chains. */
    method Drain(newtable: array<seq<Entry<K, V>>>, i: nat, ghost was: seq<seq<Entry<K, V>>>)
      requires newtable != table && newtable.Length == 2 * table.Length && i < table.Length == Pow2(logsize)
      requires forall a :: 0 <= a < |table[i]| ==> Index(hashf(table[i][a].key), table.Length) == i
      requires |was| == table.Length && table[i] == was[i]
      requires |newtable[..]| == 2 * |was| && RehashedBelow(newtable[..], was, hashf, i)
      modifies table, newtable, `moves
      ensures table[..] == old(table[..])[i := []]
      ensures RehashedBelow(newtable[..], was, hashf, i + 1)
      ensures NodeCount(table[..]) + NodeCount(newtable[..]) == old(NodeCount(table[..]) + NodeCount(newtable[..]))
      ensures moves - NodeCount(newtable[..]) == old(moves - NodeCount(newtable[..]))
    {
      ghost var chain, c := table[i], 0;
      assert chain[..0] == [];
      ghost var nt := newtable[..];
      NotYetRehashed(nt, was, hashf, i);
      while table[i] != []
        invariant c <= |chain| && table[i] == chain[c..]
        invariant table[..] == old(table[..])[i := chain[c..]]
        invariant Spread(nt, newtable[..], chain[..c], hashf, table.Length, i)
        invariant NodeCount(table[..]) + NodeCount(newtable[..]) == old(NodeCount(table[..]) + NodeCount(newtable[..]))
        invariant moves - NodeCount(newtable[..]) == old(moves - NodeCount(newtable[..]))
        decreases |table[i]|
      {
        assert table[i][0] == chain[c];
        MoveHead(newtable, i, chain, c, nt);
        c := c + 1;
      }
      assert chain[..c] == chain;
      OneMoreRehashed(nt, newtable[..], was, hashf, i);
    }

    /** `htable_grow`: twice as many chains, each the filter of the chain it came from. */
    method Grow(memory: bool) returns (ret: Htret)
      requires Core()
      modifies this`size, this`limit, this`table, this`logsize, this`moves, table
      ensures Core() && ret == if memory then HT_OK else HT_NOMEM
      ensures !memory ==> table == old(table) && table[..] == old(table[..]) && moves == old(moves)
                          && limit == old(limit) && size == old(size)
      ensures memory ==> fresh(table) && size == 2 * old(size) && limit == 2 * old(limit) && moves == old(moves) + used
      ensures Value() == if memory then Doubled(old(Value()), hashf) else old(Value())
    {
      if !memory {
        return HT_NOMEM;
      }
      ghost var was := Value();
      var newtable := Rehash();
      IsDoubled(was, newtable[..], hashf);
      DoubledRefines(was, hashf, contents);
      Install(newtable);
      ret := HT_OK;
    }

    /** The end of `htable_grow`: the new table takes the old one's place. */
    method Install(newtable: array<seq<Entry<K, V>>>)
      requires newtable.Length == 2 * Pow2(logsize) == 2 * size && limit == factor * size
      requires Refines(newtable[..], hashf, logsize + 1, contents) && used == |contents| == NodeCount(newtable[..])
      modifies this`size, this`limit, this`table, this`logsize
      ensures Core() && table == newtable && size == 2 * old(size) && limit == 2 * old(limit)
      ensures logsize == old(logsize) + 1
    {
      table := newtable;
      size := 2 * size;
      logsize := logsize + 1;
      limit := factor * size;
      assert factor * (2 * old(size)) == 2 * (factor * old(size));
    }

    /** A new entry goes to the tail of its chain. */
    method Append(i: nat, pnode: Entry<K, V>)
      requires Core() && pnode.key !in contents && i == Home(hashf, pnode.key, logsize) < table.Length
      modifies this`contents, this`inserts, this`used, table
      ensures Core() && contents == old(contents)[pnode.key := pnode.data]
      ensures inserts == old(inserts) + 1 && used == old(used) + 1
      ensures table[..] == old(table[..])[i := old(table[i]) + [pnode]] && logsize == old(logsize)
    {
      AppendRefines(table[..], hashf, logsize, contents, pnode);
      NodeCountUpdate(table[..], i, table[i] + [pnode]);
      table[i] := table[i] + [pnode];
      assert table[..] == old(table[..])[i := old(table[i]) + [pnode]];
      contents := contents[pnode.key := pnode.data];
      inserts := inserts + 1;
      used := used + 1;
    }

    /** The new entry goes in, and the table grows when that makes it too full. */
    method AppendAndGrow(i: nat, pnode: Entry<K, V>, growMemory: bool)
      requires Valid() && pnode.key !in contents && i == Home(hashf, pnode.key, logsize) < table.Length
      modifies this, table
      ensures Valid() && (fresh(table) || table == old(table))
      ensures Value() == GrownIfFull(Appended(old(Value()), i, pnode), hashf, growMemory)
      ensures contents == old(contents)[pnode.key := pnode.data] && inserts == old(inserts) + 1
      ensures regular == (old(regular) && (grows == old(grows) || growMemory))
      ensures grows == old(grows) + if old(used) + 1 > old(limit) then 1 else 0
      ensures if grows > old(grows) && growMemory
              then size == 2 * old(size) && moves == old(moves) + old(used) + 1
              else size == old(size) && moves == old(moves)
    {
      Append(i, pnode);
      GrowIfFull(growMemory);
    }

    /** The counters between the new entry and the growth it may cause. */
    ghost predicate Pending()
      reads this
    {
      && used <= inserts && grows < inserts
      && used <= limit + 1
      && moves + limit0 == limit + grows
      && (if grows == 0 then limit == limit0 else limit <= 2 * (inserts - 1))
    }

    /** The end of `htable_insert`: too many entries double the table. */
    method GrowIfFull(growMemory: bool)
      requires Core() && inserts >= 1 && (regular && factor >= 1 ==> Pending())
      modifies this`size, this`limit, this`table, this`logsize, this`moves, this`regular, this`grows, table
      ensures Valid() && (fresh(table) || table == old(table))
      ensures Value() == GrownIfFull(old(Value()), hashf, growMemory)
      ensures regular == (old(regular) && (grows == old(grows) || growMemory))
      ensures grows == old(grows) + if used > old(limit) then 1 else 0
      ensures if grows > old(grows) && growMemory
              then size == 2 * old(size) && moves == old(moves) + used
              else size == old(size) && moves == old(moves)
    {
      if used > limit {
        regular := regular && growMemory;
        var _ := Grow(growMemory);
        grows := grows + 1;
      }
    }

    /**
     `htable_insert`.  The first insert of a key wins; `memory` and `growMemory` say whether
     the two allocations succeed.  A failed growth leaves the entry in and the size as it was.
     */
    method Insert(key: K, data: V, memory: bool, growMemory: bool) returns (ret: Htret)
      requires Valid()
      modifies this, table
      ensures Valid() && (fresh(table) || table == old(table))
      ensures ret == if key in old(contents) then HT_EXISTS else if memory then HT_OK else HT_NOMEM
      ensures contents == if ret.HT_OK? then old(contents)[key := data] else old(contents)
      ensures (Value(), ret) == Inserted(old(Value()), hashf, key, data, memory, growMemory)
      // without growth the entry goes to the tail of its chain, and nothing else moves
      ensures ret.HT_OK? && size == old(size) ==>
        var i := Index(hashf(key), size);
        i < size && table[..] == old(table[..])[i := old(table[..])[i] + [Entry(key, data)]]
      ensures !ret.HT_OK? ==> table[..] == old(table[..])
      ensures inserts == old(inserts) + if ret.HT_OK? then 1 else 0
      ensures regular == (old(regular) && (grows == old(grows) || growMemory))
      ensures grows == old(grows) + if ret.HT_OK? && old(used) + 1 > old(limit) then 1 else 0
      ensures if grows > old(grows) && growMemory
              then size == 2 * old(size) && moves == old(moves) + old(used) + 1
              else size == old(size) && moves == old(moves)
    {
      IndexInRange(hashf(key), logsize);
      var i := Index(hashf(key), size);
      assert Finds(table[..], hashf, logsize, contents, key) && WellPlaced(table[..][i], hashf, size, i);
      var pos := Find(i, key);
      if pos.Some? {
        LookupHit(table[i], pos.value);
        return HT_EXISTS;
      }
      if !memory {
        return HT_NOMEM;
      }
      AppendAndGrow(i, Entry(key, data), growMemory);
      ret := HT_OK;
    }

    /** An entry leaves its chain. */
    method Unlink(i: nat, l: nat)
      requires Core() && i < table.Length && l < |table[i]| && i == Home(hashf, table[i][l].key, logsize)
      modifies this`contents, this`used, table
      ensures Core() && old(table[i][l].key) in old(contents) && contents == old(contents) - {old(table[i][l].key)}
      ensures used == old(used) - 1
      ensures table[..] == old(table[..])[i := old(table[i])[..l] + old(table[i])[l + 1..]]
    {
      var c := table[i];
      RemoveRefines(table[..], hashf, logsize, contents, c[l].key, l);
      NodeCountUpdate(table[..], i, c[..l] + c[l + 1..]);
      contents := contents - {c[l].key};
      table[i] := c[..l] + c[l + 1..];
      assert table[..] == old(table[..])[i := c[..l] + c[l + 1..]];
      used := used - 1;
    }

    /** `htable_remove`. */
    method Remove(key: K) returns (ret: Htret)
      requires Valid()
      modifies this, table
      ensures Valid() && table == old(table) && size == old(size) && regular == old(regular)
      ensures ret == if key in old(contents) then HT_OK else HT_NOTFOUND
      ensures contents == if key in old(contents) then old(contents) - {key} else old(contents)
      ensures inserts == old(inserts) && moves == old(moves) && grows == old(grows)
      ensures key !in old(contents) ==> table[..] == old(table[..])
      // one entry leaves its chain, and nothing else moves
      ensures key in old(contents) ==> exists i, l ::
        && 0 <= i < size && 0 <= l < |old(table[..])[i]| && old(table[..])[i][l].key == key
        && table[..] == old(table[..])[i := old(table[..])[i][..l] + old(table[..])[i][l + 1..]]
    {
      IndexInRange(hashf(key), logsize);
      var i := Index(hashf(key), size);
      assert Finds(table[..], hashf, logsize, contents, key) && WellPlaced(table[..][i], hashf, size, i);
      var pos := Find(i, key);
      if pos.None? {
        return HT_NOTFOUND;
      }
      ghost var was := table[..];
      Unlink(i, pos.value);
      assert table[..] == was[i := was[i][..pos.value] + was[i][pos.value + 1..]];
      ret := HT_OK;
    }
  }

  // ----- runs

  datatype Op<K, V> = Insert(key: K, data: V) | Remove(key: K) | Search(key: K) | Grow

  datatype Answer<V> = Code(ret: Htret) | Data(data: Option<V>)

  /** One operation on a finite map, first insert wins. */
  function MapStep<K(==), V>(m: map<K, V>, op: Op<K, V>): (map<K, V>, Answer<V>) {
    match op
    case Insert(k, v) => if k in m then (m, Code(HT_EXISTS)) else (m[k := v], Code(HT_OK))
    case Remove(k) => if k in m then (m - {k}, Code(HT_OK)) else (m, Code(HT_NOTFOUND))
    case Search(k) => (m, Data(if k in m then Some(m[k]) else None))
    case Grow => (m, Code(HT_OK))
  }

  ghost function MapRun<K, V>(m: map<K, V>, ops: seq<Op<K, V>>): (map<K, V>, seq<Answer<V>>) {
    if ops == [] then (m, [])
    else
      var (m', answers) := MapRun(m, ops[..|ops| - 1]);
      var (m'', answer) := MapStep(m', ops[|ops| - 1]);
      (m'', answers + [answer])
  }

  lemma MapRunStep<K, V>(m: map<K, V>, ops: seq<Op<K, V>>, i: nat)
    requires i < |ops|
    ensures var r, r' := MapRun(m, ops[..i]), MapRun(m, ops[..i + 1]);
            r'.0 == MapStep(r.0, ops[i]).0 && r'.1 == r.1 + [MapStep(r.0, ops[i]).1]
  {
    assert ops[..i + 1][..i] == ops[..i];
  }

  /** Each answer of a run, by what the map held before the operation. */
  lemma {:induction false} RunAnswers<K, V>(m: map<K, V>, ops: seq<Op<K, V>>, i: nat)
    requires i < |ops|
    ensures |MapRun(m, ops).1| == |ops|
    ensures var was, answer := MapRun(m, ops[..i]).0, MapRun(m, ops).1[i];
            match ops[i]
            case Insert(k, v) => answer == Code(if k in was then HT_EXISTS else HT_OK)
            case Remove(k) => answer == Code(if k in was then HT_OK else HT_NOTFOUND)
            case Search(k) => answer == Data(if k in was then Some(was[k]) else None)
            case Grow => answer == Code(HT_OK)
  {
    var n := |ops| - 1;
    RunLength(m, ops[..n]);
    if i < n {
      RunAnswers(m, ops[..n], i);
      assert ops[..n][..i] == ops[..i];
    }
  }

  lemma {:induction false} RunLength<K, V>(m: map<K, V>, ops: seq<Op<K, V>>)
    ensures |MapRun(m, ops).1| == |ops|
  {
    if ops != [] {
      RunLength(m, ops[..|ops| - 1]);
    }
  }

  /** Operation `i` of the run stored `v` under `k`, and nothing has removed it since. */
  ghost predicate StoredBy<K, V>(m: map<K, V>, ops: seq<Op<K, V>>, k: K, v: V, i: nat) {
    && i < |ops| && ops[i] == Insert(k, v) && k !in MapRun(m, ops[..i]).0
    && Remove(k) !in ops[i + 1..]
  }

  /**
   What the map holds after a run: the data of an insert of the key that found it absent, with
   no removal of the key since.
   */
  lemma {:induction false} RunHistory<K, V>(m: map<K, V>, ops: seq<Op<K, V>>, k: K, v: V)
    ensures var now := MapRun(m, ops).0;
            k in now && now[k] == v
            <==> || (k in m && m[k] == v && Remove(k) !in ops)
                 || exists i: nat :: StoredBy(m, ops, k, v, i)
  {
    if ops != [] {
      var n := |ops| - 1;
      RunHistory(m, ops[..n], k, v);
      assert ops == ops[..n] + [ops[n]];
      forall i: nat | i < n
        ensures StoredBy(m, ops, k, v, i) <==> StoredBy(m, ops[..n], k, v, i) && ops[n] != Remove(k)
      {
        assert ops[..n][..i] == ops[..i];
        assert ops[i + 1..] == ops[..n][i + 1..] + [ops[n]];
      }
      assert ops[n + 1..] == [];
      assert StoredBy(m, ops, k, v, n) <==> ops[n] == Insert(k, v) && k !in MapRun(m, ops[..n]).0;
    }
  }

  /** One operation; `htable_grow` called from outside ends the regular growth. */
  method Do<K(==, !new), V>(t: HTable<K, V>, op: Op<K, V>) returns (answer: Answer<V>)
    requires t.Valid()
    modifies t, t.table
    ensures t.Valid() && (fresh(t.table) || t.table == old(t.table))
    ensures t.contents == MapStep(old(t.contents), op).0 && answer == MapStep(old(t.contents), op).1
    ensures old(t.regular) && op != Grow ==> t.regular
  {
    match op {
      case Insert(k, v) =>
        var ret := t.Insert(k, v, true, true);
        answer := Code(ret);
      case Remove(k) =>
        var ret := t.Remove(k);
        answer := Code(ret);
      case Search(k) =>
        var r := t.Search(k);
        answer := Data(r);
      case Grow =>
        t.regular := false;
        var ret := t.Grow(true);
        answer := Code(ret);
    }
  }

  /** Any run of operations on the table answers as the finite map does. */
  method Run<K(==, !new), V>(t: HTable<K, V>, ops: seq<Op<K, V>>) returns (answers: seq<Answer<V>>)
    requires t.Valid()
    modifies t, t.table
    ensures t.Valid()
    ensures t.contents == MapRun(old(t.contents), ops).0 && answers == MapRun(old(t.contents), ops).1
    ensures old(t.regular) && Grow !in ops ==> t.regular
    // n successful inserts cause at most 3n node moves, whatever else is called in between
    ensures t.regular && t.factor >= 1 ==>
      t.moves <= 3 * t.inserts && t.moves + t.limit0 == t.limit + t.grows && t.used <= t.limit
  {
    answers := [];
    assert ops[..0] == [];
    for i := 0 to |ops|
      invariant t.Valid() && (fresh(t.table) || t.table == old(t.table))
      invariant t.contents == MapRun(old(t.contents), ops[..i]).0 && answers == MapRun(old(t.contents), ops[..i]).1
      invariant old(t.regular) && Grow !in ops[..i] ==> t.regular
    {
      MapRunStep(old(t.contents), ops, i);
      var answer := Do(t, ops[i]);
      answers := answers + [answer];
    }
    assert ops[..|ops|] == ops;
  }
}
