/** The table walk of `htable_get_next_elm`, and exactly when it sees every node. */
module HashIterator {
  import opened Lists
  import opened HashTable

  /** A node, by bucket and by its place in the chain. */
  datatype Cursor = Cursor(bucket: nat, place: nat)

  ghost function Concat<T>(chains: seq<seq<T>>): seq<T> {
    if chains == [] then [] else Concat(chains[..|chains| - 1]) + chains[|chains| - 1]
  }

  /** All chains in bucket order, but of the last one only the head. */
  ghost function Walked<T>(chains: seq<seq<T>>): seq<T>
    requires chains != []
  {
    var last := chains[|chains| - 1];
    Concat(chains[..|chains| - 1]) + if last == [] then [] else [last[0]]
  }

  lemma ConcatNext<T>(chains: seq<seq<T>>, i: nat)
    requires i < |chains|
    ensures Concat(chains[..i + 1]) == Concat(chains[..i]) + chains[i]
  {
    assert chains[..i + 1][..i] == chains[..i];
  }

  lemma {:induction false} ConcatSkip<T>(chains: seq<seq<T>>, i: nat, j: nat)
    requires i <= j <= |chains| && (forall l :: i <= l < j ==> chains[l] == [])
    ensures Concat(chains[..j]) == Concat(chains[..i])
  {
    if i < j {
      ConcatSkip(chains, i, j - 1);
      ConcatNext(chains, j - 1);
    }
  }

  /** The walk misses nodes exactly when the last bucket's chain has more than one. */
  lemma WalkComplete<T>(chains: seq<seq<T>>)
    requires chains != []
    ensures Walked(chains) == Concat(chains) <==> |chains[|chains| - 1]| <= 1
  {
    var n := |chains| - 1;
    assert |Walked(chains)| == |Concat(chains[..n])| + if chains[n] == [] then 0 else 1;
    assert |Concat(chains)| == |Concat(chains[..n])| + |chains[n]|;
    if |chains[n]| == 1 {
      assert chains[n] == [chains[n][0]];
    }
  }

  /** The nodes up to and including node `c`, or none at the start. */
  ghost function UpTo<T>(chains: seq<seq<T>>, at: Option<Cursor>): seq<T>
    requires at.Some? ==> at.value.bucket < |chains| && at.value.place < |chains[at.value.bucket]|
  {
    match at
    case None => []
    case Some(c) => Concat(chains[..c.bucket]) + chains[c.bucket][..c.place + 1]
  }

  /** The first bucket that is still to be scanned. */
  function NextPos(at: Option<Cursor>): nat {
    match at case None => 0 case Some(c) => c.bucket + 1
  }

  /** Leaving a finished chain (or the start) for the next non-empty bucket `b`. */
  lemma EnterBucket<T>(chains: seq<seq<T>>, at: Option<Cursor>, b: nat)
    requires at.Some? ==> at.value.bucket < |chains| && at.value.place + 1 == |chains[at.value.bucket]|
    requires NextPos(at) <= b <= |chains| && (forall l :: NextPos(at) <= l < b ==> chains[l] == [])
    ensures UpTo(chains, at) == Concat(chains[..b])
    ensures b < |chains| && chains[b] != [] ==>
      UpTo(chains, Some(Cursor(b, 0))) == UpTo(chains, at) + [chains[b][0]]
  {
    ConcatSkip(chains, NextPos(at), b);
    assert chains[..0] == [];
    if at.Some? {
      ConcatNext(chains, at.value.bucket);
      assert chains[at.value.bucket][..at.value.place + 1] == chains[at.value.bucket];
    }
    if b < |chains| && chains[b] != [] {
      assert chains[b][..1] == [chains[b][0]];
    }
  }

  lemma NextInChain<T>(chains: seq<seq<T>>, c: Cursor)
    requires c.bucket < |chains| && c.place + 1 < |chains[c.bucket]|
    ensures UpTo(chains, Some(Cursor(c.bucket, c.place + 1))) == UpTo(chains, Some(c)) + [chains[c.bucket][c.place + 1]]
  {
    var chain := chains[c.bucket];
    assert chain[..c.place + 2] == chain[..c.place + 1] + [chain[c.place + 1]];
  }

  /** Where the walk ends, it has seen all but the tail of the last chain. */
  lemma WalkEnds<T>(chains: seq<seq<T>>, at: Option<Cursor>)
    requires chains != []
    requires at.Some? ==> at.value.bucket < |chains| && at.value.place < |chains[at.value.bucket]|
    requires at.Some? && at.value.bucket == |chains| - 1 ==> at.value.place == 0
    requires at.Some? && at.value.bucket < |chains| - 1 ==> at.value.place + 1 == |chains[at.value.bucket]|
    requires forall l :: NextPos(at) <= l < |chains| ==> chains[l] == []
    ensures UpTo(chains, at) == Walked(chains)
  {
    var n := |chains| - 1;
    if at.Some? && at.value.bucket == n {
      assert chains[n][..1] == [chains[n][0]];
    } else {
      EnterBucket(chains, at, n);
    }
  }

  /** The first non-empty chain from `i` on. */
  function FirstFrom<T>(chains: seq<seq<T>>, i: nat): (l: nat)
    ensures i <= |chains| ==> i <= l <= |chains|
    ensures l < |chains| ==> chains[l] != []
    ensures forall m :: i <= m < l && m < |chains| ==> chains[m] == []
    decreases |chains| - i
  {
    if i >= |chains| then |chains| else if chains[i] != [] then i else FirstFrom(chains, i + 1)
  }

  predicate IsNode<T>(chains: seq<seq<T>>, at: Option<Cursor>) {
    at.Some? ==> at.value.bucket < |chains| && at.value.place < |chains[at.value.bucket]|
  }

  /** The node after `at`: none past the last bucket's head, next in the chain, or the next head. */
  function NextNode<T>(chains: seq<seq<T>>, at: Option<Cursor>): Option<Cursor>
    requires IsNode(chains, at)
  {
    if NextPos(at) >= |chains| then None
    else if at.Some? && at.value.place + 1 < |chains[at.value.bucket]| then
      Some(Cursor(at.value.bucket, at.value.place + 1))
    else
      var l := FirstFrom(chains, NextPos(at));
      if l < |chains| then Some(Cursor(l, 0)) else None
  }

  /** Of the last chain only the head can be current. */
  ghost predicate OnTrack<T>(chains: seq<seq<T>>, at: Option<Cursor>) {
    && IsNode(chains, at)
    && (at.Some? && at.value.bucket == |chains| - 1 ==> at.value.place == 0)
  }

  ghost predicate After(c: Cursor, at: Option<Cursor>) {
    at.Some? ==> c.bucket > at.value.bucket || (c.bucket == at.value.bucket && c.place == at.value.place + 1)
  }

  /** A step of the walk goes on to a later node, or it has seen all it will see. */
  lemma WalkStep<T>(chains: seq<seq<T>>, at: Option<Cursor>)
    requires chains != [] && OnTrack(chains, at)
    ensures match NextNode(chains, at)
            case None => UpTo(chains, at) == Walked(chains)
            case Some(c) => OnTrack(chains, Some(c)) && After(c, at)
                            && UpTo(chains, Some(c)) == UpTo(chains, at) + [chains[c.bucket][c.place]]
  {
    var next := NextNode(chains, at);
    if next == None {
      WalkEnds(chains, at);
    } else if at.Some? && next.value.bucket == at.value.bucket {
      NextInChain(chains, at.value);
    } else {
      EnterBucket(chains, at, next.value.bucket);
    }
  }

  /** What was seen on the way is the beginning of the whole walk. */
  lemma SeenIsPrefix<T>(chains: seq<seq<T>>, at: Option<Cursor>)
    requires chains != [] && OnTrack(chains, at)
    ensures UpTo(chains, at) <= Walked(chains)
  {
    if at.Some? {
      var n, b := |chains| - 1, at.value.bucket;
      if b < n {
        ConcatNext(chains, b);
        ConcatPrefix(chains, b + 1, n);
      } else {
        assert chains[n][..1] == [chains[n][0]];
      }
    }
  }

  lemma {:induction false} ConcatPrefix<T>(chains: seq<seq<T>>, i: nat, j: nat)
    requires i <= j <= |chains|
    ensures Concat(chains[..i]) <= Concat(chains[..j])
  {
    if i < j {
      ConcatPrefix(chains, i, j - 1);
      ConcatNext(chains, j - 1);
    }
  }

  /** Together the chains hold exactly the map's entries. */
  lemma {:induction false} ConcatEntry<K(!new), V>(chains: seq<seq<Entry<K, V>>>, hashf: K -> nat, n: nat,
                                                   m: map<K, V>, i: nat, e: Entry<K, V>)
    requires Refines(chains, hashf, n, m) && i <= |chains|
    ensures e in Concat(chains[..i]) <==> e.key in m && m[e.key] == e.data && Home(hashf, e.key, n) < i
  {
    if i > 0 {
      ConcatEntry(chains, hashf, n, m, i - 1, e);
      ConcatNext(chains, i - 1);
      EntryInChain(chains, hashf, n, m, i - 1, e);
    } else {
      assert chains[..0] == [];
    }
  }

  /** No key occurs twice in the whole table. */
  lemma {:induction false} ConcatDistinct<K(!new), V>(chains: seq<seq<Entry<K, V>>>, hashf: K -> nat, n: nat,
                                                      m: map<K, V>, i: nat)
    requires Refines(chains, hashf, n, m) && i <= |chains|
    ensures DistinctKeys(Concat(chains[..i]))
  {
    if i > 0 {
      ConcatDistinct(chains, hashf, n, m, i - 1);
      ConcatNext(chains, i - 1);
      var a, b := Concat(chains[..i - 1]), chains[i - 1];
      assert WellPlaced(b, hashf, |chains|, i - 1);
      forall x, y | 0 <= x < |a| && 0 <= y < |b|
        ensures a[x].key != b[y].key
      {
        ConcatEntry(chains, hashf, n, m, i - 1, a[x]);
        EntryInChain(chains, hashf, n, m, i - 1, b[y]);
        assert a[x] in a && b[y] in b;
      }
    } else {
      assert chains[..0] == [];
    }
  }

  lemma EntryInChain<K(!new), V>(chains: seq<seq<Entry<K, V>>>, hashf: K -> nat, n: nat, m: map<K, V>, i: nat,
                                 e: Entry<K, V>)
    requires Refines(chains, hashf, n, m) && i < |chains|
    ensures e in chains[i] <==> e.key in m && m[e.key] == e.data && Home(hashf, e.key, n) == i
  {
    assert Finds(chains, hashf, n, m, e.key) && WellPlaced(chains[i], hashf, |chains|, i);
    if e in chains[i] {
      var a :| 0 <= a < |chains[i]| && chains[i][a] == e;
      LookupHit(chains[i], a);
    }
    if Home(hashf, e.key, n) == i && e.key in m && m[e.key] == e.data {
      LookupMisses(chains[i], e.key);
      var a :| 0 <= a < |chains[i]| && chains[i][a].key == e.key;
      LookupHit(chains[i], a);
      assert chains[i][a] == e;
    }
  }

  /** Every entry of the map was visited. */
  ghost predicate SeesAll<K, V>(visited: seq<Entry<K, V>>, m: map<K, V>) {
    forall k :: k in m ==> Entry(k, m[k]) in visited
  }

  class HIterator<K(==, !new), V> {
    const htable: HTable<K, V>
    var pos: nat
    var pnode: Option<Cursor>

    /** `htable_iterator_init`. */
    constructor (htable: HTable<K, V>)
      ensures this.htable == htable && pos == 0 && pnode == None
    {
      this.htable, pos, pnode := htable, 0, None;
    }

    /** Between calls the iterator is before the first node, or one past its node's bucket. */
    ghost predicate Valid()
      reads this, htable, htable.table
    {
      htable.Valid() && IsNode(htable.table[..], pnode) && pos == NextPos(pnode)
    }

    /** The first non-empty bucket from `pos` on; `pos` ends one past it. */
    method Scan() returns (r: Option<Cursor>)
      requires htable.Valid() && pos <= htable.size
      modifies this`pos
      ensures var l := FirstFrom(htable.table[..], old(pos));
              if l < htable.size then r == Some(Cursor(l, 0)) && pos == l + 1 else r == None && pos == htable.size
    {
      for i := pos to htable.size
        invariant pos == i && FirstFrom(htable.table[..], i) == FirstFrom(htable.table[..], old(pos))
      {
        pos := pos + 1;
        if htable.table[i] != [] {
          return Some(Cursor(i, 0));
        }
      }
      r := None;
    }

    /** `htable_get_next_elm`. */
    method GetNextElm() returns (r: Option<Cursor>)
      requires Valid()
      modifies this`pos
      ensures r == NextNode(htable.table[..], pnode)
      ensures pos == if r.Some? then NextPos(r) else htable.size
    {
      if pos > htable.size - 1 {
        return None;
      }
      if pos == 0 || pnode == None {
        r := Scan();
        return;
      }
      var c := pnode.value;
      if c.place + 1 < |htable.table[c.bucket]| {
        return Some(Cursor(c.bucket, c.place + 1));
      }
      r := Scan();
    }

    /** The iterator is where a walk of its table gets. */
    ghost predicate Walking()
      reads this, htable, htable.table
    {
      Valid() && OnTrack(htable.table[..], pnode)
    }

    /** The entries that the walk has come to so far. */
    ghost function Seen(): seq<Entry<K, V>>
      requires Walking()
      reads this, htable, htable.table
    {
      UpTo(htable.table[..], pnode)
    }

    /**
     The condition `(it.pnode = htable_get_next_elm(htable, &it)) != NULL` of the callers' loops,
     and the entry that they then look at.
     */
    method Advance() returns (r: Option<Entry<K, V>>)
      requires Walking()
      modifies this
      ensures match r
              case None => old(Seen()) == Walked(htable.table[..])
              case Some(e) => Walking() && Seen() == old(Seen()) + [e] && Seen() <= Walked(htable.table[..])
    {
      WalkStep(htable.table[..], pnode);
      pnode := GetNextElm();
      if pnode == None {
        return None;
      }
      SeenIsPrefix(htable.table[..], pnode);
      r := Some(htable.table[pnode.value.bucket][pnode.value.place]);
    }

    /**
     A loop over the whole table.  It ends, visits nodes in bucket and chain order, each once,
     and stops early only in the last bucket.
     */
    method WalkAll() returns (visited: seq<Entry<K, V>>)
      requires Valid() && pnode == None
      modifies this
      ensures htable.size >= 1 && visited == Walked(htable.table[..])
      ensures DistinctKeys(visited)
      ensures forall e :: e in visited ==> e.key in htable.contents && htable.contents[e.key] == e.data
      ensures SeesAll(visited, htable.contents) <==> |htable.table[htable.size - 1]| <= 1
    {
      visited := Collect();
      WalkedEntries(htable.table[..], htable.hashf, htable.logsize, htable.contents);
    }

    /** The loop itself. */
    method Collect() returns (visited: seq<Entry<K, V>>)
      requires Valid() && pnode == None
      modifies this
      ensures htable.table.Length >= 1 && visited == Walked(htable.table[..])
    {
      visited := [];
      while true
        invariant Walking() && visited == Seen() <= Walked(htable.table[..])
        decreases |Walked(htable.table[..])| - |visited|
      {
        var e := Advance();
        if e == None {
          break;
        }
        visited := visited + [e.value];
      }
    }
  }

  // ----- a table on which the walk misses an entry

  function Identity(k: nat): nat { k }

  /** Two chains, keys 1 and 3, every key its own hash: the walk never sees key 3. */
  lemma WalkFails()
    ensures var chains: seq<seq<Entry<nat, nat>>> := [[], [Entry(1, 10), Entry(3, 30)]];
            && Refines(chains, Identity, 1, map[1 := 10, 3 := 30])
            && Walked(chains) == [Entry(1, 10)]
  {
    var chains: seq<seq<Entry<nat, nat>>> := [[], [Entry(1, 10), Entry(3, 30)]];
    var m: map<nat, nat> := map[1 := 10, 3 := 30];
    IndexInRange(1, 1);
    IndexInRange(3, 1);
    assert WellPlaced(chains[1], Identity, 2, 1) && WellPlaced(chains[0], Identity, 2, 0);
    forall k: nat
      ensures Finds(chains, Identity, 1, m, k)
    {
      IndexInRange(k, 1);
      assert chains[1][1..] == [Entry(3, 30)] && chains[1][1..][1..] == [];
    }
    assert chains[..1] == [[]] && chains[..1][..0] == [];
    assert Concat(chains[..1][..0]) == [] && Concat(chains[..1]) == [];
  }

  /** The table of `WalkFails`, built by calls. */
  method OddTable() returns (t: HTable<nat, nat>)
    ensures fresh(t) && fresh(t.table) && t.Valid() && t.contents == map[1 := 10, 3 := 30]
    ensures t.size == 2 && |t.table[1]| > 1
  {
    t := new HTable(1, 2, 2, Identity);
    var r := t.Insert(1, 10, true, true);
    r := t.Insert(3, 30, true, true);
    OddKeysShareChain(t.table[..], t.logsize, t.contents);
  }

  /** On it the callers' loop ends without having seen every entry. */
  method WalkMisses() returns (t: HTable<nat, nat>, visited: seq<Entry<nat, nat>>)
    ensures t.Valid() && t.contents == map[1 := 10, 3 := 30] && DistinctKeys(visited)
    ensures !SeesAll(visited, t.contents)
  {
    t := OddTable();
    var it := new HIterator(t);
    visited := it.WalkAll();
  }

  /** With two chains, keys 1 and 3 are in the last one. */
  lemma OddKeysShareChain(chains: seq<seq<Entry<nat, nat>>>, n: nat, m: map<nat, nat>)
    requires Refines(chains, Identity, n, m) && |chains| == 2 && 1 in m && 3 in m
    ensures Entry(1, m[1]) in chains[1] && Entry(3, m[3]) in chains[1] && |chains[1]| > 1
  {
    IndexInRange(1, 1);
    IndexInRange(3, 1);
    EntryInChain(chains, Identity, n, m, 1, Entry(1, m[1]));
    EntryInChain(chains, Identity, n, m, 1, Entry(3, m[3]));
  }

  /** What the walk sees of the map, and when that is all of it. */
  lemma WalkedEntries<K(!new), V>(chains: seq<seq<Entry<K, V>>>, hashf: K -> nat, n: nat, m: map<K, V>)
    requires Refines(chains, hashf, n, m) && chains != []
    ensures var w := Walked(chains);
            && DistinctKeys(w) && (forall e :: e in w ==> e.key in m && m[e.key] == e.data)
            && (SeesAll(w, m) <==> |chains[|chains| - 1]| <= 1)
  {
    var w, all, last := Walked(chains), Concat(chains), chains[|chains| - 1];
    assert chains[..|chains|] == chains;
    ConcatDistinct(chains, hashf, n, m, |chains|);
    WalkComplete(chains);
    assert w == all[..|w|];
    forall e | e in w
      ensures e.key in m && m[e.key] == e.data
    {
      ConcatEntry(chains, hashf, n, m, |chains|, e);
    }
    if |last| <= 1 {
      forall k | k in m
        ensures Entry(k, m[k]) in w
      {
        IndexInRange(hashf(k), n);
        ConcatEntry(chains, hashf, n, m, |chains|, Entry(k, m[k]));
      }
    } else {
      var e := last[1];
      assert e == all[|w|];
      ConcatEntry(chains, hashf, n, m, |chains|, e);
      assert e !in w;
    }
  }
}
