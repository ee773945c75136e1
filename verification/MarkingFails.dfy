/** Two machines on which `fsm_set_state` leaves a reachable state unflagged. */
module MarkingFails {
  import opened Powers
  import opened Lists
  import opened Reachability
  import opened HashTable
  import opened HashIterator
  import opened StateTables
  import opened Fsm

  // ----- the state table

  /** An insert of a new key that does not make the table too full. */
  lemma InsertedAt<V>(t: Table<nat, V>, key: nat, data: V, i: nat)
    requires |t.chains| == Pow2(t.logsize) && i < |t.chains| && key % |t.chains| == i
    requires Lookup(t.chains[i], key).None? && NodeCount(t.chains) < t.factor * |t.chains|
    ensures Inserted(t, Identity, key, data, true, true).0 == Appended(t, i, Entry(key, data))
    ensures NodeCount(Appended(t, i, Entry(key, data)).chains) == NodeCount(t.chains) + 1
  {
    IndexInRange(key, t.logsize);
    NodeCountUpdate(t.chains, i, t.chains[i] + [Entry(key, data)]);
  }

  /** A state table of four buckets with the states below `n`. */
  ghost predicate Named(t: Table<nat, nat>, n: nat) {
    && t.logsize == 2 && t.factor == 2 && |t.chains| == 4 == Pow2(2) && NodeCount(t.chains) == n
    && forall i :: 0 <= i < 4 ==> t.chains[i] == if i < n then [Entry(i, i)] else []
  }

  lemma NamedEmpty(t: Table<nat, nat>)
    requires t == EmptyTable(2, 2)
    ensures Named(t, 0)
  {
    assert Pow2(2) == 4;
    NodeCountZero(t.chains);
  }

  lemma NamedNext(t: Table<nat, nat>, n: nat)
    requires Named(t, n) && n < 4
    ensures Named(Inserted(t, Identity, n, n, true, true).0, n + 1)
  {
    InsertedAt(t, n, n, n);
  }

  /** With three states it is walked in the order of the keys, and nothing is left out. */
  lemma NamedInOrder(t: Table<nat, nat>)
    requires Named(t, 3)
    ensures OrderOf(t) == [0, 1, 2] && ShortEnd(t)
  {
    assert t.chains[..0] == [];
    ConcatNext(t.chains, 0);
    ConcatNext(t.chains, 1);
    ConcatNext(t.chains, 2);
    assert WalkOf(t) == [Entry(0, 0), Entry(1, 1), Entry(2, 2)];
  }

  // ----- event tables

  function To(y: nat): Transition { Transition(None, Some(y)) }

  /** An event table of two buckets with events of odd keys, all of them in the last bucket. */
  ghost predicate Odd(t: EventTable, es: seq<Entry<nat, Transition>>) {
    t.logsize == 1 && t.factor == 2 && |t.chains| == 2 == Pow2(1) && t.chains[0] == [] && t.chains[1] == es
  }

  lemma OddWalked(t: EventTable, es: seq<Entry<nat, Transition>>)
    requires Odd(t, es)
    ensures WalkOf(t) == (if es == [] then [] else [es[0]]) && (ShortEnd(t) <==> |es| <= 1)
  {
    assert t.chains[..0] == [];
    ConcatNext(t.chains, 0);
  }

  lemma OddEmpty()
    ensures Odd(NewState(1, 2), []) && Holds(NewState(1, 2), map[])
  {
    NewHolds<Transition>(1, 2);
  }

  /** Another event with an odd key goes to the tail. */
  lemma OddAdded(t: EventTable, es: seq<Entry<nat, Transition>>, evts: map<nat, Transition>, key: nat, y: nat)
    requires Odd(t, es) && Holds(t, evts) && key % 2 == 1 && key !in evts && |es| < 4
    ensures var t' := AddEvt(t, key, To(y), true, true, true).0;
            Odd(t', es + [Entry(key, To(y))]) && Holds(t', evts[key := To(y)])
  {
    assert t.chains[1..][0] == es && t.chains[1..][1..] == [];
    assert NodeCount(t.chains) == NodeCount(t.chains[1..]) == |es|;
    FoundIsMap(t, Identity, evts, key);
    IndexInRange(key, 1);
    InsertedAt(t, key, To(y), 1);
    AddEvtHolds(t, evts, key, To(y), true, true, true);
  }

  // ----- the machines

  method NoEvent() returns (t: EventTable)
    ensures Odd(t, []) && Holds(t, map[])
  {
    OddEmpty();
    t := NewState(1, 2);
  }

  method OneEvent(y: nat) returns (t: EventTable)
    ensures Odd(t, [Entry(7, To(y))]) && Holds(t, map[7 := To(y)])
  {
    var t0 := NoEvent();
    OddAdded(t0, [], map[], 7, y);
    t := AddEvt(t0, 7, To(y), true, true, true).0;
    assert [] + [Entry(7, To(y))] == [Entry(7, To(y))] && map[][7 := To(y)] == map[7 := To(y)];
  }

  /** Events 9 and 7, to states 0 and 2; a walk yields the first of them only. */
  method TwoEvents() returns (t: EventTable)
    ensures Odd(t, [Entry(9, To(0)), Entry(7, To(2))]) && Holds(t, map[9 := To(0), 7 := To(2)])
  {
    var t0 := NoEvent();
    OddAdded(t0, [], map[], 9, 0);
    t := AddEvt(t0, 9, To(0), true, true, true).0;
    assert [] + [Entry(9, To(0))] == [Entry(9, To(0))] && map[][9 := To(0)] == map[9 := To(0)];
    OddAdded(t, [Entry(9, To(0))], map[9 := To(0)], 7, 2);
    t := AddEvt(t, 7, To(2), true, true, true).0;
    assert [Entry(9, To(0))] + [Entry(7, To(2))] == [Entry(9, To(0)), Entry(7, To(2))];
    assert map[9 := To(0)][7 := To(2)] == map[9 := To(0), 7 := To(2)];
  }

  /** The walk of the table yields transitions to just these states, none of them NULL. */
  ghost predicate Leads(t: EventTable, ys: set<nat>) {
    WalkTargets(WalkOf(t)) == ys && HaveTargets(WalkOf(t))
  }

  lemma OddLeads(t: EventTable, es: seq<Entry<nat, Transition>>)
    requires Odd(t, es) && HaveTargets(es)
    ensures Leads(t, if es == [] then {} else {es[0].data.target.value}) && (ShortEnd(t) <==> |es| <= 1)
  {
    OddWalked(t, es);
  }

  lemma OneTarget(y: nat)
    ensures Targets(map[7 := To(y)].Values) == {y}
  {
    var evts := map[7 := To(y)];
    assert evts[7] in evts.Values;
  }

  lemma TwoTargets()
    ensures Targets(map[9 := To(0), 7 := To(2)].Values) == {0, 2}
  {
    var evts := map[9 := To(0), 7 := To(2)];
    assert evts[9] in evts.Values && evts[7] in evts.Values;
  }

  /** What states 0, 1 and 2 have. */
  ghost predicate Three<V>(m: map<nat, V>, of0: V, of1: V, of2: V) {
    m.Keys == {0, 1, 2} && m[0] == of0 && m[1] == of1 && m[2] == of2
  }

  lemma ThreeUpdates<V>(of0: V, of1: V, of2: V)
    ensures var m: map<nat, V> := map[]; Three(m[0 := of0][1 := of1][2 := of2], of0, of1, of2)
  {
  }

  method NewMachine() returns (fsm: Fsm<nat>)
    ensures fresh(fsm) && fsm.Valid() && fsm.marked == {} && fsm.roots == {}
    ensures Named(fsm.sttable, 0) && fsm.evttables == map[] && fsm.tables == map[]
  {
    fsm := new Fsm(2, 2, 0);
    NamedEmpty(fsm.sttable);
  }

  method AddNamed(fsm: Fsm<nat>, n: nat, t: EventTable, ghost evts: map<nat, Transition>)
    requires fsm.Valid() && Named(fsm.sttable, n) && n < 4 && n !in fsm.tables && Holds(t, evts)
    modifies fsm
    ensures fsm.Valid() && Named(fsm.sttable, n + 1)
    ensures fsm.evttables == old(fsm.evttables)[n := t] && fsm.tables == old(fsm.tables)[n := evts]
    ensures fsm.marked == old(fsm.marked) && fsm.roots == old(fsm.roots)
  {
    NamedNext(fsm.sttable, n);
    var r := fsm.AddState(n, t, evts, true, true);
  }

  /** A machine with states 0, 1 and 2. */
  method ThreeStates(t0: EventTable, ghost evts0: map<nat, Transition>,
                     t1: EventTable, ghost evts1: map<nat, Transition>,
                     t2: EventTable, ghost evts2: map<nat, Transition>) returns (fsm: Fsm<nat>)
    requires Holds(t0, evts0) && Holds(t1, evts1) && Holds(t2, evts2)
    ensures fresh(fsm) && fsm.Valid() && fsm.marked == {} && fsm.roots == {}
    ensures Named(fsm.sttable, 3) && Three(fsm.evttables, t0, t1, t2) && Three(fsm.tables, evts0, evts1, evts2)
  {
    fsm := NewMachine();
    AddNamed(fsm, 0, t0, evts0);
    AddNamed(fsm, 1, t1, evts1);
    AddNamed(fsm, 2, t2, evts2);
    ThreeUpdates(t0, t1, t2);
    ThreeUpdates(evts0, evts1, evts2);
  }

  lemma ThreeWalks(evttables: map<nat, EventTable>, t0: EventTable, t1: EventTable, t2: EventTable,
                   ys0: set<nat>, ys1: set<nat>, ys2: set<nat>)
    requires Three(evttables, t0, t1, t2) && Leads(t0, ys0) && Leads(t1, ys1) && Leads(t2, ys2)
    ensures IsGraph(WalkGraph(WalksOf(evttables)), ys0, ys1, ys2)
    ensures Targeted({1}, [0, 1, 2], WalksOf(evttables))
  {
    var order, walks := [0, 1, 2], WalksOf(evttables);
    forall i | 0 <= i < |order|
      ensures order[i] in walks && HaveTargets(walks[order[i]])
    {
      assert order[i] == i;
    }
  }

  lemma ThreeTables(tables: Tables, evts0: map<nat, Transition>, evts1: map<nat, Transition>,
                    evts2: map<nat, Transition>)
    requires Three(tables, evts0, evts1, evts2)
    ensures IsGraph(GraphOf(tables), Targets(evts0.Values), Targets(evts1.Values), Targets(evts2.Values))
  {
  }

  lemma ThreeShort(sttable: Table<nat, nat>, evttables: map<nat, EventTable>,
                   t0: EventTable, t1: EventTable, t2: EventTable)
    requires Three(evttables, t0, t1, t2)
    requires ShortEnd(sttable) && ShortEnd(t0) && ShortEnd(t1) && ShortEnd(t2)
    ensures AllShort(sttable, evttables)
  {
  }

  lemma ChainGraph(tables: Tables)
    requires Three(tables, map[7 := To(2)], map[7 := To(0)], map[])
    ensures IsGraph(GraphOf(tables), {2}, {0}, {})
  {
    ThreeTables(tables, map[7 := To(2)], map[7 := To(0)], map[]);
    OneTarget(2);
    OneTarget(0);
  }

  lemma ChainWalks(sttable: Table<nat, nat>, evttables: map<nat, EventTable>,
                   t0: EventTable, t1: EventTable, t2: EventTable)
    requires Named(sttable, 3) && Three(evttables, t0, t1, t2)
    requires Odd(t0, [Entry(7, To(2))]) && Odd(t1, [Entry(7, To(0))]) && Odd(t2, [])
    ensures AllShort(sttable, evttables) && OrderOf(sttable) == [0, 1, 2]
    ensures IsGraph(WalkGraph(WalksOf(evttables)), {2}, {0}, {})
    ensures Targeted({1}, [0, 1, 2], WalksOf(evttables))
  {
    NamedInOrder(sttable);
    OddLeads(t0, [Entry(7, To(2))]);
    OddLeads(t1, [Entry(7, To(0))]);
    OddLeads(t2, []);
    ThreeShort(sttable, evttables, t0, t1, t2);
    ThreeWalks(evttables, t0, t1, t2, {2}, {0}, {});
  }

  /** Transitions 1 -> 0 -> 2, before a state is set; no last bucket is long. */
  method Chain() returns (fsm: Fsm<nat>)
    ensures fresh(fsm) && fsm.Valid() && fsm.marked == {} && fsm.roots == {} && 1 in fsm.tables
    ensures AllShort(fsm.sttable, fsm.evttables) && fsm.Order() == [0, 1, 2]
    ensures IsGraph(GraphOf(fsm.tables), {2}, {0}, {}) && IsGraph(WalkGraph(fsm.Walks()), {2}, {0}, {})
    ensures Targeted({1}, fsm.Order(), fsm.Walks())
  {
    var t0 := OneEvent(2);
    var t1 := OneEvent(0);
    var t2 := NoEvent();
    fsm := ThreeStates(t0, map[7 := To(2)], t1, map[7 := To(0)], t2, map[]);
    ChainWalks(fsm.sttable, fsm.evttables, t0, t1, t2);
    ChainGraph(fsm.tables);
  }

  /** Transitions 1 -> 0 and 1 -> 2, of which the walk yields the first, before a state is set. */
  method Fork() returns (fsm: Fsm<nat>)
    ensures fresh(fsm) && fsm.Valid() && fsm.marked == {} && fsm.roots == {} && 1 in fsm.tables
    ensures fsm.Order() == [0, 1, 2]
    ensures IsGraph(GraphOf(fsm.tables), {}, {0, 2}, {}) && IsGraph(WalkGraph(fsm.Walks()), {}, {0}, {})
    ensures Targeted({1}, fsm.Order(), fsm.Walks())
  {
    var t0 := NoEvent();
    var t1 := TwoEvents();
    fsm := ThreeStates(t0, map[], t1, map[9 := To(0), 7 := To(2)], t0, map[]);
    NamedInOrder(fsm.sttable);
    OddLeads(t0, []);
    OddLeads(t1, [Entry(9, To(0)), Entry(7, To(2))]);
    ThreeWalks(fsm.evttables, t0, t1, t0, {}, {0}, {});
    ThreeTables(fsm.tables, map[], map[9 := To(0), 7 := To(2)], map[]);
    TwoTargets();
  }

  // ----- what becomes of them

  lemma ChainMisses(whole: Graph, g: Graph, order: seq<nat>)
    requires IsGraph(whole, {2}, {0}, {}) && IsGraph(g, {2}, {0}, {}) && order == [0, 1, 2]
    ensures Reaches(whole, {1}, 2) && 2 !in Pass({1}, order, g)
  {
    OnePassFails(whole);
    OnePassFails(g);
  }

  lemma ForkMisses(whole: Graph, g: Graph, order: seq<nat>)
    requires IsGraph(whole, {}, {0, 2}, {}) && IsGraph(g, {}, {0}, {}) && order == [0, 1, 2]
    ensures Reaches(whole, {1}, 2) && 2 !in Pass({1}, order, g)
    ensures Complete(order, whole) && forall x :: Reaches(whole, {1}, x) ==> ReachesInOrder({1}, order, whole, x)
  {
    SkippedFails(whole, g);
  }

  /** `fsm_set_state(1)` on a machine whose states are not yet flagged. */
  method SetOne(fsm: Fsm<nat>)
    requires fsm.Valid() && fsm.marked == {} && fsm.roots == {} && 1 in fsm.tables
    requires Targeted({1}, fsm.Order(), fsm.Walks())
    modifies fsm
    ensures fsm.Valid() && fsm.roots == {1} && fsm.marked == Pass({1}, fsm.Order(), WalkGraph(fsm.Walks()))
    ensures fsm.sttable == old(fsm.sttable) && fsm.evttables == old(fsm.evttables) && fsm.tables == old(fsm.tables)
  {
    assert fsm.marked + {1} == {1};
    var r := fsm.SetState(1);
  }

  /** The walks leave nothing out, yet after `fsm_set_state(1)` the reachable state 2 is not flagged. */
  method OnePassMisses() returns (fsm: Fsm<nat>)
    ensures fsm.Valid() && AllShort(fsm.sttable, fsm.evttables)
    ensures fsm.roots == {1} && Reaches(GraphOf(fsm.tables), {1}, 2) && 2 !in fsm.marked
  {
    fsm := Chain();
    ChainMisses(GraphOf(fsm.tables), WalkGraph(fsm.Walks()), fsm.Order());
    SetOne(fsm);
  }

  /**
   By the transitions there are, all that state 1 reaches is reached in walk order.  But the walk
   of its events skips one, and after `fsm_set_state(1)` state 2 is not flagged.
   */
  method SkippedEventMisses() returns (fsm: Fsm<nat>)
    ensures fsm.Valid() && Complete(fsm.Order(), GraphOf(fsm.tables))
    ensures forall x :: Reaches(GraphOf(fsm.tables), {1}, x) ==>
      ReachesInOrder({1}, fsm.Order(), GraphOf(fsm.tables), x)
    ensures fsm.roots == {1} && Reaches(GraphOf(fsm.tables), {1}, 2) && 2 !in fsm.marked
  {
    fsm := Fork();
    ForkMisses(GraphOf(fsm.tables), WalkGraph(fsm.Walks()), fsm.Order());
    SetOne(fsm);
  }
}
