/**
 The states of a machine and what they do on events: the contents of `sttable` of `fsm/fsm.c`
 and of the event tables of `fsm/states.c`.  Both are hash tables, held here as the values that
 the operations of `HTable` are proved to compute; in both every key is its own hash.
 */
module StateTables {
  import opened Powers
  import opened Lists
  import opened Reachability
  import opened HashTable
  import opened HashIterator

  datatype Stret = ST_OK | ST_EXISTS | ST_NOMEM

  /** `event_t`: what a state does on an event.  `None` is a NULL pointer. */
  datatype Transition = Transition(action: Option<nat>, target: Option<nat>)

  type EventTable = Table<nat, Transition>

  /** For each registered state its transitions by event key. */
  type Tables = map<nat, map<nat, Transition>>

  /** For each registered state what a walk of its event table yields. */
  type Walks = map<nat, seq<Entry<nat, Transition>>>

  // ----- tables and their walks

  ghost predicate Holds<V>(t: Table<nat, V>, m: map<nat, V>) {
    Refines(t.chains, Identity, t.logsize, m)
  }

  ghost function WalkOf<V>(t: Table<nat, V>): seq<Entry<nat, V>> {
    if t.chains == [] then [] else Walked(t.chains)
  }

  ghost function KeysOf<V>(es: seq<Entry<nat, V>>): seq<nat> {
    seq(|es|, i requires 0 <= i < |es| => es[i].key)
  }

  /** The last bucket holds at most one node. */
  ghost predicate ShortEnd<V>(t: Table<nat, V>) {
    t.chains != [] && |t.chains[|t.chains| - 1]| <= 1
  }

  lemma WalkOfHolds<V>(t: Table<nat, V>, m: map<nat, V>)
    requires Holds(t, m)
    ensures forall e :: e in WalkOf(t) ==> e.key in m && m[e.key] == e.data
    ensures forall k :: k in KeysOf(WalkOf(t)) <==> k in m && Entry(k, m[k]) in WalkOf(t)
    ensures SeesAll(WalkOf(t), m) <==> ShortEnd(t)
  {
    WalkedEntries(t.chains, Identity, t.logsize, m);
    var w := WalkOf(t);
    forall k: nat
      ensures k in KeysOf(w) <==> k in m && Entry(k, m[k]) in w
    {
      if k in KeysOf(w) {
        var i :| 0 <= i < |w| && KeysOf(w)[i] == k;
        assert w[i] in w;
      }
      if k in m && Entry(k, m[k]) in w {
        var i :| 0 <= i < |w| && w[i] == Entry(k, m[k]);
        assert KeysOf(w)[i] == k;
      }
    }
  }

  /** `state_init`. */
  function NewState(logsize: nat, factor: nat): EventTable {
    EmptyTable(logsize, factor)
  }

  lemma NewHolds<V>(logsize: nat, factor: nat)
    ensures Holds<V>(EmptyTable(logsize, factor), map[])
  {
    EmptyRefines<nat, V>(EmptyTable(logsize, factor).chains, Identity, logsize);
  }

  /**
   `state_add_evt`.  `memory` is for key and event, `node` and `growMemory` for the table:
   without `node` nothing is added, and the source returns ST_OK all the same.
   */
  function AddEvt(evttable: EventTable, key: nat, t: Transition, memory: bool, node: bool, growMemory: bool)
    : (EventTable, Stret)
    requires |evttable.chains| == Pow2(evttable.logsize)
  {
    if !memory then (evttable, ST_NOMEM)
    else
      var (evttable', ret) := Inserted(evttable, Identity, key, t, node, growMemory);
      (evttable', if ret == HT_EXISTS then ST_EXISTS else ST_OK)
  }

  lemma AddEvtHolds(evttable: EventTable, evts: map<nat, Transition>, key: nat, t: Transition,
                    memory: bool, node: bool, growMemory: bool)
    requires Holds(evttable, evts)
    ensures var (evttable', ret) := AddEvt(evttable, key, t, memory, node, growMemory);
            && ret == (if !memory then ST_NOMEM else if key in evts then ST_EXISTS else ST_OK)
            && Holds(evttable', if ret == ST_OK && node then evts[key := t] else evts)
  {
    InsertedRefines(evttable, Identity, evts, key, t, node, growMemory);
  }

  // ----- the transition graph

  ghost function Targets(ts: set<Transition>): set<nat> {
    set t | t in ts && t.target.Some? :: t.target.value
  }

  /** All transitions. */
  ghost function GraphOf(tables: Tables): Graph {
    map s | s in tables :: Targets(tables[s].Values)
  }

  ghost function WalkTargets(es: seq<Entry<nat, Transition>>): set<nat> {
    set e | e in es && e.data.target.Some? :: e.data.target.value
  }

  /** The transitions that the walks of the event tables yield. */
  ghost function WalkGraph(walks: Walks): Graph {
    map s | s in walks :: WalkTargets(walks[s])
  }

  /** One state leads to another exactly by an event that is there, or that the walk yields. */
  lemma EdgesAre(tables: Tables, walks: Walks, s: nat, y: nat)
    ensures s in tables ==>
      (y in GraphOf(tables)[s] <==> exists key :: key in tables[s] && tables[s][key].target == Some(y))
    ensures s in walks ==> (y in WalkGraph(walks)[s] <==> exists e :: e in walks[s] && e.data.target == Some(y))
  {
    if s in tables && y in GraphOf(tables)[s] {
      var t :| t in tables[s].Values && t.target == Some(y);
      var key :| key in tables[s] && tables[s][key] == t;
    }
    if s in tables {
      forall key | key in tables[s] && tables[s][key].target == Some(y)
        ensures y in GraphOf(tables)[s]
      {
        assert tables[s][key] in tables[s].Values;
      }
    }
  }

  ghost predicate HaveTargets(es: seq<Entry<nat, Transition>>) {
    forall i :: 0 <= i < |es| ==> es[i].data.target.Some?
  }

  /** The walks yield only what is in the tables. */
  ghost predicate Walkable(walks: Walks, tables: Tables) {
    && walks.Keys == tables.Keys
    && forall s, e :: s in walks && e in walks[s] ==> e.key in tables[s] && tables[s][e.key] == e.data
  }

  /** And all that is in them. */
  ghost predicate WalkedAll(walks: Walks, tables: Tables) {
    walks.Keys == tables.Keys && forall s :: s in walks ==> SeesAll(walks[s], tables[s])
  }

  lemma WalkWithin(walks: Walks, tables: Tables)
    requires Walkable(walks, tables)
    ensures Within(WalkGraph(walks), GraphOf(tables))
    ensures WalkedAll(walks, tables) ==> Within(GraphOf(tables), WalkGraph(walks))
  {
    forall s, y | s in walks && y in WalkTargets(walks[s])
      ensures y in Targets(tables[s].Values)
    {
      var e :| e in walks[s] && e.data.target == Some(y);
      assert tables[s][e.key] in tables[s].Values;
    }
    if WalkedAll(walks, tables) {
      forall s, y | s in tables && y in Targets(tables[s].Values)
        ensures y in WalkTargets(walks[s])
      {
        var k :| k in tables[s] && tables[s][k].target == Some(y);
        assert SeesAll(walks[s], tables[s]) && Entry(k, tables[s][k]) in walks[s];
      }
    }
  }

  /** More states or more transitions make a larger graph. */
  lemma GraphWithin(tables: Tables, tables': Tables)
    requires forall s :: s in tables ==> s in tables' && tables[s].Values <= tables'[s].Values
    ensures Within(GraphOf(tables), GraphOf(tables'))
  {
  }

  // ----- all states

  /** In the state table a state is named by its key. */
  ghost function Names(tables: Tables): map<nat, nat> {
    map s | s in tables :: s
  }

  ghost function OrderOf(sttable: Table<nat, nat>): seq<nat> {
    KeysOf(WalkOf(sttable))
  }

  ghost function WalksOf(evttables: map<nat, EventTable>): Walks {
    map s | s in evttables :: WalkOf(evttables[s])
  }

  /** State table and event tables hold just the states and transitions of `tables`. */
  ghost predicate Registered(sttable: Table<nat, nat>, evttables: map<nat, EventTable>, tables: Tables) {
    && Holds(sttable, Names(tables)) && evttables.Keys == tables.Keys
    && forall s {:trigger Holds(evttables[s], tables[s])} :: s in tables ==> Holds(evttables[s], tables[s])
  }

  /** In no table has the last bucket more than one node. */
  ghost predicate AllShort(sttable: Table<nat, nat>, evttables: map<nat, EventTable>) {
    ShortEnd(sttable) && forall s :: s in evttables ==> ShortEnd(evttables[s])
  }

  /** Walks yield only what is in the tables, and all of it exactly when no last bucket is long. */
  lemma WalksFit(sttable: Table<nat, nat>, evttables: map<nat, EventTable>, tables: Tables)
    requires Registered(sttable, evttables, tables)
    ensures sttable.chains != [] && (forall s :: s in evttables ==> evttables[s].chains != [])
    ensures var order, walks := OrderOf(sttable), WalksOf(evttables);
            && Walkable(walks, tables) && (forall s :: s in order ==> s in tables)
            && (AllShort(sttable, evttables) <==> Complete(order, GraphOf(tables)) && WalkedAll(walks, tables))
  {
    WalkOfHolds(sttable, Names(tables));
    forall s | s in tables
      ensures evttables[s].chains != []
      ensures forall e :: e in WalkOf(evttables[s]) ==> e.key in tables[s] && tables[s][e.key] == e.data
      ensures SeesAll(WalkOf(evttables[s]), tables[s]) <==> ShortEnd(evttables[s])
    {
      assert Holds(evttables[s], tables[s]);
      WalkOfHolds(evttables[s], tables[s]);
    }
  }

  lemma StateAdded(sttable: Table<nat, nat>, evttables: map<nat, EventTable>, tables: Tables, s: nat,
                   evttable: EventTable, evts: map<nat, Transition>, memory: bool, growMemory: bool)
    requires Registered(sttable, evttables, tables) && Holds(evttable, evts)
    ensures var (sttable', ret) := Inserted(sttable, Identity, s, s, memory, growMemory);
            && ret == (if s in tables then HT_EXISTS else if memory then HT_OK else HT_NOMEM)
            && (ret == HT_OK ==> Registered(sttable', evttables[s := evttable], tables[s := evts]))
            && (ret != HT_OK ==> sttable' == sttable)
  {
    InsertedRefines(sttable, Identity, Names(tables), s, s, memory, growMemory);
    assert Names(tables[s := evts]) == Names(tables)[s := s];
  }

  ghost function WithEvent(tables: Tables, s: nat, key: nat, t: Transition): Tables
    requires s in tables
  {
    var evts: map<nat, Transition> := tables[s];
    tables[s := evts[key := t]]
  }

  lemma EventAdded(sttable: Table<nat, nat>, evttables: map<nat, EventTable>, tables: Tables, s: nat,
                   key: nat, t: Transition, memory: bool, node: bool, growMemory: bool)
    requires Registered(sttable, evttables, tables) && s in tables
    ensures Holds(evttables[s], tables[s])
    ensures var (evttable', ret) := AddEvt(evttables[s], key, t, memory, node, growMemory);
            && ret == (if !memory then ST_NOMEM else if key in tables[s] then ST_EXISTS else ST_OK)
            && Registered(sttable, evttables[s := evttable'],
                          if ret == ST_OK && node then WithEvent(tables, s, key, t) else tables)
  {
    assert Holds(evttables[s], tables[s]);
    AddEvtHolds(evttables[s], tables[s], key, t, memory, node, growMemory);
    assert Names(WithEvent(tables, s, key, t)) == Names(tables);
  }
}
