/** The event machine of `fsm/fsm.c`: priority queues, transitions, reachability flags. */
module Fsm {
  import opened Lists
  import opened Reachability
  import opened HashTable
  import opened HashIterator
  import opened StateTables

  datatype Fsmret = FSM_OK | FSM_EMPTY | FSM_EPRIO | FSM_EEXISTS | FSM_ENOTFOUND | FSM_ENOMEM

  datatype Pending<D> = Pending(evtkey: nat, data: D, prio: nat)

  /** An action that was executed, with the event's data. */
  datatype Call<D> = Call(action: nat, data: D)

  /** The part of the machine that events change. */
  datatype Config<D> = Config(cstate: nat, log: seq<Call<D>>)

  /** One event: the action runs even when its target turns out to be missing. */
  function Process<D>(tables: Tables, c: Config<D>, evtkey: nat, data: D): (Config<D>, Fsmret)
    requires c.cstate in tables
  {
    if evtkey !in tables[c.cstate] then (c, FSM_ENOTFOUND)
    else
      var t := tables[c.cstate][evtkey];
      var log := if t.action.Some? then c.log + [Call(t.action.value, data)] else c.log;
      if t.target.None? || t.target.value !in tables then (Config(c.cstate, log), FSM_ENOTFOUND)
      else (Config(t.target.value, log), FSM_OK)
  }

  lemma ProcessStaysRegistered<D>(tables: Tables, c: Config<D>, evtkey: nat, data: D)
    requires c.cstate in tables
    ensures Process(tables, c, evtkey, data).0.cstate in tables
  {
  }

  /**
   What one event does, on the tables: the machine moves exactly when its state has the event
   with a registered target, and then to that target; the action runs whatever the target.
   */
  lemma ProcessMeaning<D>(tables: Tables, c: Config<D>, evtkey: nat, data: D)
    requires c.cstate in tables
    ensures var evts, (c', ret) := tables[c.cstate], Process(tables, c, evtkey, data);
            && (ret == FSM_OK || ret == FSM_ENOTFOUND)
            && (ret == FSM_OK <==> exists x :: x in tables && evtkey in evts && evts[evtkey].target == Some(x))
            && (ret == FSM_OK ==> evts[evtkey].target == Some(c'.cstate))
            && (ret != FSM_OK ==> c'.cstate == c.cstate)
            && c'.log == c.log + if evtkey in evts && evts[evtkey].action.Some?
                                 then [Call(evts[evtkey].action.value, data)] else []
  {
    var evts := tables[c.cstate];
    if evtkey in evts && evts[evtkey].target.Some? {
      assert evts[evtkey].target == Some(evts[evtkey].target.value);
    }
  }

  /** Processing a sequence of events one after the other. */
  ghost function ProcessAll<D>(tables: Tables, c: Config<D>, es: seq<Pending<D>>): Config<D>
    requires c.cstate in tables
    decreases |es|
  {
    if es == [] then c
    else
      ProcessStaysRegistered(tables, c, es[0].evtkey, es[0].data);
      ProcessAll(tables, Process(tables, c, es[0].evtkey, es[0].data).0, es[1..])
  }

  /** The configurations on the way: each event's effect, as `ProcessMeaning` has it, in order. */
  lemma {:induction false} ProcessAllMeaning<D>(tables: Tables, c: Config<D>, es: seq<Pending<D>>)
    returns (trace: seq<Config<D>>)
    requires c.cstate in tables
    ensures |trace| == |es| + 1 && trace[0] == c && trace[|es|] == ProcessAll(tables, c, es)
    ensures forall i :: 0 <= i < |es| ==>
      && trace[i].cstate in tables
      && var evts, key := tables[trace[i].cstate], es[i].evtkey;
         && (if key in evts && evts[key].target.Some? && evts[key].target.value in tables
             then trace[i + 1].cstate == evts[key].target.value
             else trace[i + 1].cstate == trace[i].cstate)
         && trace[i + 1].log == trace[i].log + if key in evts && evts[key].action.Some?
                                               then [Call(evts[key].action.value, es[i].data)] else []
    decreases |es|
  {
    if es == [] {
      trace := [c];
    } else {
      var c' := Process(tables, c, es[0].evtkey, es[0].data).0;
      ProcessStaysRegistered(tables, c, es[0].evtkey, es[0].data);
      ProcessMeaning(tables, c, es[0].evtkey, es[0].data);
      var rest := ProcessAllMeaning(tables, c', es[1..]);
      trace := [c] + rest;
      assert es == [es[0]] + es[1..];
    }
  }

  // ----- the queues

  /** All queued events, highest priority first, each queue from its head. */
  ghost function ServeOrder<D>(queues: seq<seq<Pending<D>>>): seq<Pending<D>> {
    if queues == [] then [] else queues[|queues| - 1] + ServeOrder(queues[..|queues| - 1])
  }

  /** The events of one priority, in order. */
  ghost function OfPriority<D>(es: seq<Pending<D>>, p: nat): seq<Pending<D>> {
    if es == [] then []
    else OfPriority(es[..|es| - 1], p) + if es[|es| - 1].prio == p then [es[|es| - 1]] else []
  }

  lemma {:induction false} OfPriorityConcat<D>(a: seq<Pending<D>>, b: seq<Pending<D>>, p: nat)
    ensures OfPriority(a + b, p) == OfPriority(a, p) + OfPriority(b, p)
  {
    if b == [] {
      assert a + b == a;
    } else {
      var n := |b| - 1;
      assert (a + b)[..|a + b| - 1] == a + b[..n];
      OfPriorityConcat(a, b[..n], p);
    }
  }

  lemma {:induction false} OfPriorityUniform<D>(es: seq<Pending<D>>, q: nat, p: nat)
    requires forall i :: 0 <= i < |es| ==> es[i].prio == q
    ensures OfPriority(es, p) == if p == q then es else []
  {
    if es != [] {
      OfPriorityUniform(es[..|es| - 1], q, p);
    }
  }

  lemma {:induction false} NoneOfPriority<D>(es: seq<Pending<D>>, p: nat)
    requires forall i :: 0 <= i < |es| ==> es[i].prio != p
    ensures OfPriority(es, p) == []
  {
    if es != [] {
      NoneOfPriority(es[..|es| - 1], p);
    }
  }

  ghost predicate Filed<D>(queues: seq<seq<Pending<D>>>) {
    forall p, i :: 0 <= p < |queues| && 0 <= i < |queues[p]| ==> queues[p][i].prio == p
  }

  lemma {:induction false} ServeOrderBelow<D>(queues: seq<seq<Pending<D>>>)
    requires Filed(queues)
    ensures forall a :: 0 <= a < |ServeOrder(queues)| ==> ServeOrder(queues)[a].prio < |queues|
  {
    if queues != [] {
      ServeOrderBelow(queues[..|queues| - 1]);
    }
  }

  lemma {:induction false} ServeOrderDescends<D>(queues: seq<seq<Pending<D>>>)
    requires Filed(queues)
    ensures forall a, b :: 0 <= a < b < |ServeOrder(queues)| ==>
      ServeOrder(queues)[a].prio >= ServeOrder(queues)[b].prio
  {
    if queues != [] {
      var n := |queues| - 1;
      ServeOrderDescends(queues[..n]);
      ServeOrderBelow(queues[..n]);
      var first, rest := queues[n], ServeOrder(queues[..n]);
      var all: seq<Pending<D>> := first + rest;
      forall a, b | 0 <= a < b < |all|
        ensures all[a].prio >= all[b].prio
      {
        if a < |first| <= b {
          assert rest[b - |first|].prio < n;
        }
      }
    }
  }

  lemma {:induction false} ServeOrderOfPriority<D>(queues: seq<seq<Pending<D>>>, p: nat)
    requires Filed(queues)
    ensures OfPriority(ServeOrder(queues), p) == if p < |queues| then queues[p] else []
  {
    if queues != [] {
      var n := |queues| - 1;
      ServeOrderOfPriority(queues[..n], p);
      OfPriorityConcat(queues[n], ServeOrder(queues[..n]), p);
      OfPriorityUniform(queues[n], n, p);
    }
  }

  /** The serving order is the stable one: descending priority, first come first served within one. */
  lemma ServeOrderStable<D>(queues: seq<seq<Pending<D>>>)
    requires Filed(queues)
    ensures forall a, b :: 0 <= a < b < |ServeOrder(queues)| ==>
      ServeOrder(queues)[a].prio >= ServeOrder(queues)[b].prio
    ensures forall p: nat :: OfPriority(ServeOrder(queues), p) == if p < |queues| then queues[p] else []
  {
    ServeOrderDescends(queues);
    forall p: nat
      ensures OfPriority(ServeOrder(queues), p) == if p < |queues| then queues[p] else []
    {
      ServeOrderOfPriority(queues, p);
    }
  }

  lemma {:induction false} ServeOrderHead<D>(queues: seq<seq<Pending<D>>>, i: nat)
    requires i < |queues| && queues[i] != [] && (forall p :: i < p < |queues| ==> queues[p] == [])
    ensures ServeOrder(queues) == [queues[i][0]] + ServeOrder(queues[i := queues[i][1..]])
    decreases |queues|
  {
    var n := |queues| - 1;
    if i == n {
      assert queues[i := queues[i][1..]][..n] == queues[..n];
      assert queues[n] == [queues[n][0]] + queues[n][1..];
      assert queues[n] + ServeOrder(queues[..n]) == [queues[n][0]] + (queues[n][1..] + ServeOrder(queues[..n]));
    } else {
      ServeOrderHead(queues[..n], i);
      assert queues[i := queues[i][1..]][..n] == queues[..n][i := queues[i][1..]];
      assert queues[n] == [];
      assert queues[n] + ServeOrder(queues[..n]) == ServeOrder(queues[..n]);
    }
  }

  lemma {:induction false} ServeOrderEmpty<D>(queues: seq<seq<Pending<D>>>)
    ensures ServeOrder(queues) == [] <==> forall p :: 0 <= p < |queues| ==> queues[p] == []
  {
    if queues != [] {
      var n := |queues| - 1;
      ServeOrderEmpty(queues[..n]);
      if ServeOrder(queues) == [] {
        assert |queues[n]| + |ServeOrder(queues[..n])| == 0;
        forall p | 0 <= p < |queues|
          ensures queues[p] == []
        {
          assert p < n ==> queues[..n][p] == queues[p];
        }
      }
    }
  }

  /** Each of `es` went to the tail of its priority's queue. */
  ghost predicate Arrived<D>(was: seq<seq<Pending<D>>>, now: seq<seq<Pending<D>>>, es: seq<Pending<D>>) {
    |now| == |was| && forall p :: 0 <= p < |was| ==> now[p] == was[p] + OfPriority(es, p)
  }

  lemma ArrivedNext<D>(was: seq<seq<Pending<D>>>, now: seq<seq<Pending<D>>>, es: seq<Pending<D>>, e: Pending<D>)
    requires Arrived(was, now, es) && e.prio < |was|
    ensures Arrived(was, now[e.prio := now[e.prio] + [e]], es + [e])
  {
    assert (es + [e])[..|es|] == es;
  }

  // ----- flags

  /**
   No state that is flagged by the time it is walked has a NULL target among its walked
   transitions; `fsm_mark_reachable_states` dereferences the targets of just these states.
   */
  ghost predicate Targeted(marked: set<nat>, order: seq<nat>, walks: Walks) {
    forall i :: 0 <= i < |order| && order[i] in Pass(marked, order[..i], WalkGraph(walks)) ==>
      order[i] in walks && HaveTargets(walks[order[i]])
  }

  /** The flagged states are the roots and states that can be reached from them. */
  ghost predicate Justified(tables: Tables, roots: set<nat>, marked: set<nat>) {
    && roots <= tables.Keys && roots <= marked
    && forall x {:trigger Reaches(GraphOf(tables), roots, x)} :: x in marked ==> Reaches(GraphOf(tables), roots, x)
  }

  /** The flags are "in accordance with reality": just the states the roots reach are flagged. */
  ghost predicate FlagsRight(tables: Tables, roots: set<nat>, marked: set<nat>) {
    forall x :: x in marked <==> Reaches(GraphOf(tables), roots, x)
  }

  /** What the roots reach at all, walked transitions reach in walk order from the flagged states. */
  ghost predicate AllInOrder(tables: Tables, roots: set<nat>, marked: set<nat>, order: seq<nat>, walks: Walks) {
    forall x :: Reaches(GraphOf(tables), roots, x) ==> ReachesInOrder(marked, order, WalkGraph(walks), x)
  }

  /** Flags set before a state or transition was added stay justified. */
  lemma StillJustified(tables: Tables, tables': Tables, roots: set<nat>, marked: set<nat>)
    requires forall s :: s in tables ==> s in tables' && tables[s].Values <= tables'[s].Values
    requires Justified(tables, roots, marked)
    ensures Justified(tables', roots, marked)
  {
    GraphWithin(tables, tables');
    forall x | x in marked
      ensures Reaches(GraphOf(tables'), roots, x)
    {
      ReachesMore(GraphOf(tables), GraphOf(tables'), roots, roots, x);
    }
  }

  /** Marking keeps flags justified, whatever part of the tables the walks yield. */
  lemma PassJustified(tables: Tables, walks: Walks, order: seq<nat>, roots: set<nat>, marked: set<nat>)
    requires Walkable(walks, tables) && Justified(tables, roots, marked)
    ensures Justified(tables, roots, Pass(marked, order, WalkGraph(walks)))
  {
    WalkWithin(walks, tables);
    PassSound(marked, order, WalkGraph(walks), GraphOf(tables), roots);
    PassGrows(marked, order, WalkGraph(walks));
  }

  /** One pass makes the flags right exactly when walked transitions reach everything in walk order. */
  lemma RightAfterPass(tables: Tables, walks: Walks, order: seq<nat>, roots: set<nat>, marked: set<nat>)
    requires Walkable(walks, tables) && Justified(tables, roots, marked)
    ensures FlagsRight(tables, roots, Pass(marked, order, WalkGraph(walks)))
            <==> AllInOrder(tables, roots, marked, order, walks)
  {
    WalkWithin(walks, tables);
    OnePassSuffices(marked, order, WalkGraph(walks), GraphOf(tables), roots);
  }

  /** With complete walks `d` passes flag everything within `d` transitions of a root. */
  lemma DepthFromRoots(tables: Tables, walks: Walks, order: seq<nat>, roots: set<nat>, marked: set<nat>, d: nat)
    requires roots <= marked && Complete(order, GraphOf(tables))
    requires Walkable(walks, tables) && WalkedAll(walks, tables)
    ensures forall p, x :: PathFromTo(GraphOf(tables), roots, p, x) && |p| <= d + 1 ==>
      x in Passes(marked, order, WalkGraph(walks), d)
  {
    WalkWithin(walks, tables);
    forall p, x | PathFromTo(GraphOf(tables), roots, p, x) && |p| <= d + 1
      ensures x in Passes(marked, order, WalkGraph(walks), d)
    {
      PathMore(GraphOf(tables), WalkGraph(walks), roots, marked, p, x);
      PassesReachDepth(marked, order, WalkGraph(walks), d, p, x);
    }
  }

  /** With complete walks as many passes as there are states flag exactly what the roots reach. */
  lemma ExactFromRoots(tables: Tables, walks: Walks, order: seq<nat>, roots: set<nat>, marked: set<nat>)
    requires Justified(tables, roots, marked) && Closed(GraphOf(tables)) && Complete(order, GraphOf(tables))
    requires Walkable(walks, tables) && WalkedAll(walks, tables)
    ensures FlagsRight(tables, roots, Passes(marked, order, WalkGraph(walks), |tables|))
  {
    var g, whole := WalkGraph(walks), GraphOf(tables);
    WalkWithin(walks, tables);
    forall x | x in marked
      ensures x in g && Reaches(whole, roots, x)
    {
      assert Reaches(whole, roots, x);
      var p :| PathFromTo(whole, roots, p, x);
      PathRegistered(whole, roots, p, x);
    }
    assert g.Keys == walks.Keys == tables.Keys;
    assert |g| == |g.Keys| == |tables.Keys| == |tables|;
    PassesSoundWithin(marked, order, g, whole, roots, |tables|);
    forall x | Reaches(whole, roots, x)
      ensures x in Passes(marked, order, g, |tables|)
    {
      ReachesMore(whole, g, roots, marked, x);
      EnoughPasses(marked, order, g, x);
    }
  }

  /** All that marking needs of the tables, and what it makes of the flags. */
  lemma PassFacts(sttable: Table<nat, nat>, evttables: map<nat, EventTable>, tables: Tables, roots: set<nat>,
                  marked: set<nat>)
    requires Registered(sttable, evttables, tables) && Justified(tables, roots, marked)
    ensures sttable.chains != [] && (forall s :: s in evttables ==> evttables[s].chains != [])
    ensures forall s :: s in OrderOf(sttable) ==> s in evttables
    ensures var order, walks := OrderOf(sttable), WalksOf(evttables);
            var now := Pass(marked, order, WalkGraph(walks));
            && Justified(tables, roots, now)
            && (FlagsRight(tables, roots, now) <==> AllInOrder(tables, roots, marked, order, walks))
  {
    WalksFit(sttable, evttables, tables);
    PassJustified(tables, WalksOf(evttables), OrderOf(sttable), roots, marked);
    RightAfterPass(tables, WalksOf(evttables), OrderOf(sttable), roots, marked);
  }

  lemma MoreValues(evts: map<nat, Transition>, key: nat, t: Transition)
    ensures key !in evts ==> evts.Values <= evts[key := t].Values
  {
    forall v | v in evts.Values && key !in evts
      ensures v in evts[key := t].Values
    {
      var k :| k in evts && evts[k] == v;
      assert evts[key := t][k] == v;
    }
  }

  /** `WalkStep`, with what was seen so far as the beginning of the walk. */
  lemma WalkNext<T>(chains: seq<seq<T>>, at: Option<Cursor>)
    requires chains != [] && OnTrack(chains, at)
    ensures match NextNode(chains, at)
            case None => UpTo(chains, at) == Walked(chains)
            case Some(c) => OnTrack(chains, Some(c))
                            && UpTo(chains, Some(c)) == UpTo(chains, at) + [chains[c.bucket][c.place]]
                            && UpTo(chains, Some(c)) <= Walked(chains)
  {
    WalkStep(chains, at);
    var next := NextNode(chains, at);
    if next.Some? {
      SeenIsPrefix(chains, next);
    }
  }

  /** The next node of a walk is the next state of its order, and visiting it is the next step of the pass. */
  lemma NextVisit(seen: seq<Entry<nat, nat>>, node: Entry<nat, nat>, walk: seq<Entry<nat, nat>>,
                  marked: set<nat>, walks: Walks)
    requires seen + [node] <= walk && Targeted(marked, KeysOf(walk), walks)
    ensures node.key in KeysOf(walk)
    ensures var now := Pass(marked, KeysOf(seen), WalkGraph(walks));
            && (node.key in now ==> node.key in walks && HaveTargets(walks[node.key]))
            && Visit(now, node.key, WalkGraph(walks)) == Pass(marked, KeysOf(seen + [node]), WalkGraph(walks))
  {
    var n := |seen|;
    assert walk[n] == (seen + [node])[n];
    assert KeysOf(walk)[n] == node.key && KeysOf(walk)[..n] == KeysOf(seen);
    assert KeysOf(seen + [node])[..n] == KeysOf(seen) && KeysOf(seen + [node])[n] == node.key;
  }

  class Fsm<D> {
    var sttable: Table<nat, nat>            // the registered states
    var evttables: map<nat, EventTable>     // the event table of each of them
    var marked: set<nat>                    // states with the STATE_REACHABLE flag
    var cstate: nat
    var log: seq<Call<D>>
    const nqueues: nat
    const pqtable: array<seq<Pending<D>>>
    ghost var tables: Tables                // what the tables hold
    ghost var roots: set<nat>               // the states passed to fsm_set_state so far

    ghost predicate Valid()
      reads this, pqtable
    {
      && nqueues == pqtable.Length && Filed(pqtable[..])
      && Registered(sttable, evttables, tables) && Justified(tables, roots, marked)
      && (roots != {} ==> cstate in tables)
    }

    /** The states as a walk of the state table yields them. */
    ghost function Order(): seq<nat>
      reads this
    {
      OrderOf(sttable)
    }

    /** What walks of the event tables yield. */
    ghost function Walks(): Walks
      reads this
    {
      WalksOf(evttables)
    }

    /** `fsm_init`, for `2^logsize` buckets. */
    constructor (logsize: nat, factor: nat, nqueues: nat)
      ensures Valid() && fresh(pqtable) && tables == map[] && marked == {} && roots == {} && log == []
      ensures sttable == EmptyTable(logsize, factor) && evttables == map[]
      ensures this.nqueues == nqueues && ServeOrder(pqtable[..]) == []
    {
      sttable, evttables, marked, cstate, log := EmptyTable(logsize, factor), map[], {}, 0, [];
      this.nqueues, tables, roots := nqueues, map[], {};
      pqtable := new seq<Pending<D>>[nqueues];
      new;
      NewHolds<nat>(logsize, factor);
      assert Names(map[]) == map[];
      for i := 0 to nqueues
        invariant forall l :: 0 <= l < i ==> pqtable[l] == []
        modifies pqtable
      {
        pqtable[i] := [];
      }
      ServeOrderEmpty(pqtable[..]);
    }

    ghost function Now(): Config<D>
      reads this
    {
      Config(cstate, log)
    }

    // ----- building the machine

    /**
     `fsm_add_state` for a state with event table `evttable`.  When memory for the table's node
     is short the state is not registered, and the source returns FSM_OK all the same.
     */
    method AddState(s: nat, evttable: EventTable, ghost evts: map<nat, Transition>, memory: bool, growMemory: bool)
      returns (ret: Fsmret)
      requires Valid() && Holds(evttable, evts)
      modifies this`sttable, this`evttables, this`tables
      ensures Valid() && ret == if s in old(tables) then FSM_EEXISTS else FSM_OK
      ensures if s in old(tables) || !memory
              then sttable == old(sttable) && evttables == old(evttables) && tables == old(tables)
              else && sttable == Inserted(old(sttable), Identity, s, s, memory, growMemory).0
                   && evttables == old(evttables)[s := evttable] && tables == old(tables)[s := evts]
    {
      StateAdded(sttable, evttables, tables, s, evttable, evts, memory, growMemory);
      var (sttable', r) := Inserted(sttable, Identity, s, s, memory, growMemory);
      if r == HT_OK {
        StillJustified(tables, tables[s := evts], roots, marked);
        sttable := sttable';
        evttables := evttables[s := evttable];
        tables := tables[s := evts];
      }
      ret := if r == HT_EXISTS then FSM_EEXISTS else FSM_OK;
    }

    /** `state_add_evt` on a registered state. */
    method AddTransition(s: nat, key: nat, t: Transition, memory: bool, node: bool, growMemory: bool)
      returns (ret: Stret)
      requires Valid() && s in tables
      modifies this`evttables, this`tables
      ensures Valid() && ret == if !memory then ST_NOMEM else if key in old(tables)[s] then ST_EXISTS else ST_OK
      ensures tables == if ret == ST_OK && node then WithEvent(old(tables), s, key, t) else old(tables)
      ensures old(Holds(evttables[s], tables[s]))
      ensures evttables == old(evttables)[s := AddEvt(old(evttables)[s], key, t, memory, node, growMemory).0]
    {
      assert Holds(evttables[s], tables[s]);
      EventAdded(sttable, evttables, tables, s, key, t, memory, node, growMemory);
      var (evttable', r) := AddEvt(evttables[s], key, t, memory, node, growMemory);
      evttables := evttables[s := evttable'];
      if r == ST_OK && node {
        MoreValues(tables[s], key, t);
        StillJustified(tables, WithEvent(tables, s, key, t), roots, marked);
        tables := WithEvent(tables, s, key, t);
      }
      ret := r;
    }

    // ----- reachability

    /** `fsm_mark_reachable_states`: one pass over the states and transitions that the walks yield. */
    method MarkReachable()
      requires Valid() && Targeted(marked, Order(), Walks())
      modifies this`marked
      ensures Valid() && marked == Pass(old(marked), Order(), WalkGraph(Walks()))
      ensures FlagsRight(tables, roots, marked) <==> AllInOrder(tables, roots, old(marked), Order(), Walks())
    {
      PassFacts(sttable, evttables, tables, roots, marked);
      MarkAll();
    }

    /** The outer loop. */
    method MarkAll()
      requires sttable.chains != [] && (forall s :: s in evttables ==> evttables[s].chains != [])
      requires Targeted(marked, Order(), Walks()) && (forall s :: s in Order() ==> s in evttables)
      modifies this`marked
      ensures marked == Pass(old(marked), Order(), WalkGraph(Walks()))
    {
      ghost var was, g := marked, WalkGraph(Walks());
      var chains := sttable.chains;
      var sit: Option<Cursor> := None;
      assert KeysOf(UpTo(chains, sit)) == [];
      while true
        invariant OnTrack(chains, sit) && UpTo(chains, sit) <= Walked(chains)
        invariant marked == Pass(was, KeysOf(UpTo(chains, sit)), g)
        decreases |Walked(chains)| - |UpTo(chains, sit)|
      {
        WalkNext(chains, sit);
        ghost var seen := UpTo(chains, sit);
        sit := NextNode(chains, sit);
        if sit == None {
          break;
        }
        var node: Entry<nat, nat> := chains[sit.value.bucket][sit.value.place];
        NextVisit(seen, node, Walked(chains), was, Walks());
        MarkTargets(node.key);
      }
    }

    /** The inner loop: every walked transition of `s` marks its target, if `s` is marked by then. */
    method MarkTargets(s: nat)
      requires s in evttables && evttables[s].chains != [] && (s in marked ==> HaveTargets(Walks()[s]))
      modifies this`marked
      ensures marked == Visit(old(marked), s, WalkGraph(Walks()))
    {
      var chains := evttables[s].chains;
      var eit: Option<Cursor> := None;
      while true
        invariant OnTrack(chains, eit) && UpTo(chains, eit) <= Walked(chains)
        invariant marked == if s in old(marked) then old(marked) + WalkTargets(UpTo(chains, eit)) else old(marked)
        decreases |Walked(chains)| - |UpTo(chains, eit)|
      {
        WalkNext(chains, eit);
        ghost var seen := UpTo(chains, eit);
        eit := NextNode(chains, eit);
        if eit == None {
          break;
        }
        var node: Entry<nat, Transition> := chains[eit.value.bucket][eit.value.place];
        assert node == Walked(chains)[|seen|];
        if s in marked {
          marked := marked + {node.data.target.value};
        }
      }
    }

    /**
     A client that repeats the pass.  When no table's last bucket is long, after `d` passes
     everything within `d` transitions of a state passed to `fsm_set_state` is flagged, and as
     many passes as there are states flag exactly what is reachable from those states.
     */
    method MarkTimes(d: nat)
      requires Valid()
      requires forall i :: 0 <= i < d ==> Targeted(Passes(marked, Order(), WalkGraph(Walks()), i), Order(), Walks())
      modifies this`marked
      ensures Valid() && marked == Passes(old(marked), Order(), WalkGraph(Walks()), d)
      ensures AllShort(sttable, evttables) ==>
        forall p, x :: PathFromTo(GraphOf(tables), roots, p, x) && |p| <= d + 1 ==> x in marked
      ensures AllShort(sttable, evttables) && Closed(GraphOf(tables)) && d == |tables| ==>
        FlagsRight(tables, roots, marked)
    {
      ghost var was := marked;
      for i := 0 to d
        invariant Valid() && marked == Passes(was, Order(), WalkGraph(Walks()), i)
      {
        MarkReachable();
      }
      WalksFit(sttable, evttables, tables);
      if AllShort(sttable, evttables) {
        DepthFromRoots(tables, Walks(), Order(), roots, was, d);
        if Closed(GraphOf(tables)) && d == |tables| {
          ExactFromRoots(tables, Walks(), Order(), roots, was);
        }
      }
    }

    /**
     `fsm_set_state`.  Afterwards the flags are "in accordance with reality" exactly when the
     walked transitions reach, in walk order, all that any transitions reach from the states set.
     */
    method SetState(stkey: nat) returns (ret: Fsmret)
      requires Valid() && (stkey in tables ==> Targeted(marked + {stkey}, Order(), Walks()))
      modifies this`marked, this`roots, this`cstate
      ensures Valid() && ret == if stkey in tables then FSM_OK else FSM_ENOTFOUND
      ensures ret.FSM_ENOTFOUND? ==> cstate == old(cstate) && marked == old(marked) && roots == old(roots)
      ensures ret.FSM_OK? ==> cstate == stkey && roots == old(roots) + {stkey}
                              && marked == Pass(old(marked) + {stkey}, Order(), WalkGraph(Walks()))
      ensures ret.FSM_OK? ==>
        (FlagsRight(tables, roots, marked) <==> AllInOrder(tables, roots, old(marked) + {stkey}, Order(), Walks()))
    {
      FoundIsMap(sttable, Identity, Names(tables), stkey);
      if Found(sttable, Identity, stkey).None? {
        return FSM_ENOTFOUND;
      }
      FlagRoot(stkey);
      MarkReachable();
      ret := FSM_OK;
    }

    /** Makes a registered state current and reachable by itself. */
    method FlagRoot(stkey: nat)
      requires Valid() && stkey in tables
      modifies this`marked, this`roots, this`cstate
      ensures Valid() && marked == old(marked) + {stkey} && roots == old(roots) + {stkey} && cstate == stkey
    {
      ghost var g, from := GraphOf(tables), roots;
      roots := roots + {stkey};
      marked := marked + {stkey};
      cstate := stkey;
      forall x | x in marked
        ensures Reaches(g, roots, x)
      {
        if x == stkey {
          ReachesSelf(g, roots, x);
        } else {
          ReachesMore(g, g, from, roots, x);
        }
      }
    }

    // ----- events

    /** `fsm_queue_event`; `memory` says whether both allocations succeed. */
    method QueueEvent(evtkey: nat, data: D, prio: nat, memory: bool) returns (ret: Fsmret)
      requires Valid()
      modifies pqtable
      ensures Valid()
      ensures ret == if prio >= nqueues then FSM_EPRIO else if memory then FSM_OK else FSM_ENOMEM
      ensures pqtable[..] == if ret == FSM_OK
                             then old(pqtable[..])[prio := old(pqtable[..])[prio] + [Pending(evtkey, data, prio)]]
                             else old(pqtable[..])
    {
      if prio >= nqueues {
        return FSM_EPRIO;
      }
      if !memory {
        return FSM_ENOMEM;
      }
      pqtable[prio] := pqtable[prio] + [Pending(evtkey, data, prio)];
      ret := FSM_OK;
    }

    /** `fsm_process_event`, once a state has been set. */
    method ProcessEvent(evtkey: nat, data: D) returns (ret: Fsmret)
      requires Valid() && cstate in tables
      modifies this`cstate, this`log
      ensures Valid() && cstate in tables
      ensures (Now(), ret) == Process(tables, old(Now()), evtkey, data)
      ensures var evts := tables[old(cstate)];
              && (ret == FSM_OK || ret == FSM_ENOTFOUND)
              && (ret == FSM_OK <==> exists x :: x in tables && evtkey in evts && evts[evtkey].target == Some(x))
              && (ret == FSM_OK ==> evts[evtkey].target == Some(cstate))
              && (ret != FSM_OK ==> cstate == old(cstate))
              && log == old(log) + if evtkey in evts && evts[evtkey].action.Some?
                                   then [Call(evts[evtkey].action.value, data)] else []
    {
      ProcessMeaning(tables, Now(), evtkey, data);
      assert Holds(evttables[cstate], tables[cstate]);
      FoundIsMap(evttables[cstate], Identity, tables[cstate], evtkey);
      var pevt := Found(evttables[cstate], Identity, evtkey);
      if pevt.None? {
        return FSM_ENOTFOUND;
      }
      if pevt.value.action.Some? {
        log := log + [Call(pevt.value.action.value, data)];
      }
      if pevt.value.target.None? {
        return FSM_ENOTFOUND;
      }
      FoundIsMap(sttable, Identity, Names(tables), pevt.value.target.value);
      if Found(sttable, Identity, pevt.value.target.value).None? {
        return FSM_ENOTFOUND;
      }
      cstate := pevt.value.target.value;
      ret := FSM_OK;
    }

    /** `fsm_dequeue_event`: serves and removes the first event of the highest non-empty queue. */
    method DequeueEvent() returns (ret: Fsmret)
      requires Valid() && nqueues > 0 && cstate in tables
      modifies this`cstate, this`log, pqtable
      ensures Valid() && cstate in tables
      ensures ret == if old(ServeOrder(pqtable[..])) == [] then FSM_EMPTY else FSM_OK
      ensures ret == FSM_EMPTY ==> Now() == old(Now()) && pqtable[..] == old(pqtable[..])
      ensures ret == FSM_OK ==> var es := old(ServeOrder(pqtable[..]));
                                && ServeOrder(pqtable[..]) == es[1..]
                                && Now() == Process(tables, old(Now()), es[0].evtkey, es[0].data).0
    {
      ghost var queues := pqtable[..];
      var i := nqueues;
      while i != 0
        invariant 0 <= i <= nqueues == pqtable.Length && pqtable[..] == queues && Now() == old(Now())
        invariant forall p :: i <= p < nqueues ==> pqtable[p] == []
        decreases i
      {
        i := i - 1;
        if pqtable[i] != [] {
          var pnode := pqtable[i][0];
          ServeOrderHead(queues, i);
          var _ := ProcessEvent(pnode.evtkey, pnode.data);
          pqtable[i] := pqtable[i][1..];
          assert pqtable[..] == queues[i := queues[i][1..]];
          return FSM_OK;
        }
      }
      ServeOrderEmpty(queues);
      ret := FSM_EMPTY;
    }

    /** Queues events one by one; each goes to the tail of its own priority's queue. */
    method QueueAll(es: seq<Pending<D>>)
      requires Valid() && (forall i :: 0 <= i < |es| ==> es[i].prio < nqueues)
      modifies pqtable
      ensures Valid()
      ensures forall p :: 0 <= p < nqueues ==> pqtable[p] == old(pqtable[p]) + OfPriority(es, p)
    {
      ghost var was := pqtable[..];
      assert es[..0] == [];
      for i := 0 to |es|
        invariant Valid() && Arrived(was, pqtable[..], es[..i])
      {
        assert es[..i + 1] == es[..i] + [es[i]];
        ArrivedNext(was, pqtable[..], es[..i], es[i]);
        var ret := QueueEvent(es[i].evtkey, es[i].data, es[i].prio, true);
      }
      assert es[..|es|] == es;
      assert forall p :: 0 <= p < nqueues ==> pqtable[p] == pqtable[..][p] == was[p] + OfPriority(es, p);
    }

    /**
     Whatever events arrive at an idle machine, draining it serves each of them once, in
     descending priority and in order of arrival within a priority.
     */
    method QueueAndDrain(es: seq<Pending<D>>) returns (served: nat, ghost order: seq<Pending<D>>)
      requires Valid() && nqueues > 0 && cstate in tables && ServeOrder(pqtable[..]) == []
      requires forall i :: 0 <= i < |es| ==> es[i].prio < nqueues
      modifies this`cstate, this`log, pqtable
      ensures Valid() && served == |order| && ServeOrder(pqtable[..]) == []
      ensures forall a, b :: 0 <= a < b < |order| ==> order[a].prio >= order[b].prio
      ensures forall p: nat :: OfPriority(order, p) == OfPriority(es, p)
      ensures Now() == ProcessAll(tables, old(Now()), order)
    {
      ServeOrderEmpty(pqtable[..]);
      assert forall p :: 0 <= p < nqueues ==> pqtable[p] == [];
      QueueAll(es);
      order := ServeOrder(pqtable[..]);
      ServeOrderStable(pqtable[..]);
      forall p: nat
        ensures OfPriority(order, p) == OfPriority(es, p)
      {
        if p >= nqueues {
          NoneOfPriority(es, p);
        } else {
          assert pqtable[..][p] == pqtable[p];
        }
      }
      ghost var trace;
      served, trace := Drain();
    }

    /** `fsm_get_queued_events`. */
    method GetQueuedEvents() returns (total: nat)
      requires Valid()
      ensures total == |ServeOrder(pqtable[..])|
    {
      total := 0;
      ghost var queues := pqtable[..];
      assert queues[..0] == [];
      for i := 0 to nqueues
        invariant total == |ServeOrder(queues[..i])|
      {
        var phead := pqtable[i];
        ghost var before := total;
        for l := 0 to |phead|
          invariant total == before + l
        {
          total := total + 1;
        }
        assert queues[..i + 1][..i] == queues[..i];
      }
      assert queues[..nqueues] == queues;
    }

    /**
     Dequeues until FSM_EMPTY: every pending event is served, in the stable order.  `trace` is
     the machine before and after each of them.
     */
    method Drain() returns (served: nat, ghost trace: seq<Config<D>>)
      requires Valid() && nqueues > 0 && cstate in tables
      modifies this`cstate, this`log, pqtable
      ensures Valid() && cstate in tables
      ensures served == |old(ServeOrder(pqtable[..]))| && ServeOrder(pqtable[..]) == []
      ensures Now() == ProcessAll(tables, old(Now()), old(ServeOrder(pqtable[..])))
      ensures |trace| == served + 1 && trace[0] == old(Now()) && trace[served] == Now()
      ensures forall i :: 0 <= i < served ==>
        && trace[i].cstate in tables
        && var e, evts := old(ServeOrder(pqtable[..]))[i], tables[trace[i].cstate];
           && (if e.evtkey in evts && evts[e.evtkey].target.Some? && evts[e.evtkey].target.value in tables
               then trace[i + 1].cstate == evts[e.evtkey].target.value
               else trace[i + 1].cstate == trace[i].cstate)
           && trace[i + 1].log == trace[i].log + if e.evtkey in evts && evts[e.evtkey].action.Some?
                                                 then [Call(evts[e.evtkey].action.value, e.data)] else []
    {
      trace := ProcessAllMeaning(tables, Now(), ServeOrder(pqtable[..]));
      served := ServeAll();
    }

    /** The loop that dequeues until FSM_EMPTY. */
    method ServeAll() returns (served: nat)
      requires Valid() && nqueues > 0 && cstate in tables
      modifies this`cstate, this`log, pqtable
      ensures Valid() && cstate in tables
      ensures served == |old(ServeOrder(pqtable[..]))| && ServeOrder(pqtable[..]) == []
      ensures Now() == ProcessAll(tables, old(Now()), old(ServeOrder(pqtable[..])))
    {
      served := 0;
      ghost var final := ProcessAll(tables, Now(), ServeOrder(pqtable[..]));
      ghost var total := |ServeOrder(pqtable[..])|;
      while true
        invariant Valid() && cstate in tables
        invariant served + |ServeOrder(pqtable[..])| == total
        invariant ProcessAll(tables, Now(), ServeOrder(pqtable[..])) == final
        decreases |ServeOrder(pqtable[..])|
      {
        var ret := DequeueEvent();
        if ret == FSM_EMPTY {
          break;
        }
        served := served + 1;
      }
    }
  }
}
