/** What the reachability marking of `fsm/fsm.c` computes, on the graph of transitions. */
module Reachability {

  /** For every state, the targets of its transitions. */
  type Graph = map<nat, set<nat>>

  ghost predicate Closed(g: Graph) {
    forall s, x :: s in g && x in g[s] ==> x in g
  }

  /** The walk of the state table reaches every state. */
  ghost predicate Complete(order: seq<nat>, g: Graph) {
    forall s :: s in g ==> s in order
  }

  /** Marks the targets of `s`, if `s` itself is marked. */
  ghost function Visit(marked: set<nat>, s: nat, g: Graph): set<nat> {
    if s in marked && s in g then marked + g[s] else marked
  }

  /** One call of the marking pass, visiting the states in the given order. */
  ghost function Pass(marked: set<nat>, order: seq<nat>, g: Graph): set<nat> {
    if order == [] then marked
    else Visit(Pass(marked, order[..|order| - 1], g), order[|order| - 1], g)
  }

  ghost function Passes(marked: set<nat>, order: seq<nat>, g: Graph, d: nat): set<nat> {
    if d == 0 then marked else Pass(Passes(marked, order, g, d - 1), order, g)
  }

  // ----- reachability

  ghost predicate IsPath(g: Graph, p: seq<nat>) {
    && p != []
    && forall i :: 0 <= i < |p| - 1 ==> p[i] in g && p[i + 1] in g[p[i]]
  }

  ghost predicate PathFromTo(g: Graph, from: set<nat>, p: seq<nat>, x: nat) {
    IsPath(g, p) && p[0] in from && p[|p| - 1] == x
  }

  ghost predicate Reaches(g: Graph, from: set<nat>, x: nat) {
    exists p :: PathFromTo(g, from, p, x)
  }

  lemma ReachesSelf(g: Graph, from: set<nat>, x: nat)
    requires x in from
    ensures Reaches(g, from, x)
  {
    assert PathFromTo(g, from, [x], x);
  }

  lemma ReachesStep(g: Graph, from: set<nat>, s: nat, x: nat)
    requires Reaches(g, from, s) && s in g && x in g[s]
    ensures Reaches(g, from, x)
  {
    var p :| PathFromTo(g, from, p, s);
    assert PathFromTo(g, from, p + [x], x);
  }

  /** Every state and transition of `g` is also in `g'`. */
  ghost predicate Within(g: Graph, g': Graph) {
    forall s :: s in g ==> s in g' && forall y :: y in g[s] ==> y in g'[s]
  }

  /** More transitions and more starting states lose no path. */
  lemma ReachesMore(g: Graph, g': Graph, from: set<nat>, from': set<nat>, x: nat)
    requires Within(g, g') && from <= from' && Reaches(g, from, x)
    ensures Reaches(g', from', x)
  {
    var p :| PathFromTo(g, from, p, x);
    PathMore(g, g', from, from', p, x);
  }

  lemma PathMore(g: Graph, g': Graph, from: set<nat>, from': set<nat>, p: seq<nat>, x: nat)
    requires Within(g, g') && from <= from' && PathFromTo(g, from, p, x)
    ensures PathFromTo(g', from', p, x)
  {
  }

  /** When all targets are registered, so is everything reachable. */
  lemma PathRegistered(g: Graph, from: set<nat>, p: seq<nat>, x: nat)
    requires Closed(g) && from <= g.Keys && PathFromTo(g, from, p, x)
    ensures x in g
  {
    var n := |p| - 1;
    if n > 0 {
      assert p[n - 1] in g && p[n - 1 + 1] in g[p[n - 1]];
    }
  }

  // ----- one pass

  lemma {:induction false} PassGrows(marked: set<nat>, order: seq<nat>, g: Graph)
    ensures marked <= Pass(marked, order, g)
  {
    if order != [] {
      PassGrows(marked, order[..|order| - 1], g);
    }
  }

  /** A pass over some of the transitions marks nothing that is not reachable. */
  lemma {:induction false} PassSound(marked: set<nat>, order: seq<nat>, g: Graph, whole: Graph, from: set<nat>)
    requires Within(g, whole) && forall x :: x in marked ==> Reaches(whole, from, x)
    ensures forall x :: x in Pass(marked, order, g) ==> Reaches(whole, from, x)
  {
    if order != [] {
      var n := |order| - 1;
      PassSound(marked, order[..n], g, whole, from);
      forall x | x in Pass(marked, order, g)
        ensures Reaches(whole, from, x)
      {
        if x !in Pass(marked, order[..n], g) {
          ReachesStep(whole, from, order[n], x);
        }
      }
    }
  }

  /** A pass marks the targets of every marked state it visits. */
  lemma {:induction false} PassSuccessors(marked: set<nat>, order: seq<nat>, g: Graph, s: nat, x: nat)
    requires s in marked && s in order && s in g && x in g[s]
    ensures x in Pass(marked, order, g)
  {
    var n := |order| - 1;
    PassGrows(marked, order[..n], g);
    if s != order[n] {
      assert s in order[..n];
      PassSuccessors(marked, order[..n], g, s, x);
    }
  }

  /** Positions in the walk, strictly ascending, along transitions from a marked state to `x`. */
  ghost predicate Ascends(marked: set<nat>, order: seq<nat>, g: Graph, idx: seq<nat>, x: nat) {
    && idx != []
    && (forall i :: 0 <= i < |idx| ==> idx[i] < |order| && order[idx[i]] in g)
    && (forall i :: 0 <= i < |idx| - 1 ==> idx[i] < idx[i + 1] && order[idx[i + 1]] in g[order[idx[i]]])
    && order[idx[0]] in marked && x in g[order[idx[|idx| - 1]]]
  }

  ghost predicate ReachesInOrder(marked: set<nat>, order: seq<nat>, g: Graph, x: nat) {
    x in marked || exists idx: seq<nat> :: Ascends(marked, order, g, idx, x)
  }

  /** One pass marks exactly what is reachable through states in the order they are walked. */
  lemma {:induction false} PassExact(marked: set<nat>, order: seq<nat>, g: Graph, x: nat)
    ensures x in Pass(marked, order, g) <==> ReachesInOrder(marked, order, g, x)
    decreases |order|
  {
    if order != [] {
      var n := |order| - 1;
      var s, before := order[n], order[..n];
      PassExact(marked, before, g, x);
      PassExact(marked, before, g, s);
      if x in Pass(marked, order, g) {
        AscendForward(marked, order, g, x);
      }
      if idx: seq<nat> :| Ascends(marked, order, g, idx, x) {
        AscendBack(marked, order, g, idx, x);
      }
    } else {
      forall idx: seq<nat>
        ensures !Ascends(marked, order, g, idx, x)
      {
        assert idx != [] ==> idx[0] >= |order|;
      }
    }
  }

  lemma AscendForward(marked: set<nat>, order: seq<nat>, g: Graph, x: nat)
    requires order != []
    requires var s, before := order[|order| - 1], order[..|order| - 1];
             ReachesInOrder(marked, before, g, x) || (ReachesInOrder(marked, before, g, s) && s in g && x in g[s])
    ensures ReachesInOrder(marked, order, g, x)
  {
    var n := |order| - 1;
    var s, before := order[n], order[..n];
    if ReachesInOrder(marked, before, g, x) {
      if x !in marked {
        var idx: seq<nat> :| Ascends(marked, before, g, idx, x);
        assert Ascends(marked, order, g, idx, x);
      }
    } else if s in marked {
      assert Ascends(marked, order, g, [n], x);
    } else {
      var idx: seq<nat> :| Ascends(marked, before, g, idx, s);
      assert Ascends(marked, order, g, idx + [n], x);
    }
  }

  lemma AscendBack(marked: set<nat>, order: seq<nat>, g: Graph, idx: seq<nat>, x: nat)
    requires order != [] && Ascends(marked, order, g, idx, x)
    ensures var s, before := order[|order| - 1], order[..|order| - 1];
            ReachesInOrder(marked, before, g, x) || (ReachesInOrder(marked, before, g, s) && s in g && x in g[s])
  {
    var n, m := |order| - 1, |idx| - 1;
    var before := order[..n];
    AscendingBound(idx, n);
    if idx[m] < n {
      assert Ascends(marked, before, g, idx, x);
    } else if m > 0 {
      assert Ascends(marked, before, g, idx[..m], order[n]);
    }
  }

  /** In an ascending sequence only the last position can be the largest allowed. */
  lemma AscendingBound(idx: seq<nat>, n: nat)
    requires idx != [] && (forall i :: 0 <= i < |idx| ==> idx[i] <= n)
    requires forall i :: 0 <= i < |idx| - 1 ==> idx[i] < idx[i + 1]
    ensures forall i :: 0 <= i < |idx| - 1 ==> idx[i] < n
  {
    forall i | 0 <= i < |idx| - 1
      ensures idx[i] < n
    {
      assert idx[i] < idx[i + 1];
    }
  }

  /**
   The promise that one pass leaves every flag "in accordance with reality".  The pass walks
   `g`, some of the transitions of `whole`, from flags that are justified by `from`.  It keeps
   the promise exactly when every state that is reachable from there by any transitions can be
   reached along the walk order by walked ones.
   */
  lemma OnePassSuffices(marked: set<nat>, order: seq<nat>, g: Graph, whole: Graph, from: set<nat>)
    requires Within(g, whole) && forall x :: x in marked ==> Reaches(whole, from, x)
    ensures (forall x :: x in Pass(marked, order, g) <==> Reaches(whole, from, x))
            <==> (forall x :: Reaches(whole, from, x) ==> ReachesInOrder(marked, order, g, x))
  {
    PassSound(marked, order, g, whole, from);
    forall x
      ensures x in Pass(marked, order, g) <==> ReachesInOrder(marked, order, g, x)
    {
      PassExact(marked, order, g, x);
    }
  }

  /** States 0, 1 and 2 with the given targets. */
  ghost predicate IsGraph(g: Graph, of0: set<nat>, of1: set<nat>, of2: set<nat>) {
    g.Keys == {0, 1, 2} && g[0] == of0 && g[1] == of1 && g[2] == of2
  }

  /** It fails for the transitions 1 -> 0 -> 2 from state 1, walked in the order of the keys. */
  lemma OnePassFails(g: Graph)
    requires IsGraph(g, {2}, {0}, {})
    ensures Closed(g) && Complete([0, 1, 2], g) && Reaches(g, {1}, 2) && Pass({1}, [0, 1, 2], g) == {0, 1}
  {
    assert PathFromTo(g, {1}, [1, 0, 2], 2);
    ThreeVisits({1}, g);
  }

  /**
   It also fails for 1 -> 0 and 1 -> 2 when the walk of state 1's transitions skips the second,
   though by the transitions there are every reachable state is reached along the walk order.
   */
  lemma SkippedFails(whole: Graph, g: Graph)
    requires IsGraph(whole, {}, {0, 2}, {}) && IsGraph(g, {}, {0}, {})
    ensures Closed(whole) && Complete([0, 1, 2], whole) && Reaches(whole, {1}, 2)
    ensures Pass({1}, [0, 1, 2], g) == {0, 1}
    ensures forall x :: Reaches(whole, {1}, x) ==> ReachesInOrder({1}, [0, 1, 2], whole, x)
  {
    assert PathFromTo(whole, {1}, [1, 2], 2);
    ThreeVisits({1}, g);
    ThreeVisits({1}, whole);
    forall x | Reaches(whole, {1}, x)
      ensures ReachesInOrder({1}, [0, 1, 2], whole, x)
    {
      var p :| PathFromTo(whole, {1}, p, x);
      PathRegistered(whole, {1}, p, x);
      PassExact({1}, [0, 1, 2], whole, x);
    }
  }

  lemma ThreeVisits(marked: set<nat>, g: Graph)
    ensures Pass(marked, [0, 1, 2], g) == Visit(Visit(Visit(marked, 0, g), 1, g), 2, g)
  {
    var order: seq<nat> := [0, 1, 2];
    assert order[..2] == [0, 1] && order[..2][..1] == [0] && order[..2][..1][..0] == [];
    assert Pass(marked, [0], g) == Visit(Pass(marked, [], g), 0, g);
    assert Pass(marked, [0, 1], g) == Visit(Pass(marked, [0], g), 1, g);
  }

  // ----- several passes

  /** After `d` passes everything within `d` transitions is marked. */
  lemma {:induction false} PassesReachDepth(marked: set<nat>, order: seq<nat>, g: Graph, d: nat, p: seq<nat>, x: nat)
    requires Complete(order, g) && PathFromTo(g, marked, p, x) && |p| <= d + 1
    ensures x in Passes(marked, order, g, d)
  {
    if d > 0 {
      var m := |p| - 1;
      if m == 0 {
        PassesReachDepth(marked, order, g, d - 1, p, x);
        PassGrows(Passes(marked, order, g, d - 1), order, g);
      } else {
        PassesReachDepth(marked, order, g, d - 1, p[..m], p[m - 1]);
        PassSuccessors(Passes(marked, order, g, d - 1), order, g, p[m - 1], x);
      }
    }
  }

  lemma PassesSound(marked: set<nat>, order: seq<nat>, g: Graph, d: nat)
    ensures forall x :: x in Passes(marked, order, g, d) ==> Reaches(g, marked, x)
  {
    forall x | x in marked
      ensures Reaches(g, marked, x)
    {
      ReachesSelf(g, marked, x);
    }
    PassesSoundWithin(marked, order, g, g, marked, d);
  }

  /** Passes over some of the transitions mark nothing that is not reachable. */
  lemma {:induction false} PassesSoundWithin(marked: set<nat>, order: seq<nat>, g: Graph, whole: Graph,
                                             from: set<nat>, d: nat)
    requires Within(g, whole) && forall x :: x in marked ==> Reaches(whole, from, x)
    ensures forall x :: x in Passes(marked, order, g, d) ==> Reaches(whole, from, x)
  {
    if d > 0 {
      PassesSoundWithin(marked, order, g, whole, from, d - 1);
      PassSound(Passes(marked, order, g, d - 1), order, g, whole, from);
    }
  }

  lemma {:induction false} PassInside(marked: set<nat>, order: seq<nat>, g: Graph)
    requires Closed(g) && marked <= g.Keys
    ensures Pass(marked, order, g) <= g.Keys
  {
    if order != [] {
      PassInside(marked, order[..|order| - 1], g);
    }
  }

  /** A set that a complete pass does not change contains everything reachable from it. */
  lemma {:induction false} StableIsClosed(m: set<nat>, order: seq<nat>, g: Graph, p: seq<nat>, x: nat)
    requires Complete(order, g) && Pass(m, order, g) == m && PathFromTo(g, m, p, x)
    ensures x in m
  {
    var n := |p| - 1;
    if n > 0 {
      StableIsClosed(m, order, g, p[..n], p[n - 1]);
      PassSuccessors(m, order, g, p[n - 1], x);
    }
  }

  /** Every pass marks a new state until nothing changes any more. */
  lemma {:induction false} GrowsOrStable(marked: set<nat>, order: seq<nat>, g: Graph, d: nat)
    requires Closed(g) && marked <= g.Keys
    ensures marked <= Passes(marked, order, g, d) <= g.Keys
    ensures var m := Passes(marked, order, g, d); Pass(m, order, g) == m || |m| >= |marked| + d
  {
    if d > 0 {
      GrowsOrStable(marked, order, g, d - 1);
      var m0, m := Passes(marked, order, g, d - 1), Passes(marked, order, g, d);
      PassGrows(m0, order, g);
      PassInside(m0, order, g);
      if m != m0 {
        assert |m| == |m0| + |m - m0| by {
          assert m == m0 + (m - m0);
        }
        assert m - m0 != {};
      }
    }
  }

  /** With `n` states, `n` passes mark exactly the reachable states. */
  lemma EnoughPasses(marked: set<nat>, order: seq<nat>, g: Graph, x: nat)
    requires Closed(g) && Complete(order, g) && marked <= g.Keys
    ensures x in Passes(marked, order, g, |g|) <==> Reaches(g, marked, x)
  {
    var m := Passes(marked, order, g, |g|);
    PassesSound(marked, order, g, |g|);
    GrowsOrStable(marked, order, g, |g|);
    if Pass(m, order, g) != m {
      PassGrows(m, order, g);
      PassInside(m, order, g);
      SubsetSize(m, g.Keys);
    }
    if p :| PathFromTo(g, marked, p, x) {
      assert PathFromTo(g, m, p, x);
      StableIsClosed(m, order, g, p, x);
    }
  }

  lemma {:induction false} SubsetSize(a: set<nat>, b: set<nat>)
    requires a <= b
    ensures |a| <= |b|
    ensures |a| == |b| ==> a == b
    decreases |a|
  {
    if a != {} {
      var x :| x in a;
      SubsetSize(a - {x}, b - {x});
      assert a == (a - {x}) + {x} && b == (b - {x}) + {x};
    }
  }
}
