/** The worst-case bound of a bootstrap and the time expected from observed durations. */
module Timing {
  import opened Walks
  import opened Options
  import opened Digraph
  import opened MaxPlus
  import opened Scheduling
  import opened Components
  import opened Events

  /** Integer halving that truncates toward zero. */
  function Half(x: int): (h: int)
    ensures x >= 0 ==> 2 * h <= x <= 2 * h + 1
    ensures x < 0 ==> 2 * h - 1 <= x <= 2 * h
  {
    if x >= 0 then x / 2 else -((-x) / 2)
  }

  function FirstNamed(cs: seq<Component>, ev: string, from: nat): Option<nat>
    requires from <= |cs|
    decreases |cs| - from
  {
    if from == |cs| then None
    else if StartOf(cs[from]) == ev || ReadyOf(cs[from]) == ev then Some(from)
    else FirstNamed(cs, ev, from + 1)
  }

  /** The first component one of whose events has this name. */
  method ComponentOfEvent(cs: seq<Component>, ev: string) returns (c: Option<nat>)
    ensures c == FirstNamed(cs, ev, 0)
    ensures c.Some? ==> c.value < |cs| && (StartOf(cs[c.value]) == ev || ReadyOf(cs[c.value]) == ev)
    ensures c.None? ==> forall i :: 0 <= i < |cs| ==> StartOf(cs[i]) != ev && ReadyOf(cs[i]) != ev
  {
    hide StartOf, ReadyOf;
    for i := 0 to |cs|
      invariant FirstNamed(cs, ev, 0) == FirstNamed(cs, ev, i)
      invariant forall j :: 0 <= j < i ==> StartOf(cs[j]) != ev && ReadyOf(cs[j]) != ev
    {
      if StartOf(cs[i]) == ev || ReadyOf(cs[i]) == ev { return Some(i); }
    }
    return None;
  }

  lemma {:induction false} FirstNamedFinds(cs: seq<Component>, ev: string, from: nat)
    requires from <= |cs|
    ensures var c := FirstNamed(cs, ev, from);
      && (c.Some? ==> c.value < |cs| && (StartOf(cs[c.value]) == ev || ReadyOf(cs[c.value]) == ev))
      && (c.None? ==> forall i :: from <= i < |cs| ==> StartOf(cs[i]) != ev && ReadyOf(cs[i]) != ev)
    decreases |cs| - from
  {
    hide StartOf, ReadyOf;
    if from < |cs| { FirstNamedFinds(cs, ev, from + 1); }
  }

  /** The observed duration in place of a timeout, half a requeue per dependsOn hop. */
  function Reweighed(cs: seq<Component>, requeue: int, obs: map<string, int>, e: Edge): Edge {
    if e.reason == APPLY then
      var c := FirstNamed(cs, e.to, 0);
      FirstNamedFinds(cs, e.to, 0);
      e.(weight := if c.Some? then Get(obs, cs[c.value].Key()) else 0)
    else if e.reason == DEPENDS then e.(weight := Half(requeue))
    else e
  }

  ghost function ReweighAll(cs: seq<Component>, requeue: int, obs: map<string, int>, D: set<Edge>): set<Edge> {
    set e | e in D :: Reweighed(cs, requeue, obs, e)
  }

  method ExpectedGraph(cs: seq<Component>, requeue: int, obs: map<string, int>, g: Graph) returns (eg: Graph)
    requires g.Valid()
    ensures fresh(eg) && eg.Valid() && eg.nodes <= g.nodes
    ensures eg.Edges() == ReweighAll(cs, requeue, obs, g.Edges())
  {
    hide Consistent, EdgeSet, At, Reweighed;
    eg := new Graph();
    ghost var N, E := g.nodes, g.Edges();
    OrderCovers(g);
    assert ReweighAll(cs, requeue, obs, From(E, g.order[..0])) == {};
    for i := 0 to |g.order|
      invariant g.Valid() && g.nodes == N && g.Edges() == E
      invariant fresh(eg) && eg.Valid() && eg.nodes <= N
      invariant eg.Edges() == ReweighAll(cs, requeue, obs, From(E, g.order[..i]))
    {
      OutExact(g, g.order[i]);
      AddReweighed(eg, g.Out(g.order[i]), cs, requeue, obs, N);
      FromSnoc(E, g.order, i, g.Out(g.order[i]));
      ReweighUnion(cs, requeue, obs, From(E, g.order[..i]), Elems(g.Out(g.order[i])));
    }
    assert g.order[..|g.order|] == g.order;
    assert From(E, g.order) == E;
  }

  lemma ReweighUnion(cs: seq<Component>, requeue: int, obs: map<string, int>, A: set<Edge>, B: set<Edge>)
    ensures ReweighAll(cs, requeue, obs, A + B) == ReweighAll(cs, requeue, obs, A) + ReweighAll(cs, requeue, obs, B)
  {
    hide Reweighed;
  }

  method NewWeight(cs: seq<Component>, requeue: int, obs: map<string, int>, e: Edge) returns (w: int)
    ensures e.(weight := w) == Reweighed(cs, requeue, obs, e)
  {
    hide StartOf, ReadyOf, KeyFor;
    w := e.weight;
    if e.reason == APPLY {
      w := 0;
      var c := ComponentOfEvent(cs, e.to);
      if c.Some? && cs[c.value].Key() in obs { w := obs[cs[c.value].Key()]; }
    } else if e.reason == DEPENDS {
      w := Half(requeue);
    }
  }

  lemma ReweighNone(cs: seq<Component>, requeue: int, obs: map<string, int>, es: seq<Edge>)
    ensures ReweighAll(cs, requeue, obs, Elems(es[..0])) == {}
  {
  }

  lemma ReweighSnoc(cs: seq<Component>, requeue: int, obs: map<string, int>, es: seq<Edge>, j: nat)
    requires j < |es|
    ensures ReweighAll(cs, requeue, obs, Elems(es[..j + 1]))
         == ReweighAll(cs, requeue, obs, Elems(es[..j])) + {Reweighed(cs, requeue, obs, es[j])}
  {
    hide Reweighed;
    assert es[..j + 1] == es[..j] + [es[j]];
    assert Elems(es[..j + 1]) == Elems(es[..j]) + {es[j]};
    ReweighUnion(cs, requeue, obs, Elems(es[..j]), {es[j]});
    assert ReweighAll(cs, requeue, obs, {es[j]}) == {Reweighed(cs, requeue, obs, es[j])};
  }

  method AddReweighed(eg: Graph, es: seq<Edge>, cs: seq<Component>, requeue: int, obs: map<string, int>,
                      ghost N: set<string>)
    requires eg.Valid() && eg.nodes <= N && forall e :: e in es ==> e.from in N && e.to in N
    modifies eg
    ensures eg.Valid() && eg.nodes <= N
    ensures eg.Edges() == old(eg.Edges()) + ReweighAll(cs, requeue, obs, Elems(es))
  {
    hide Consistent, EdgeSet, At, Reweighed, ReweighAll, Elems;
    ReweighNone(cs, requeue, obs, es);
    for j := 0 to |es|
      invariant eg.Valid() && eg.nodes <= N
      invariant eg.Edges() == old(eg.Edges()) + ReweighAll(cs, requeue, obs, Elems(es[..j]))
    {
      var e := es[j];
      assert e in es;
      ReweighSnoc(cs, requeue, obs, es, j);
      var w := NewWeight(cs, requeue, obs, e);
      eg.AddEdge(e.(weight := w));
    }
    assert es[..|es|] == es;
  }

  /** Every observation is within the time granted to its component. */
  ghost predicate ObservedWithin(cs: seq<Component>, obs: map<string, int>) {
    forall c :: c in cs ==> 0 <= HealthBound(c) && Get(obs, c.Key()) <= HealthBound(c)
  }

  /** The expected graph is never slower than the worst case, edge by edge. */
  lemma ExpectedCovered(t: Tree, requeue: int, obs: map<string, int>, D: set<Edge>)
    requires WellFormed(t) && Declares(t, requeue, D) && requeue >= 0 && ObservedWithin(t.components, obs)
    ensures CoveredBy(ReweighAll(t.components, requeue, obs, D), D)
  {
    hide Reweighed, Covered, Stated, ObservedWithin;
    forall e | e in D ensures Covered(D, Reweighed(t.components, requeue, obs, e)) {
      var i: nat :| Stated(t, requeue, i, e);
      EdgeCovered(t, requeue, obs, D, i, e);
    }
  }

  lemma EdgeCovered(t: Tree, requeue: int, obs: map<string, int>, D: set<Edge>, i: nat, e: Edge)
    requires WellFormed(t) && Declares(t, requeue, D) && requeue >= 0 && ObservedWithin(t.components, obs)
    requires Stated(t, requeue, i, e)
    ensures Covered(D, Reweighed(t.components, requeue, obs, e))
  {
    hide StartName, ReadyName, KeyFor, HealthBound, FirstNamed;
    var cs := t.components;
    ReasonsApart();
    Single(D, e);
    if e.reason == APPLY {
      FirstNamedFinds(cs, e.to, 0);
      assert e == ApplyEdge(cs[i]);
      var c := FirstNamed(cs, e.to, 0).value;
      EventNamesInjective(cs[c].String(), cs[i].String());
      assert cs[c].String() == cs[i].String();
      var worst := ApplyEdge(cs[c]);
      assert IsApply(t, c, worst);
      assert Stated(t, requeue, c, worst);
      assert cs[c] in cs;
      Single(D, worst);
    }
  }

  lemma ReweighedOrder(cs: seq<Component>, requeue: int, obs: map<string, int>, D: set<Edge>, N: set<string>,
                       order: seq<string>)
    requires TopoOrder(D, N, order)
    ensures TopoOrder(ReweighAll(cs, requeue, obs, D), N, order)
  {
    hide FirstNamed;
  }

  /** The bound of the declared graph, and the expected time when there are
      observations. Both are weights of heaviest walks, and observations that
      respect the timeouts never push the expected time past the bound. */
  method TimingBounds(t: Tree, requeue: int, obs: map<string, int>)
    returns (bound: Option<int>, expected: Option<int>, ghost D: set<Edge>)
    requires WellFormed(t)
    ensures Declares(t, requeue, D)
    ensures bound.Some? <==> Acyclic(D)
    ensures bound.Some? ==> Heaviest(D, bound.value)
    ensures expected.Some? <==> bound.Some? && obs != map[]
    ensures expected.Some? ==> Heaviest(ReweighAll(t.components, requeue, obs, D), expected.value)
    ensures expected.Some? && requeue >= 0 && ObservedWithin(t.components, obs) ==> expected.value <= bound.value
  {
    hide Declares, ScheduleOf, Acyclic, Heaviest, Consistent, EdgeSet, EventNames, ReweighAll, ObservedWithin;
    var g := DeclaredGraph(t, requeue);
    D := g.Edges();
    NamesNotEmpty(t.components);
    var s := Solve(g);
    if s.None? { return None, None, D; }
    MakespanIsHeaviest(D, g.nodes, g.inc, s.value);
    bound, expected := Some(s.value.makespan), None;
    if obs != map[] {
      var eg := ExpectedGraph(t.components, requeue, obs, g);
      ghost var order := OrderOf(D, g.nodes, g.inc, s.value);
      ReweighedOrder(t.components, requeue, obs, D, g.nodes, order);
      ReweighedEnds(t.components, requeue, obs, D, g.nodes);
      TopoAcyclic(eg.Edges(), g.nodes, order);
      var es := Solve(eg);
      MakespanIsHeaviest(eg.Edges(), eg.nodes, eg.inc, es.value);
      expected := Some(es.value.makespan);
      if requeue >= 0 && ObservedWithin(t.components, obs) {
        ExpectedCovered(t, requeue, obs, D);
        CoverBounds(eg.Edges(), D);
      }
    }
  }

  // ---- what a component adds -----------------------------------------------------

  /** What a component is granted: a release its timeout, once and for every
      retry; a Kustomization that waits or checks health its timeout, or without
      one its interval; any other nothing. */
  ghost predicate GrantedTime(c: Component, d: int) {
    if c.kind == HELM_RELEASE then d == c.timeout + c.retries * c.timeout
    else if c.wait || c.health then (c.hasTimeout ==> d == c.timeout) && (!c.hasTimeout ==> d == c.interval)
    else d == 0
  }

  lemma HealthIsGranted(c: Component)
    ensures GrantedTime(c, HealthBound(c))
  {
    assert c.timeout * (1 + c.retries) == c.timeout + c.retries * c.timeout;
  }

  /** The bound is at least the time granted to any one component. */
  lemma BoundCoversEach(t: Tree, requeue: int, D: set<Edge>, m: int, i: nat, d: int)
    requires WellFormed(t) && Declares(t, requeue, D) && Heaviest(D, m)
    requires i < |t.components| && GrantedTime(t.components[i], d)
    ensures d <= m
  {
    hide StartOf, ReadyOf, HealthBound;
    var c := t.components[i];
    HealthIsGranted(c);
    var e := ApplyEdge(c);
    assert IsApply(t, i, e);
    assert Stated(t, requeue, i, e);
    Single(D, e);
  }

  lemma {:induction false} LoneWalk(E: set<Edge>, a: Edge, u: string, p: seq<Edge>, v: string)
    requires E == {a} && a.from != a.to && Walk(E, u, p, v)
    ensures p == [] || p == [a]
    decreases |p|
  {
    if |p| > 0 {
      LoneWalk(E, a, p[0].to, p[1..], v);
    }
  }

  /** The heaviest walk in a graph of one edge. */
  lemma LoneHeaviest(a: Edge, m: int)
    requires a.from != a.to && Heaviest({a}, m)
    ensures m == if a.weight > 0 then a.weight else 0
  {
    var u, p, v :| Walk({a}, u, p, v) && Weight(p) == m;
    LoneWalk({a}, a, u, p, v);
    Single({a}, a);
    assert Walk({a}, "", [], "");
  }

  ghost predicate Alone(t: Tree) {
    |t.components| == 1 && t.components[0].parent.None? && t.components[0].dependsOn == []
  }

  lemma AloneEdges(t: Tree, requeue: int, D: set<Edge>)
    requires WellFormed(t) && Alone(t) && Declares(t, requeue, D)
    ensures D == {ApplyEdge(t.components[0])}
    ensures ApplyEdge(t.components[0]).from != ApplyEdge(t.components[0]).to
  {
    hide StartName, ReadyName, HealthBound;
    var c := t.components[0];
    EventNamesInjective(c.String(), c.String());
    assert IsApply(t, 0, ApplyEdge(c));
    assert Stated(t, requeue, 0, ApplyEdge(c));
  }

  /** A tree of one component takes exactly what that component is granted, and
      is expected to take exactly what was observed of it. */
  lemma AloneExact(t: Tree, requeue: int, obs: map<string, int>, D: set<Edge>, m: int, x: int, d: int)
    requires WellFormed(t) && Alone(t) && Declares(t, requeue, D) && GrantedTime(t.components[0], d)
    requires Heaviest(D, m) && Heaviest(ReweighAll(t.components, requeue, obs, D), x)
    ensures m == if d > 0 then d else 0
    ensures var o := Get(obs, t.components[0].Key()); x == if o > 0 then o else 0
  {
    hide StartOf, ReadyOf, HealthBound, Declares, KeyFor, Heaviest;
    var cs := t.components;
    AloneEdges(t, requeue, D);
    HealthIsGranted(cs[0]);
    LoneHeaviest(ApplyEdge(cs[0]), m);
    FirstNamedFinds(cs, ReadyOf(cs[0]), 0);
    var e := Reweighed(cs, requeue, obs, ApplyEdge(cs[0]));
    assert ReweighAll(cs, requeue, obs, D) == {e};
    LoneHeaviest(e, x);
  }

  /** In the expected graph only apply-to-ready and dependsOn edges are changed,
      and only their weights; a dependsOn edge weighs half a requeue, rounded down. */
  lemma ReweighedWeights(cs: seq<Component>, requeue: int, obs: map<string, int>, D: set<Edge>, e: Edge)
    requires e in ReweighAll(cs, requeue, obs, D)
    ensures exists d :: d in D && d.from == e.from && d.to == e.to && d.reason == e.reason
    ensures e.reason == DEPENDS && requeue >= 0 ==> 2 * e.weight <= requeue <= 2 * e.weight + 1
    ensures e.reason != APPLY && e.reason != DEPENDS ==> e in D
  {
    hide FirstNamed;
    ReasonsApart();
    var d :| d in D && e == Reweighed(cs, requeue, obs, d);
  }

  /** The expected time covers what was observed of any component whose events
      are told apart, and what a dependsOn entry chains: both observations and
      half a requeue. */
  lemma ExpectedCoversEach(t: Tree, requeue: int, obs: map<string, int>, D: set<Edge>, x: int, i: nat)
    requires WellFormed(t) && DistinctNames(t.components) && Declares(t, requeue, D)
    requires Heaviest(ReweighAll(t.components, requeue, obs, D), x) && i < |t.components|
    ensures Get(obs, t.components[i].Key()) <= x
    ensures forall k :: 0 <= k < |t.components[i].dependsOn| ==>
      var key := t.components[i].DepKey(t.components[i].dependsOn[k]);
      key in t.byKey ==>
        Get(obs, t.components[t.byKey[key]].Key()) + Half(requeue) + Get(obs, t.components[i].Key()) <= x
  {
    hide StartOf, ReadyOf, HealthBound, Declares, KeyFor, Heaviest, Half, Reweighed;
    var cs := t.components;
    var E := ReweighAll(cs, requeue, obs, D);
    var a := ObservedEdge(t, requeue, obs, D, i);
    HeaviestBounds(E, x, a.from, [a], a.to);
    forall k | 0 <= k < |cs[i].dependsOn| && cs[i].DepKey(cs[i].dependsOn[k]) in t.byKey
      ensures Get(obs, cs[t.byKey[cs[i].DepKey(cs[i].dependsOn[k])]].Key()) + Half(requeue) + Get(obs, cs[i].Key()) <= x
    {
      var j := t.byKey[cs[i].DepKey(cs[i].dependsOn[k])];
      var b := ObservedEdge(t, requeue, obs, D, j);
      var h := HopEdge(t, requeue, obs, D, i, k);
      Concat(E, b.from, [b], h.from, [h], h.to);
      Concat(E, b.from, [b] + [h], a.from, [a], a.to);
      HeaviestBounds(E, x, b.from, [b] + [h] + [a], a.to);
    }
  }

  lemma HeaviestBounds(E: set<Edge>, m: int, u: string, p: seq<Edge>, v: string)
    requires Heaviest(E, m) && Walk(E, u, p, v)
    ensures Weight(p) <= m
  {
  }

  lemma ObservedEdge(t: Tree, requeue: int, obs: map<string, int>, D: set<Edge>, i: nat) returns (a: Edge)
    requires WellFormed(t) && DistinctNames(t.components) && Declares(t, requeue, D) && i < |t.components|
    ensures a.from == StartOf(t.components[i]) && a.to == ReadyOf(t.components[i])
    ensures a.weight == Get(obs, t.components[i].Key())
    ensures Walk(ReweighAll(t.components, requeue, obs, D), a.from, [a], a.to) && Weight([a]) == a.weight
  {
    hide StartName, ReadyName, HealthBound, KeyFor;
    var cs := t.components;
    var e := ApplyEdge(cs[i]);
    assert IsApply(t, i, e);
    assert Stated(t, requeue, i, e);
    FirstNamedFinds(cs, e.to, 0);
    var c := FirstNamed(cs, e.to, 0).value;
    EventNamesInjective(cs[c].String(), cs[i].String());
    a := Reweighed(cs, requeue, obs, e);
    Single(ReweighAll(cs, requeue, obs, D), a);
  }

  lemma HopEdge(t: Tree, requeue: int, obs: map<string, int>, D: set<Edge>, i: nat, k: nat) returns (h: Edge)
    requires WellFormed(t) && Declares(t, requeue, D) && i < |t.components| && k < |t.components[i].dependsOn|
    requires t.components[i].DepKey(t.components[i].dependsOn[k]) in t.byKey
    ensures var j := t.byKey[t.components[i].DepKey(t.components[i].dependsOn[k])];
      h.from == ReadyOf(t.components[j]) && h.to == StartOf(t.components[i])
    ensures h.weight == Half(requeue)
    ensures Walk(ReweighAll(t.components, requeue, obs, D), h.from, [h], h.to) && Weight([h]) == h.weight
  {
    hide StartOf, ReadyOf, HealthBound, KeyFor, Half, FirstNamed;
    var cs := t.components;
    var e := DependsEdge(cs[t.byKey[cs[i].DepKey(cs[i].dependsOn[k])]], cs[i], requeue);
    assert IsDepends(t, requeue, i, k, e);
    assert Stated(t, requeue, i, e);
    ReasonsApart();
    h := Reweighed(cs, requeue, obs, e);
    Single(ReweighAll(cs, requeue, obs, D), h);
  }

  lemma ReweighedEnds(cs: seq<Component>, requeue: int, obs: map<string, int>, D: set<Edge>, N: set<string>)
    requires EndpointsIn(D, N)
    ensures EndpointsIn(ReweighAll(cs, requeue, obs, D), N)
  {
    hide FirstNamed;
  }
}
