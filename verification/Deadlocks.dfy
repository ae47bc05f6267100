/** When the event graph has a cycle: what nesting alone can and cannot do,
    imports from below, and which edges and imports the rules account for. */
module Deadlocks {
  import opened Walks
  import opened Options
  import opened Digraph
  import opened Components
  import opened Events
  import opened Tarjan
  import opened Bootstrap
  import opened MaxPlus

  // ---- nesting and waiting --------------------------------------------------

  /** The declared graph without its dependsOn edges. */
  ghost function NoDepends(D: set<Edge>): set<Edge> {
    set e | e in D && e.reason != DEPENDS
  }

  /** Starts come in tree order, then readiness in the opposite order. */
  ghost function Rank(cs: seq<Component>, v: string): int {
    if exists i :: 0 <= i < |cs| && v == StartOf(cs[i]) then
      var i :| 0 <= i < |cs| && v == StartOf(cs[i]); i
    else if exists i :: 0 <= i < |cs| && v == ReadyOf(cs[i]) then
      var i :| 0 <= i < |cs| && v == ReadyOf(cs[i]); 2 * |cs| - i
    else 0
  }

  lemma RankIs(cs: seq<Component>, i: nat)
    requires DistinctNames(cs) && i < |cs|
    ensures Rank(cs, StartOf(cs[i])) == i && Rank(cs, ReadyOf(cs[i])) == 2 * |cs| - i
  {
    hide StartName, ReadyName;
    forall j | 0 <= j < |cs|
      ensures (StartOf(cs[i]) == StartOf(cs[j]) || ReadyOf(cs[i]) == ReadyOf(cs[j])) ==> i == j
      ensures ReadyOf(cs[i]) != StartOf(cs[j])
    {
      EventNamesInjective(cs[i].String(), cs[j].String());
      EventNamesInjective(cs[j].String(), cs[i].String());
    }
  }

  lemma NestingRanks(t: Tree, requeue: int, D: set<Edge>, e: Edge)
    requires WellFormed(t) && DistinctNames(t.components) && Declares(t, requeue, D) && e in NoDepends(D)
    ensures Rank(t.components, e.from) < Rank(t.components, e.to)
  {
    hide Rank, DistinctNames, StartOf, ReadyOf;
    var cs := t.components;
    var i: nat :| Stated(t, requeue, i, e);
    RankIs(cs, i);
    if IsNesting(t, i, e) {
      RankIs(cs, cs[i].parent.value);
    }
  }

  lemma {:induction false} NestingReach(t: Tree, requeue: int, D: set<Edge>, a: nat, x: nat)
    requires WellFormed(t) && Declares(t, requeue, D) && x < |t.components| && Above(t.components, a, x)
    ensures a < |t.components|
    ensures Reach(NoDepends(D), StartOf(t.components[a]), StartOf(t.components[x]))
    ensures a != x ==> ReachPlus(NoDepends(D), StartOf(t.components[a]), StartOf(t.components[x]))
    decreases x
  {
    hide StartOf, ReadyOf;
    var cs := t.components;
    if a == x {
      ReachRefl(NoDepends(D), StartOf(cs[x]));
    } else {
      var p := cs[x].parent.value;
      NestingReach(t, requeue, D, a, p);
      var e := CreatedEdge(cs[p], cs[x]);
      assert IsNesting(t, x, e);
      assert Stated(t, requeue, x, e);
      ReasonsApart();
      ReachEdge(NoDepends(D), StartOf(cs[a]), e);
    }
  }

  /** Nesting and waiting alone never deadlock, for trees of any depth and any
      wait flags, exactly when the root's display name is not also the key of
      some component below it. */
  lemma NestingAcyclicExact(t: Tree, requeue: int, D: set<Edge>)
    requires WellFormed(t) && Rooted(t.components) && Declares(t, requeue, D)
    ensures Acyclic(NoDepends(D))
       <==> forall i :: 0 < i < |t.components| ==> t.components[i].Key() != t.components[0].name
  {
    hide StartName, ReadyName, KeyFor;
    var cs := t.components;
    if i :| 0 < i < |cs| && cs[i].Key() == cs[0].name {
      RootAboveAll(cs, i);
      NestingReach(t, requeue, D, 0, i);
      assert StartOf(cs[i]) == StartOf(cs[0]);
    } else {
      assert DistinctNames(cs);
      forall e | e in NoDepends(D) ensures Rank(cs, e.from) < Rank(cs, e.to) {
        NestingRanks(t, requeue, D, e);
      }
      RankAcyclic(NoDepends(D), v => Rank(cs, v));
    }
  }

  // An example: the root is displayed as "a/b", which is also the key of its child.
  const TOP := Component("", "flux-system", "a/b", true, None, [], false, false, 0, 0, false, 0)
  const BELOW := TOP.(namespace := "a", name := "b", isRoot := false, parent := Some(0))
  const COLLIDING := Tree([TOP, BELOW], map["flux-system/a/b" := 0, "a/b" := 1])

  /** Without any dependsOn the declared graph of this tree is cyclic, so the
      scheduler refuses it, although every edge weighs nothing and firing
      everything at once respects them all. */
  lemma RootNameCanCollide(requeue: int, D: set<Edge>)
    requires Declares(COLLIDING, requeue, D)
    ensures Rooted(COLLIDING.components) && !Acyclic(NoDepends(D)) && !Acyclic(D)
    ensures Feasible(D, EventNames(COLLIDING.components), map[])
  {
    hide StartName, ReadyName, Acyclic;
    var cs := COLLIDING.components;
    assert cs[1].Key() == "a/b";
    NestingAcyclicExact(COLLIDING, requeue, D);
    if Acyclic(D) { AcyclicPart(NoDepends(D), D); }
    forall e | e in D ensures e.weight == 0 {
      var i: nat :| Stated(COLLIDING, requeue, i, e);
    }
  }

  lemma AcyclicPart(E: set<Edge>, F: set<Edge>)
    requires E <= F && Acyclic(F)
    ensures Acyclic(E)
  {
    forall u ensures !ReachPlus(E, u, u) { ReachMono(E, F, u, u); }
  }

  // ---- imports from below ---------------------------------------------------

  /** Providers that all lie properly below the consumer never satisfy it. */
  lemma BelowIsNotSatisfied(cs: seq<Component>, consumer: nat, provs: seq<nat>)
    requires ParentsFirst(cs) && consumer < |cs|
    requires forall p :: p in provs ==> p < |cs| && p != consumer && Above(cs, consumer, p)
    ensures !Satisfied(cs, consumer, provs)
  {
    forall p | p in provs ensures !Above(cs, p, consumer) {
      AboveIsOrder(cs, p, p, consumer);
    }
  }

  /** The import of a namespace, a CRD or, by a Kustomization, a source from properly below the consumer. */
  ghost predicate FromBelow(cs: seq<Component>, n: Need)
    requires ParentsFirst(cs) && n.provider < |cs| && n.consumer < |cs|
  {
    && n.provider != n.consumer && Above(cs, n.consumer, n.provider)
    && (|| n.kind == NeedNamespace
        || n.kind == NeedCRD
        || (n.kind == NeedSource && cs[n.consumer].kind != HELM_RELEASE))
  }

  /** A component that imports a namespace, a CRD or a source from something
      only it creates: in the full graph, and in any graph that holds the
      declared edges and the import's, both starts lie in one reported component. */
  lemma ImportFromBelowDeadlocks(t: Tree, requeue: int, D: set<Edge>, n: Need, F: set<Edge>, comps: seq<seq<string>>)
    requires WellFormed(t) && Declares(t, requeue, D) && n.provider < |t.components| && n.consumer < |t.components|
    requires D <= F && NeedEdge(t.components, n) in F
    requires FromBelow(t.components, n) && CyclicComponents(F, comps)
    ensures exists i :: 0 <= i < |comps| && StartOf(t.components[n.consumer]) in comps[i] &&
                        StartOf(t.components[n.provider]) in comps[i]
  {
    hide StartOf, ReadyOf, CyclicComponents;
    var cs := t.components;
    var c, p := StartOf(cs[n.consumer]), StartOf(cs[n.provider]);
    NestingReach(t, requeue, D, n.consumer, n.provider);
    ReachMono(NoDepends(D), F, c, p);
    Single(F, NeedEdge(cs, n));
    if n.kind == NeedCRD {
      var up := ApplyEdge(cs[n.provider]);
      assert IsApply(t, n.provider, up);
      assert Stated(t, requeue, n.provider, up);
      EdgeReach(F, up, c);
    }
    assert Reach(F, p, c);
    MutualListed(F, comps, c, p);
  }

  /** Imports that hold back readiness only, or nothing, never deadlock with
      nesting and waiting, wherever their providers are. */
  lemma LateImportsNeverDeadlock(t: Tree, requeue: int, D: set<Edge>, needs: seq<Need>)
    requires WellFormed(t) && Rooted(t.components) && Declares(t, requeue, D) && NeedsInRange(t.components, needs)
    requires forall i :: 0 < i < |t.components| ==> t.components[i].Key() != t.components[0].name
    requires forall n :: n in needs ==>
      || n.kind == NeedRuntime || n.kind == NeedAPI
      || (n.kind == NeedSource && t.components[n.consumer].kind == HELM_RELEASE)
    ensures Acyclic(NoDepends(D) + NeedEdges(t.components, needs))
  {
    hide StartOf, ReadyOf, KeyFor, Rank, Declares, KindName;
    var cs := t.components;
    NamesDistinct(cs);
    forall e | e in NoDepends(D) + NeedEdges(cs, needs) ensures Rank(cs, e.from) < Rank(cs, e.to) {
      if e in NoDepends(D) {
        NestingRanks(t, requeue, D, e);
      } else {
        var n :| n in needs && Matters(cs, n) && e == NeedEdge(cs, n);
        RankIs(cs, n.provider);
        RankIs(cs, n.consumer);
      }
    }
    RankAcyclic(NoDepends(D) + NeedEdges(cs, needs), v => Rank(cs, v));
  }

  lemma NamesDistinct(cs: seq<Component>)
    requires Rooted(cs) && forall i :: 0 < i < |cs| ==> cs[i].Key() != cs[0].name
    ensures DistinctNames(cs)
  {
    hide KeyFor;
  }

  /** Two nodes of which one reaches the other in steps and is reached back share a reported component. */
  lemma MutualListed(E: set<Edge>, comps: seq<seq<string>>, u: string, v: string)
    requires CyclicComponents(E, comps) && ReachPlus(E, u, v) && Reach(E, v, u)
    ensures exists i :: 0 <= i < |comps| && u in comps[i] && v in comps[i]
  {
    PlusIsReach(E, u, v);
    ReachTrans(E, u, v, u);
    assert Listed(comps, u);
    var i :| 0 <= i < |comps| && u in comps[i];
    assert Mutual(E, u, v);
    assert v in Elems(comps[i]);
  }

  // ---- edges on cycles ------------------------------------------------------

  /** An edge lies on a cycle exactly when both its ends are in one reported component. */
  lemma EdgeOnCycle(E: set<Edge>, comps: seq<seq<string>>, e: Edge)
    requires CyclicComponents(E, comps) && e in E
    ensures Reach(E, e.to, e.from) <==> exists i :: 0 <= i < |comps| && e.from in comps[i] && e.to in comps[i]
  {
    Single(E, e);
    if Reach(E, e.to, e.from) {
      MutualListed(E, comps, e.from, e.to);
    }
    forall i | 0 <= i < |comps| && e.from in comps[i] && e.to in comps[i] ensures Reach(E, e.to, e.from) {
      assert e.from in Elems(comps[i]) && e.to in Elems(comps[i]);
      assert Mutual(E, e.from, e.to);
    }
  }

  // ---- every import is accounted for -----------------------------------------

  /** The imports reported as an ordering that is relied on but not declared. */
  method OrderingRules(cs: seq<Component>, needs: seq<Need>, g: Graph) returns (reported: seq<Need>)
    requires NeedsInRange(cs, needs) && g.Valid()
    ensures forall n :: n in reported <==> n in needs && Unordered(cs, g.Edges(), n)
  {
    hide NeedEdge, Consistent, EdgeSet, ReachPlus, Unordered;
    reported := [];
    for i := 0 to |needs|
      invariant forall n :: n in needs[..i] ==> n in needs
      invariant forall n :: n in reported <==> n in needs[..i] && Unordered(cs, g.Edges(), n)
    {
      var n := needs[i];
      assert n in needs;
      assert needs[..i + 1] == needs[..i] + [n];
      UnorderedEdge(cs, g.Edges(), n);
      if Matters(cs, n) && n.kind != NeedRuntime {
        var e := NeedEdge(cs, n);
        var after := g.Reachable(e.from, e.to, None);
        var before := g.Reachable(e.to, e.from, None);
        if !(after || before) { reported := reported + [n]; }
      }
    }
    assert needs[..|needs|] == needs;
  }

  /** The import, not of something that only shows at run time, places two
      events in an order that D does not know of, either way round. */
  ghost predicate Unordered(cs: seq<Component>, D: set<Edge>, n: Need) {
    n.provider < |cs| && n.consumer < |cs| && n.kind != NeedRuntime &&
    exists u, v :: Orders(cs, n, u, v) && !ReachPlus(D, u, v) && !ReachPlus(D, v, u)
  }

  lemma UnorderedEdge(cs: seq<Component>, D: set<Edge>, n: Need)
    requires n.provider < |cs| && n.consumer < |cs|
    ensures var e := NeedEdge(cs, n);
      Unordered(cs, D, n)
      <==> Matters(cs, n) && n.kind != NeedRuntime && !ReachPlus(D, e.from, e.to) && !ReachPlus(D, e.to, e.from)
  {
    hide Orders, NeedEdge, Matters, ReachPlus;
    NeedEdgeOrders(cs, n, NeedEdge(cs, n).from, NeedEdge(cs, n).to);
    if Unordered(cs, D, n) {
      var u, v :| Orders(cs, n, u, v) && !ReachPlus(D, u, v) && !ReachPlus(D, v, u);
      NeedEdgeOrders(cs, n, u, v);
    }
  }

  /** No import falls through: it is ordered by what is declared, or it sits
      inside a reported deadlock, or it is reported as undeclared. */
  lemma NoNeedFallsThrough(cs: seq<Component>, D: set<Edge>, needs: seq<Need>, comps: seq<seq<string>>, n: Need,
                           u: string, v: string)
    requires NeedsInRange(cs, needs) && n in needs && Orders(cs, n, u, v) && n.kind != NeedRuntime
    requires CyclicComponents(D + NeedEdges(cs, needs), comps)
    ensures || ReachPlus(D, u, v)
            || (exists i :: 0 <= i < |comps| && u in comps[i] && v in comps[i])
            || Unordered(cs, D, n)
  {
    hide NeedEdge, Orders, Matters, CyclicComponents;
    NeedEdgeOrders(cs, n, u, v);
    var e, F := NeedEdge(cs, n), D + NeedEdges(cs, needs);
    assert e in NeedEdges(cs, needs);
    if ReachPlus(D, e.to, e.from) {
      ReachMono(D, F, e.to, e.from);
      PlusIsReach(F, e.to, e.from);
      Single(F, e);
      MutualListed(F, comps, e.from, e.to);
    }
  }

  // ---- the deadlock rule -------------------------------------------------------

  /** One reported deadlock: its events, and the edges among them other than apply-to-ready. */
  datatype Finding = Finding(events: seq<string>, edges: seq<Edge>)

  ghost predicate FindingOf(E: set<Edge>, comp: seq<string>, f: Finding) {
    f.events == comp &&
    forall e :: e in f.edges <==> e in E && e.from in comp && e.to in comp && e.reason != APPLY
  }

  ghost function EventsOf(findings: seq<Finding>): seq<seq<string>> {
    seq(|findings|, i requires 0 <= i < |findings| => findings[i].events)
  }

  /** One finding per component with a cycle, each with its own edges. */
  ghost predicate FindingsOf(E: set<Edge>, findings: seq<Finding>) {
    && CyclicComponents(E, EventsOf(findings))
    && forall i :: 0 <= i < |findings| ==> FindingOf(E, findings[i].events, findings[i])
  }

  /** What the findings say about every run of the event graph that cannot go on. */
  ghost predicate ExplainsRuns(E: set<Edge>, N: set<string>, findings: seq<Finding>) {
    forall r :: Run(E, N, r) && Maximal(E, N, r) ==>
      && (forall v :: v in N ==> (v in r <==> !Behind(E, EventsOf(findings), v)))
      && ((forall v :: v in N ==> v in r) <==> findings == [])
  }

  /** One finding per component with a cycle of the full graph, and none exactly
      when every run that cannot go on has fired every event. */
  method DeadlockRule(t: Tree, requeue: int, needs: seq<Need>) returns (findings: seq<Finding>)
    requires WellFormed(t) && NeedsInRange(t.components, needs)
    ensures forall D :: Declares(t, requeue, D) ==>
      && FindingsOf(D + NeedEdges(t.components, needs), findings)
      && ExplainsRuns(D + NeedEdges(t.components, needs), EventNames(t.components), findings)
    ensures forall n :: n in needs && FromBelow(t.components, n) ==>
      Reported(findings, StartOf(t.components[n.consumer]), StartOf(t.components[n.provider]))
  {
    assert ParentsFirst(t.components);
    hide StartOf, FromBelow, Reported, FindingsOf, ExplainsRuns;
    hide CyclicComponents, Declares, NeedEdges, EventNames, Consistent, EdgeSet, WellFormed;
    var full, D := FullGraph(t, requeue, needs);
    var comps := Cycles(full);
    findings := Findings(full, comps);
    RunsExplained(full.Edges(), full.nodes, findings);
    forall D' | Declares(t, requeue, D') ensures D' == D { DeclaresUnique(t, requeue, D, D'); }
    forall n | n in needs && FromBelow(t.components, n)
      ensures Reported(findings, StartOf(t.components[n.consumer]), StartOf(t.components[n.provider]))
    {
      NeedFromBelow(t, requeue, D, needs, n, findings, comps);
    }
  }

  /** One finding per component, in their order. */
  method Findings(full: Graph, comps: seq<seq<string>>) returns (findings: seq<Finding>)
    requires full.Valid() && CyclicComponents(full.Edges(), comps)
    ensures EventsOf(findings) == comps && FindingsOf(full.Edges(), findings)
  {
    hide CyclicComponents, Consistent, EdgeSet;
    ghost var E := full.Edges();
    findings := [];
    for i := 0 to |comps|
      invariant |findings| == i
      invariant forall j :: 0 <= j < i ==> findings[j].events == comps[j] && FindingOf(E, comps[j], findings[j])
    {
      var within := full.EdgesWithin(comps[i]);
      var edges := DropApply(within);
      findings := findings + [Finding(comps[i], edges)];
    }
    assert EventsOf(findings) == comps;
  }

  lemma RunsExplained(E: set<Edge>, N: set<string>, findings: seq<Finding>)
    requires EndpointsIn(E, N) && CyclicComponents(E, EventsOf(findings))
    ensures ExplainsRuns(E, N, findings)
  {
    hide CyclicComponents, Run, Maximal, Behind;
    var comps := EventsOf(findings);
    forall r | Run(E, N, r) && Maximal(E, N, r)
      ensures (forall v :: v in N ==> v in r) <==> findings == []
      ensures forall v :: v in N ==> (v in r <==> !Behind(E, comps, v))
    {
      ConvergesIffNoComponent(E, N, comps, r);
      MaximalRunFires(E, N, comps, r);
    }
  }

  /** One finding lists both events. */
  ghost predicate Reported(findings: seq<Finding>, u: string, v: string) {
    exists k :: 0 <= k < |findings| && u in findings[k].events && v in findings[k].events
  }

  lemma NeedFromBelow(t: Tree, requeue: int, D: set<Edge>, needs: seq<Need>, n: Need, findings: seq<Finding>,
                      comps: seq<seq<string>>)
    requires WellFormed(t) && Declares(t, requeue, D) && NeedsInRange(t.components, needs)
    requires n in needs && FromBelow(t.components, n)
    requires CyclicComponents(D + NeedEdges(t.components, needs), comps) && EventsOf(findings) == comps
    ensures Reported(findings, StartOf(t.components[n.consumer]), StartOf(t.components[n.provider]))
  {
    hide StartOf, ReadyOf, CyclicComponents, Above, Declares;
    var cs := t.components;
    assert NeedEdge(cs, n) in NeedEdges(cs, needs);
    ImportFromBelowDeadlocks(t, requeue, D, n, D + NeedEdges(cs, needs), comps);
    var i :| 0 <= i < |comps| && StartOf(cs[n.consumer]) in comps[i] && StartOf(cs[n.provider]) in comps[i];
    assert findings[i].events == comps[i];
  }

  lemma DeclaresUnique(t: Tree, requeue: int, D: set<Edge>, D': set<Edge>)
    requires WellFormed(t) && Declares(t, requeue, D) && Declares(t, requeue, D')
    ensures D == D'
  {
    hide Stated;
  }

  method DropApply(es: seq<Edge>) returns (r: seq<Edge>)
    ensures forall e :: e in r <==> e in es && e.reason != APPLY
  {
    r := [];
    for i := 0 to |es|
      invariant forall e :: e in r <==> e in es[..i] && e.reason != APPLY
    {
      assert es[..i + 1] == es[..i] + [es[i]];
      if es[i].reason != APPLY { r := r + [es[i]]; }
    }
    assert es[..|es|] == es;
  }
}
