/** The event graph: two events per component, edges for nesting, waiting,
    dependsOn and imports. */
module Events {
  import opened Walks
  import opened Digraph
  import opened Components

  function StartName(s: string): string { "start(" + s + ")" }
  function ReadyName(s: string): string { "ready(" + s + ")" }
  function StartOf(c: Component): string { StartName(c.String()) }
  function ReadyOf(c: Component): string { ReadyName(c.String()) }

  /** Event names differ whenever the component names or the events differ. */
  lemma EventNamesInjective(a: string, b: string)
    ensures StartName(a) == StartName(b) ==> a == b
    ensures ReadyName(a) == ReadyName(b) ==> a == b
    ensures StartName(a) != ReadyName(b) && StartName(a) != "" && ReadyName(a) != ""
  {
    assert StartName(a)[6..|StartName(a)| - 1] == a && StartName(b)[6..|StartName(b)| - 1] == b;
    assert ReadyName(a)[6..|ReadyName(a)| - 1] == a && ReadyName(b)[6..|ReadyName(b)| - 1] == b;
    assert StartName(a)[0] == 's' && ReadyName(b)[0] == 'r';
  }

  /** No two components are displayed alike. */
  ghost predicate DistinctNames(cs: seq<Component>) {
    forall i, j :: 0 <= i < j < |cs| ==> cs[i].String() != cs[j].String()
  }

  /** How much time is granted between start and ready. A release may spend its
      timeout on the first attempt and again on every retry. */
  function HealthBound(c: Component): int {
    if c.IsHelmRelease() then c.timeout * (1 + c.retries)
    else if !c.BlocksOnHealth() then 0
    else if c.hasTimeout then c.timeout
    else c.interval
  }

  const APPLY := "apply and health timeout"
  const CREATED := "created by parent"
  const WAITS := "parent has wait: true"
  const DEPENDS := "dependsOn"

  lemma ReasonsApart()
    ensures APPLY != DEPENDS && CREATED != APPLY && WAITS != APPLY && CREATED != DEPENDS && WAITS != DEPENDS
  {
    assert APPLY[0] == 'a' && CREATED[0] == 'c' && WAITS[0] == 'p' && DEPENDS[0] == 'd';
  }

  function ApplyEdge(c: Component): Edge { Edge(StartOf(c), ReadyOf(c), HealthBound(c), APPLY) }
  function CreatedEdge(p: Component, c: Component): Edge { Edge(StartOf(p), StartOf(c), 0, CREATED) }
  function WaitsEdge(c: Component, p: Component): Edge { Edge(ReadyOf(c), ReadyOf(p), 0, WAITS) }
  function DependsEdge(d: Component, c: Component, requeue: int): Edge {
    Edge(ReadyOf(d), StartOf(c), requeue, DEPENDS)
  }

  // ---- what the graph must contain ----------------------------------------

  ghost predicate IsApply(t: Tree, i: nat, e: Edge) {
    i < |t.components| &&
    var c := t.components[i];
    e == Edge(StartOf(c), ReadyOf(c), HealthBound(c), APPLY)
  }

  ghost predicate IsNesting(t: Tree, i: nat, e: Edge)
    requires WellFormed(t)
  {
    i < |t.components| && t.components[i].parent.Some? &&
    var c, p := t.components[i], t.components[t.components[i].parent.value];
    || e == Edge(StartOf(p), StartOf(c), 0, CREATED)
    || (p.wait && e == Edge(ReadyOf(c), ReadyOf(p), 0, WAITS))
  }

  ghost predicate IsDepends(t: Tree, requeue: int, i: nat, k: nat, e: Edge)
    requires WellFormed(t)
  {
    i < |t.components| && k < |t.components[i].dependsOn| &&
    var c := t.components[i];
    c.DepKey(c.dependsOn[k]) in t.byKey &&
    e == Edge(ReadyOf(t.components[t.byKey[c.DepKey(c.dependsOn[k])]]), StartOf(c), requeue, DEPENDS)
  }

  /** e is stated by the manifests of component i. */
  ghost predicate Stated(t: Tree, requeue: int, i: nat, e: Edge)
    requires WellFormed(t)
  {
    IsApply(t, i, e) || IsNesting(t, i, e) || exists k :: IsDepends(t, requeue, i, k, e)
  }

  ghost predicate Declares(t: Tree, requeue: int, D: set<Edge>)
    requires WellFormed(t)
  {
    forall e :: e in D <==> exists i :: Stated(t, requeue, i, e)
  }

  ghost function EventNames(cs: seq<Component>): set<string> {
    if cs == [] then {}
    else EventNames(cs[..|cs| - 1]) + {StartOf(cs[|cs| - 1]), ReadyOf(cs[|cs| - 1])}
  }

  lemma {:induction false} EventNamesAt(cs: seq<Component>, i: nat)
    requires i < |cs|
    ensures StartOf(cs[i]) in EventNames(cs) && ReadyOf(cs[i]) in EventNames(cs)
  {
    if i < |cs| - 1 { EventNamesAt(cs[..|cs| - 1], i); }
  }

  lemma {:induction false} EventNamesOnly(cs: seq<Component>, v: string)
    requires v in EventNames(cs)
    ensures exists i :: 0 <= i < |cs| && (v == StartOf(cs[i]) || v == ReadyOf(cs[i]))
  {
    if v in EventNames(cs[..|cs| - 1]) {
      EventNamesOnly(cs[..|cs| - 1], v);
      var i :| 0 <= i < |cs| - 1 && (v == StartOf(cs[..|cs| - 1][i]) || v == ReadyOf(cs[..|cs| - 1][i]));
      assert cs[..|cs| - 1][i] == cs[i];
    }
  }

  lemma NamesNotEmpty(cs: seq<Component>)
    ensures "" !in EventNames(cs)
  {
    if "" in EventNames(cs) {
      EventNamesOnly(cs, "");
    }
  }

  // ---- building it ---------------------------------------------------------

  /** What the manifests state: nesting, wait and dependsOn. */
  method DeclaredGraph(t: Tree, requeue: int) returns (g: Graph)
    requires WellFormed(t)
    ensures fresh(g) && g.Valid() && g.nodes == EventNames(t.components)
    ensures Declares(t, requeue, g.Edges())
  {
    hide StartOf, ReadyOf, Stated, Consistent, EdgeSet, At;
    g := new Graph();
    var cs := t.components;
    for i := 0 to |cs|
      invariant fresh(g) && g.Valid()
      invariant g.nodes <= EventNames(cs) && EventNames(cs[..i]) <= g.nodes
      invariant forall e :: e in g.Edges() <==> exists j: nat :: j < i && Stated(t, requeue, j, e)
    {
      ghost var E := g.Edges();
      AddComponent(g, t, requeue, i);
      assert cs[..i + 1][..i] == cs[..i];
    }
    assert cs[..|cs|] == cs;
    StatedInRange(t, requeue);
  }

  lemma StatedInRange(t: Tree, requeue: int)
    requires WellFormed(t)
    ensures forall i: nat, e :: Stated(t, requeue, i, e) ==> i < |t.components|
  {
  }

  method AddComponent(g: Graph, t: Tree, requeue: int, i: nat)
    requires WellFormed(t) && i < |t.components| && g.Valid() && g.nodes <= EventNames(t.components)
    modifies g
    ensures g.Valid() && old(g.nodes) <= g.nodes <= EventNames(t.components)
    ensures StartOf(t.components[i]) in g.nodes && ReadyOf(t.components[i]) in g.nodes
    ensures forall e :: e in g.Edges() <==> e in old(g.Edges()) || Stated(t, requeue, i, e)
  {
    hide StartOf, ReadyOf, EventNames, Consistent, EdgeSet, At, HealthBound;
    var c := t.components[i];
    EventNamesAt(t.components, i);
    g.AddEdge(ApplyEdge(c));
    AddNesting(g, t, i);
    AddDepends(g, t, requeue, i);
  }

  method AddNesting(g: Graph, t: Tree, i: nat)
    requires WellFormed(t) && i < |t.components| && g.Valid() && g.nodes <= EventNames(t.components)
    modifies g
    ensures g.Valid() && old(g.nodes) <= g.nodes <= EventNames(t.components)
    ensures forall e :: e in g.Edges() <==> e in old(g.Edges()) || IsNesting(t, i, e)
  {
    hide StartOf, ReadyOf, EventNames, Consistent, EdgeSet, At;
    var c := t.components[i];
    EventNamesAt(t.components, i);
    if c.parent.Some? {
      var p := t.components[c.parent.value];
      EventNamesAt(t.components, c.parent.value);
      g.AddEdge(CreatedEdge(p, c));
      if p.wait { g.AddEdge(WaitsEdge(c, p)); }
    }
  }

  method AddDepends(g: Graph, t: Tree, requeue: int, i: nat)
    requires WellFormed(t) && i < |t.components| && g.Valid() && g.nodes <= EventNames(t.components)
    modifies g
    ensures g.Valid() && old(g.nodes) <= g.nodes <= EventNames(t.components)
    ensures forall e :: e in g.Edges() <==> e in old(g.Edges()) || exists k :: IsDepends(t, requeue, i, k, e)
  {
    hide StartOf, ReadyOf, EventNames, KeyFor, Consistent, EdgeSet, At;
    var c := t.components[i];
    EventNamesAt(t.components, i);
    for k := 0 to |c.dependsOn|
      invariant g.Valid() && old(g.nodes) <= g.nodes <= EventNames(t.components)
      invariant forall e :: e in g.Edges() <==>
        e in old(g.Edges()) || exists j: nat :: j < k && IsDepends(t, requeue, i, j, e)
    {
      var key := c.DepKey(c.dependsOn[k]);
      ghost var e0 := g.Edges();
      if key in t.byKey {
        var d := t.components[t.byKey[key]];
        EventNamesAt(t.components, t.byKey[key]);
        g.AddEdge(DependsEdge(d, c, requeue));
        assert IsDepends(t, requeue, i, k, DependsEdge(d, c, requeue));
      }
    }
  }

  // ---- imports -------------------------------------------------------------

  datatype NeedKind = NeedNamespace | NeedCRD | NeedSource | NeedRuntime | NeedAPI

  /** One import of the consumer that the provider exports; both are positions in the tree. */
  datatype Need = Need(kind: NeedKind, what: string, provider: nat, consumer: nat, obj: string)

  function KindName(k: NeedKind): string {
    match k
    case NeedNamespace => "namespace"
    case NeedCRD => "CRD"
    case NeedSource => "source"
    case NeedRuntime => "runtime"
    case NeedAPI => "API"
  }

  ghost predicate NeedsInRange(cs: seq<Component>, needs: seq<Need>) {
    forall n :: n in needs ==> n.provider < |cs| && n.consumer < |cs|
  }

  /** The precedence an import implies. */
  function NeedEdge(cs: seq<Component>, n: Need): Edge
    requires n.provider < |cs| && n.consumer < |cs|
  {
    var p, c := cs[n.provider], cs[n.consumer];
    var reason := KindName(n.kind) + " " + n.what + " needed by " + n.obj;
    match n.kind
    case NeedCRD => Edge(ReadyOf(p), StartOf(c), 0, reason)
    case NeedRuntime => Edge(StartOf(p), ReadyOf(c), 0, reason)
    case NeedSource => Edge(StartOf(p), if c.IsHelmRelease() then ReadyOf(c) else StartOf(c), 0, reason)
    case NeedNamespace => Edge(StartOf(p), StartOf(c), 0, reason)
    case NeedAPI => Edge(StartOf(p), StartOf(c), 0, reason)
  }

  /** Can an unmet need block convergence of the consumer? */
  predicate Matters(cs: seq<Component>, n: Need)
    requires n.consumer < |cs|
  {
    if n.kind == NeedAPI then false
    else if n.kind == NeedRuntime then cs[n.consumer].BlocksOnHealth() || cs[n.consumer].IsHelmRelease()
    else true
  }

  /** Which event an import places before which: nothing for an API; for anything
      that only shows at run time, whatever can hold back readiness; everything
      else before the consumer starts, a source before a release is ready. */
  ghost predicate Orders(cs: seq<Component>, n: Need, before: string, after: string)
    requires n.provider < |cs| && n.consumer < |cs|
  {
    var p, c := cs[n.provider], cs[n.consumer];
    match n.kind
    case NeedNamespace => before == StartOf(p) && after == StartOf(c)
    case NeedCRD => before == ReadyOf(p) && after == StartOf(c)
    case NeedSource => before == StartOf(p) && after == if c.kind == HELM_RELEASE then ReadyOf(c) else StartOf(c)
    case NeedRuntime => (c.wait || c.health || c.kind == HELM_RELEASE) && before == StartOf(p) && after == ReadyOf(c)
    case NeedAPI => false
  }

  /** e is the edge of the import: it joins the two events that the import orders, at no delay, and says why. */
  ghost predicate ImpliedBy(cs: seq<Component>, n: Need, e: Edge)
    requires n.provider < |cs| && n.consumer < |cs|
  {
    Orders(cs, n, e.from, e.to) && e.weight == 0 && e.reason == KindName(n.kind) + " " + n.what + " needed by " + n.obj
  }

  lemma NeedEdgeOrders(cs: seq<Component>, n: Need, u: string, v: string)
    requires n.provider < |cs| && n.consumer < |cs|
    ensures Orders(cs, n, u, v) <==> Matters(cs, n) && NeedEdge(cs, n).from == u && NeedEdge(cs, n).to == v
  {
    hide StartOf, ReadyOf, KindName;
  }

  lemma ImpliedIsNeedEdge(cs: seq<Component>, n: Need, e: Edge)
    requires n.provider < |cs| && n.consumer < |cs|
    ensures ImpliedBy(cs, n, e) <==> Matters(cs, n) && e == NeedEdge(cs, n)
  {
    hide StartOf, ReadyOf;
  }

  ghost predicate SomeImplies(cs: seq<Component>, needs: seq<Need>, e: Edge)
    requires NeedsInRange(cs, needs)
  {
    exists n :: n in needs && ImpliedBy(cs, n, e)
  }

  lemma NeedEdgesExact(cs: seq<Component>, needs: seq<Need>)
    requires NeedsInRange(cs, needs)
    ensures forall e :: e in NeedEdges(cs, needs) <==> SomeImplies(cs, needs, e)
  {
    hide Matters, NeedEdge, ImpliedBy;
    forall n, e | n in needs ensures ImpliedBy(cs, n, e) <==> Matters(cs, n) && e == NeedEdge(cs, n) {
      ImpliedIsNeedEdge(cs, n, e);
    }
  }

  ghost function NeedEdges(cs: seq<Component>, needs: seq<Need>): set<Edge>
    requires NeedsInRange(cs, needs)
  {
    set n | n in needs && Matters(cs, n) :: NeedEdge(cs, n)
  }

  /** Declared precedence plus the precedence implied by imports. */
  method FullGraph(t: Tree, requeue: int, needs: seq<Need>) returns (g: Graph, ghost D: set<Edge>)
    requires WellFormed(t) && NeedsInRange(t.components, needs)
    ensures fresh(g) && g.Valid() && g.nodes == EventNames(t.components)
    ensures Declares(t, requeue, D) && g.Edges() == D + NeedEdges(t.components, needs)
    ensures forall e :: e in g.Edges() <==> e in D || SomeImplies(t.components, needs, e)
  {
    hide NeedEdge, Consistent, EdgeSet, At, EventNames, Declares, WellFormed, Matters, NeedEdges, SomeImplies;
    g := DeclaredGraph(t, requeue);
    D := g.Edges();
    NoNeeds(t.components, needs);
    for i := 0 to |needs|
      invariant fresh(g) && g.Valid() && g.nodes == EventNames(t.components)
      invariant forall n :: n in needs[..i] ==> n in needs
      invariant g.Edges() == D + NeedEdges(t.components, needs[..i])
    {
      var n := needs[i];
      NeedsSnoc(t.components, needs, i);
      if Matters(t.components, n) {
        NeedEnds(t.components, n);
        g.AddEdge(NeedEdge(t.components, n));
      }
    }
    assert needs[..|needs|] == needs;
    NeedEdgesExact(t.components, needs);
  }

  lemma NoNeeds(cs: seq<Component>, needs: seq<Need>)
    ensures NeedEdges(cs, needs[..0]) == {}
  {
    hide NeedEdge, Matters;
    assert needs[..0] == [];
  }

  lemma NeedsSnoc(cs: seq<Component>, needs: seq<Need>, i: nat)
    requires NeedsInRange(cs, needs) && i < |needs|
    ensures needs[i] in needs && NeedsInRange(cs, needs[..i]) && NeedsInRange(cs, needs[..i + 1])
    ensures NeedEdges(cs, needs[..i + 1])
         == NeedEdges(cs, needs[..i]) + if Matters(cs, needs[i]) then {NeedEdge(cs, needs[i])} else {}
  {
    hide NeedEdge;
    assert needs[..i + 1] == needs[..i] + [needs[i]];
    assert forall n :: n in needs[..i + 1] <==> n in needs[..i] || n == needs[i];
    assert forall n :: n in needs[..i] ==> n in needs;
  }

  lemma NeedEnds(cs: seq<Component>, n: Need)
    requires n.provider < |cs| && n.consumer < |cs|
    ensures NeedEdge(cs, n).from in EventNames(cs) && NeedEdge(cs, n).to in EventNames(cs)
  {
    hide StartOf, ReadyOf, EventNames, KindName;
    EventNamesAt(cs, n.provider);
    EventNamesAt(cs, n.consumer);
  }

  /** The imports resolved so far. */
  class Index {
    var needs: seq<Need>

    constructor ()
      ensures needs == []
    {
      needs := [];
    }

    /** An import is recorded with its first provider, unless some provider is
        the consumer itself or one of its ancestors. */
    method AddNeed(cs: seq<Component>, n: Need, provs: seq<nat>)
      requires ParentsFirst(cs) && n.consumer < |cs| && provs != []
      modifies this
      ensures needs == if Satisfied(cs, n.consumer, provs) then old(needs) else old(needs) + [n.(provider := provs[0])]
    {
      for i := 0 to |provs|
        invariant forall j :: 0 <= j < i ==> !Above(cs, provs[j], n.consumer)
        invariant needs == old(needs)
      {
        var inside := Within(cs, n.consumer, provs[i]);
        if inside {
          assert provs[i] in provs;
          return;
        }
      }
      assert forall p :: p in provs ==> !Above(cs, p, n.consumer);
      needs := needs + [n.(provider := provs[0])];
    }
  }

  /** Some provider is applied together with the consumer or created it. */
  ghost predicate Satisfied(cs: seq<Component>, consumer: nat, provs: seq<nat>)
    requires ParentsFirst(cs) && consumer < |cs|
  {
    exists p :: p in provs && Above(cs, p, consumer)
  }
}
