/** Dependencies that another dependsOn path already implies, and why deleting
    all of them at once changes neither reachability nor any event time. */
module Redundancy {
  import opened Walks
  import opened Options
  import opened Digraph
  import opened MaxPlus
  import opened Scheduling
  import opened Bootstrap
  import opened Components
  import opened Events

  // ---- transitive redundancy in any acyclic graph ----------------------------

  /** An edge is implied if its ends stay connected without it. */
  ghost predicate Implied(G: set<Edge>, e: Edge) {
    ReachPlus(G - {e}, e.from, e.to)
  }

  /** All that tells edges apart is where they lead. */
  ghost predicate Plain(G: set<Edge>) {
    forall x :: x in G ==> x.weight == 0 && x.reason == ""
  }

  /** In a plain graph, leaving out the edges with the same ends leaves out one edge. */
  lemma AvoidingPlain(G: set<Edge>, e: Edge)
    requires Plain(G) && e.weight == 0 && e.reason == ""
    ensures Avoiding(G, e) == G - {e}
  {
  }

  /** Acyclic graphs have a topological order: any run that cannot go on is one. */
  lemma OrderExists(E: set<Edge>, N: set<string>) returns (order: seq<string>)
    requires Acyclic(E) && EndpointsIn(E, N)
    ensures TopoOrder(E, N, order)
  {
    order := RunExtends(E, N, []);
    forall v | v in N ensures v in order {
      if v !in order {
        StuckIsBlocked(E, N, order, v);
      }
    }
    forall i, j | 0 <= i < j < |order| ensures order[i] != order[j] {
      assert CanFire(E, order[..j], order[j]) && order[..j][i] == order[i];
    }
    forall e, j | e in E && 0 <= j < |order| && order[j] == e.to ensures e.from in order[..j] {
      assert CanFire(E, order[..j], order[j]);
    }
  }

  /** A walk stays between the positions of its ends. */
  lemma {:induction false} WalkBetween(E: set<Edge>, N: set<string>, order: seq<string>, u: string,
                                       p: seq<Edge>, v: string, a: nat, b: nat)
    requires TopoOrder(E, N, order) && Walk(E, u, p, v)
    requires a < |order| && b < |order| && order[a] == u && order[b] == v
    ensures a + |p| <= b
    decreases |p|
  {
    if p != [] {
      var m := LastEdge(E, u, p, v);
      var c :| 0 <= c < b && order[c] == m;
      WalkBetween(E, N, order, u, p[..|p| - 1], m, a, c);
    }
  }

  /** Each edge of a longer walk is shorter, in the order, than the walk. */
  lemma EdgeShorter(E: set<Edge>, N: set<string>, order: seq<string>, u: string, p: seq<Edge>, v: string,
                    a: nat, b: nat, k: nat)
    returns (c: nat, d: nat)
    requires TopoOrder(E, N, order) && EndpointsIn(E, N) && Walk(E, u, p, v) && |p| >= 2 && k < |p|
    requires a < |order| && b < |order| && order[a] == u && order[b] == v
    ensures c < |order| && d < |order| && order[c] == p[k].from && order[d] == p[k].to
    ensures 0 <= d - c < b - a
  {
    WalkEdges(E, u, p, v);
    assert p[k] in E;
    c :| 0 <= c < |order| && order[c] == p[k].from;
    d :| 0 <= d < |order| && order[d] == p[k].to;
    var m := Split(E, u, p, v, k);
    var n := Split(E, u, p, v, k + 1);
    WalkBetween(E, N, order, u, p[..k], m, a, c);
    WalkBetween(E, N, order, n, p[k + 1..], v, d, b);
    Single(E, p[k]);
    WalkBetween(E, N, order, p[k].from, [p[k]], p[k].to, c, d);
  }

  /** In a plain graph every edge keeps a walk made of edges that are not implied. */
  lemma {:induction false} KeepWalk(G: set<Edge>, R: set<Edge>, N: set<string>, order: seq<string>, e: Edge,
                                    a: nat, b: nat)
    requires TopoOrder(G, N, order) && EndpointsIn(G, N)
    requires Plain(G)
    requires forall x :: x in R ==> x in G && Implied(G, x)
    requires e in G && a <= b < |order| && order[a] == e.from && order[b] == e.to
    ensures Covered(G - R, e) && ReachPlus(G - R, e.from, e.to)
    decreases b - a
  {
    if e !in R {
      Single(G - R, e);
    } else {
      var K := G - {e};
      var p :| p != [] && Walk(K, e.from, p, e.to);
      Mono(K, G, e.from, p, e.to);
      WalkEdges(K, e.from, p, e.to);
      if |p| == 1 { OneEdge(K, e.from, p, e.to); }
      var P := Elems(p);
      forall x | x in P ensures Covered(G - R, x) {
        var k :| 0 <= k < |p| && p[k] == x;
        var c, d := EdgeShorter(G, N, order, e.from, p, e.to, a, b, k);
        KeepWalk(G, R, N, order, x, c, d);
      }
      Restrict(K, P, e.from, p, e.to);
      var q := CoverWalk(P, G - R, e.from, p, e.to);
      NoWeight(P, p);
      if q == [] { NotALoop(G, N, order, e); }
    }
  }

  lemma OneEdge(K: set<Edge>, u: string, p: seq<Edge>, v: string)
    requires Walk(K, u, p, v) && |p| == 1
    ensures p[0] in K && p[0].from == u && p[0].to == v
  {
    assert p[1..] == [];
  }

  lemma {:induction false} NoWeight(P: set<Edge>, p: seq<Edge>)
    requires forall x :: x in p ==> x.weight == 0
    ensures Weight(p) == 0
  {
    if p != [] { NoWeight(P, p[1..]); }
  }

  lemma NotALoop(G: set<Edge>, N: set<string>, order: seq<string>, e: Edge)
    requires TopoOrder(G, N, order) && EndpointsIn(G, N) && e in G
    ensures e.from != e.to
  {
    TopoAcyclic(G, N, order);
    Single(G, e);
  }

  lemma KeepEdge(G: set<Edge>, R: set<Edge>, N: set<string>, order: seq<string>, e: Edge)
    requires TopoOrder(G, N, order) && EndpointsIn(G, N)
    requires Plain(G)
    requires forall x :: x in R ==> x in G && Implied(G, x)
    requires e in G
    ensures Covered(G - R, e) && ReachPlus(G - R, e.from, e.to)
  {
    hide Implied, Covered, ReachPlus;
    var a :| 0 <= a < |order| && order[a] == e.from;
    var b :| 0 <= b < |order| && order[b] == e.to;
    Single(G, e);
    WalkBetween(G, N, order, e.from, [e], e.to, a, b);
    KeepWalk(G, R, N, order, e, a, b);
  }

  lemma CoverKeepsReach(G: set<Edge>, H: set<Edge>, u: string, v: string)
    requires CoveredBy(G, H) && forall e :: e in G ==> ReachPlus(H, e.from, e.to)
    requires ReachPlus(G, u, v)
    ensures ReachPlus(H, u, v)
  {
    var p :| p != [] && Walk(G, u, p, v);
    var e: Edge := p[0];
    var q := CoverWalk(G, H, e.to, p[1..], v);
    PlusIsReach(H, u, e.to);
    ReachTrans(H, u, e.to, v);
  }

  /** Deleting any set of implied edges at once keeps every connection. */
  lemma ReductionKeepsReach(G: set<Edge>, R: set<Edge>)
    requires Acyclic(G) && Plain(G)
    requires forall x :: x in R ==> x in G && Implied(G, x)
    ensures CoveredBy(G, G - R)
    ensures forall u, v :: ReachPlus(G, u, v) <==> ReachPlus(G - R, u, v)
  {
    hide Acyclic, Implied, TopoOrder, Covered, ReachPlus;
    var N := (set e | e in G :: e.from) + (set e | e in G :: e.to);
    var order := OrderExists(G, N);
    forall e | e in G ensures Covered(G - R, e) && ReachPlus(G - R, e.from, e.to) {
      KeepEdge(G, R, N, order, e);
    }
    forall u, v ensures ReachPlus(G, u, v) <==> ReachPlus(G - R, u, v) {
      ReachMono(G - R, G, u, v);
      if ReachPlus(G, u, v) { CoverKeepsReach(G, G - R, u, v); }
    }
  }

  // ---- the dependsOn graph ---------------------------------------------------

  /** e is entry k of the dependsOn list of component i, between keys. */
  ghost predicate IsKeyDep(cs: seq<Component>, i: nat, k: nat, e: Edge) {
    i < |cs| && k < |cs[i].dependsOn| && e == Edge(cs[i].Key(), cs[i].DepKey(cs[i].dependsOn[k]), 0, "")
  }

  ghost predicate KeyDeps(cs: seq<Component>, G: set<Edge>) {
    forall e :: e in G <==> exists i: nat, k: nat :: IsKeyDep(cs, i, k, e)
  }

  method DependsGraph(cs: seq<Component>) returns (g: Graph)
    ensures fresh(g) && g.Valid() && KeyDeps(cs, g.Edges())
  {
    hide IsKeyDep, Consistent, EdgeSet, At;
    g := new Graph();
    for i := 0 to |cs|
      invariant fresh(g) && g.Valid()
      invariant forall e :: e in g.Edges() <==> exists j: nat, k: nat :: j < i && IsKeyDep(cs, j, k, e)
    {
      AddEntries(g, cs, i);
    }
    assert forall i: nat, k: nat, e :: IsKeyDep(cs, i, k, e) ==> i < |cs| by { InRange(cs); }
  }

  lemma InRange(cs: seq<Component>)
    ensures forall i: nat, k: nat, e :: IsKeyDep(cs, i, k, e) ==> i < |cs| && k < |cs[i].dependsOn|
  {
  }

  method AddEntries(g: Graph, cs: seq<Component>, i: nat)
    requires g.Valid() && i < |cs|
    modifies g
    ensures g.Valid() && forall e :: e in g.Edges() <==> e in old(g.Edges()) || exists k: nat :: IsKeyDep(cs, i, k, e)
  {
    hide KeyFor, Consistent, EdgeSet, At;
    for k := 0 to |cs[i].dependsOn|
      invariant g.Valid()
      invariant forall e :: e in g.Edges() <==> e in old(g.Edges()) || exists m: nat :: m < k && IsKeyDep(cs, i, m, e)
    {
      var e := Edge(cs[i].Key(), cs[i].DepKey(cs[i].dependsOn[k]), 0, "");
      assert IsKeyDep(cs, i, k, e);
      g.AddEdge(e);
    }
  }

  /** Entry k of component i exists and its target can be reached without the entry's own edge. */
  ghost predicate Redundant(t: Tree, G: set<Edge>, i: nat, k: nat)
    requires WellFormed(t)
  {
    i < |t.components| && k < |t.components[i].dependsOn| &&
    var c := t.components[i];
    var key := c.DepKey(c.dependsOn[k]);
    key in t.byKey &&
    var dep := t.components[t.byKey[key]];
    ReachPlus(G - {Edge(c.Key(), dep.Key(), 0, "")}, c.Key(), dep.Key())
  }

  /** A walk of two or more edges joins the ends of e. */
  ghost predicate Bypassed(G: set<Edge>, e: Edge) {
    exists p :: |p| >= 2 && Walk(G, e.from, p, e.to)
  }

  /** In an acyclic plain graph an edge is implied exactly when a longer walk joins its ends. */
  lemma ImpliedIffBypassed(G: set<Edge>, e: Edge)
    requires Acyclic(G) && Plain(G) && e in G
    ensures Implied(G, e) <==> Bypassed(G, e)
  {
    if Implied(G, e) {
      var p :| p != [] && Walk(G - {e}, e.from, p, e.to);
      if |p| == 1 { OneEdge(G - {e}, e.from, p, e.to); }
      Mono(G - {e}, G, e.from, p, e.to);
    }
    if p :| |p| >= 2 && Walk(G, e.from, p, e.to) {
      if e in p { RevisitsEdge(G, e, p); }
      WalkEdges(G, e.from, p, e.to);
      Restrict(G, G - {e}, e.from, p, e.to);
    }
  }

  /** A longer walk between the ends of e that uses e closes a cycle. */
  lemma RevisitsEdge(G: set<Edge>, e: Edge, p: seq<Edge>)
    requires |p| >= 2 && Walk(G, e.from, p, e.to) && e in p
    ensures !Acyclic(G)
  {
    var k :| 0 <= k < |p| && p[k] == e;
    if k > 0 {
      var m := Split(G, e.from, p, e.to, k);
      assert ReachPlus(G, e.from, e.from);
    } else {
      var m := Split(G, e.from, p, e.to, 1);
      assert ReachPlus(G, e.to, e.to);
    }
  }

  /** Complete on acyclic graphs: an entry is redundant exactly when its target
      exists and other dependsOn entries lead there by way of something else. */
  lemma RedundantIffBypassed(t: Tree, G: set<Edge>, i: nat, k: nat)
    requires WellFormed(t) && UniqueKeys(t) && KeyDeps(t.components, G) && Acyclic(G)
    requires i < |t.components| && k < |t.components[i].dependsOn|
    ensures var c := t.components[i]; var key := c.DepKey(c.dependsOn[k]);
      Redundant(t, G, i, k) <==> key in t.byKey && exists p :: |p| >= 2 && Walk(G, c.Key(), p, key)
  {
    hide KeyFor, Acyclic, ReachPlus, Walk;
    var c := t.components[i];
    var key := c.DepKey(c.dependsOn[k]);
    var e := Edge(c.Key(), key, 0, "");
    assert IsKeyDep(t.components, i, k, e);
    KeyDepsPlain(t.components, G);
    ImpliedIffBypassed(G, e);
  }

  /** The dependsOn entries reported as redundant. */
  method RedundantDepends(t: Tree) returns (flagged: set<(nat, nat)>)
    requires WellFormed(t)
    ensures forall G :: KeyDeps(t.components, G) ==>
      forall i: nat, k: nat :: (i, k) in flagged <==> Redundant(t, G, i, k)
  {
    hide KeyFor, Consistent, EdgeSet, At, Avoiding, ReachPlus, KeyDeps, Plain;
    var cs := t.components;
    var g := DependsGraph(cs);
    ghost var G := g.Edges();
    KeyDepsPlain(cs, G);
    flagged := {};
    for i := 0 to |cs|
      invariant g.Valid() && g.Edges() == G
      invariant forall j: nat, k: nat :: (j, k) in flagged <==> j < i && Redundant(t, G, j, k)
    {
      var c := cs[i];
      for k := 0 to |c.dependsOn|
        invariant g.Valid() && g.Edges() == G
        invariant forall j: nat, m: nat :: (j, m) in flagged <==> (j < i || (j == i && m < k)) && Redundant(t, G, j, m)
      {
        var key := c.DepKey(c.dependsOn[k]);
        if key in t.byKey {
          var dep := cs[t.byKey[key]];
          AvoidingPlain(G, Edge(c.Key(), dep.Key(), 0, ""));
          var implied := g.Reachable(c.Key(), dep.Key(), Some(Edge(c.Key(), dep.Key(), 0, "")));
          if implied { flagged := flagged + {(i, k)}; }
        }
      }
    }
    forall H | KeyDeps(cs, H) ensures H == G { KeyDepsUnique(cs, G, H); }
  }

  lemma KeyDepsPlain(cs: seq<Component>, G: set<Edge>)
    requires KeyDeps(cs, G)
    ensures Plain(G)
  {
    hide KeyFor;
  }

  lemma KeyDepsUnique(cs: seq<Component>, G: set<Edge>, H: set<Edge>)
    requires KeyDeps(cs, G) && KeyDeps(cs, H)
    ensures G == H
  {
    hide KeyFor;
  }

  // ---- deleting them all ------------------------------------------------------

  function KeepDeps(deps: seq<Ref>, i: nat, flagged: set<(nat, nat)>): seq<Ref> {
    if deps == [] then []
    else
      KeepDeps(deps[..|deps| - 1], i, flagged) + if (i, |deps| - 1) in flagged then [] else [deps[|deps| - 1]]
  }

  /** The same tree with every flagged dependsOn entry deleted. */
  function Pruned(t: Tree, flagged: set<(nat, nat)>): (u: Tree)
    ensures WellFormed(t) ==> WellFormed(u)
  {
    t.(components := seq(|t.components|, i requires 0 <= i < |t.components| =>
      t.components[i].(dependsOn := KeepDeps(t.components[i].dependsOn, i, flagged))))
  }

  lemma {:induction false} KeepDepsExact(deps: seq<Ref>, i: nat, flagged: set<(nat, nat)>, d: Ref)
    ensures d in KeepDeps(deps, i, flagged) <==> exists k: nat :: k < |deps| && deps[k] == d && (i, k) !in flagged
  {
    if deps != [] {
      var pre := deps[..|deps| - 1];
      KeepDepsExact(pre, i, flagged, d);
      assert forall k :: 0 <= k < |pre| ==> pre[k] == deps[k];
    }
  }

  /** Stated by component i other than through dependsOn. */
  ghost predicate Structural(t: Tree, i: nat, e: Edge)
    requires WellFormed(t)
  {
    IsApply(t, i, e) || IsNesting(t, i, e)
  }

  lemma PrunedKeepsStructure(t: Tree, flagged: set<(nat, nat)>, i: nat, e: Edge)
    requires WellFormed(t)
    ensures Structural(t, i, e) <==> Structural(Pruned(t, flagged), i, e)
  {
  }

  lemma PrunedDepends(t: Tree, requeue: int, flagged: set<(nat, nat)>, i: nat, e: Edge)
    requires WellFormed(t)
    ensures (exists k: nat :: IsDepends(Pruned(t, flagged), requeue, i, k, e))
       <==> (exists k: nat :: IsDepends(t, requeue, i, k, e) && (i, k) !in flagged)
  {
    hide KeyFor, StartName, ReadyName;
    var u := Pruned(t, flagged);
    if i < |t.components| {
      var c, c' := t.components[i], u.components[i];
      if k: nat :| IsDepends(u, requeue, i, k, e) {
        var d := c'.dependsOn[k];
        KeepDepsExact(c.dependsOn, i, flagged, d);
        assert d in KeepDeps(c.dependsOn, i, flagged);
        var m: nat :| m < |c.dependsOn| && c.dependsOn[m] == d && (i, m) !in flagged;
        assert IsDepends(t, requeue, i, m, e);
      }
      if k: nat :| IsDepends(t, requeue, i, k, e) && (i, k) !in flagged {
        var d := c.dependsOn[k];
        KeepDepsExact(c.dependsOn, i, flagged, d);
        var m: nat :| m < |c'.dependsOn| && c'.dependsOn[m] == d;
        assert IsDepends(u, requeue, i, m, e);
      }
    }
  }

  /** U is a set of dependsOn entries whose declared counterparts, and every
      apply edge, are in F. */
  ghost predicate Lifts(t: Tree, requeue: int, U: set<Edge>, F: set<Edge>)
    requires WellFormed(t)
  {
    && (forall i :: 0 <= i < |t.components| ==> ApplyEdge(t.components[i]) in F)
    && (forall e :: e in U ==> Lifted(t, requeue, e, F))
  }

  ghost predicate Lifted(t: Tree, requeue: int, e: Edge, F: set<Edge>)
    requires WellFormed(t)
  {
    exists i: nat, k: nat :: IsKeyDep(t.components, i, k, e) &&
      (e.to in t.byKey ==> DependsEdge(t.components[t.byKey[e.to]], t.components[i], requeue) in F)
  }

  /** A dependsOn path from i to j holds start(i) back until ready(j), and at
      least one requeue longer. */
  lemma {:induction false} LiftWalk(t: Tree, requeue: int, U: set<Edge>, F: set<Edge>, i: nat, p: seq<Edge>, j: nat)
    returns (q: seq<Edge>)
    requires WellFormed(t) && UniqueKeys(t) && Lifts(t, requeue, U, F) && i < |t.components| && j < |t.components|
    requires p != [] && Walk(U, t.components[i].Key(), p, t.components[j].Key())
    ensures Walk(F, ReadyOf(t.components[j]), q, StartOf(t.components[i]))
    ensures requeue >= 0 && (forall c :: c in t.components ==> HealthBound(c) >= 0) ==> Weight(q) >= requeue
    ensures q != []
    decreases |p|
  {
    hide KeyFor, StartOf, ReadyOf, HealthBound, Walk;
    var cs := t.components;
    WalkHead(U, cs[i].Key(), p, cs[j].Key());
    assert Lifted(t, requeue, p[0], F);
    var i': nat, k: nat :| IsKeyDep(cs, i', k, p[0]) &&
      (p[0].to in t.byKey ==> DependsEdge(cs[t.byKey[p[0].to]], cs[i'], requeue) in F);
    assert i' == i;
    if |p| == 1 {
      assert p[1..] == [];
      WalkEmpty(U, p[0].to, cs[j].Key());
      var e := DependsEdge(cs[j], cs[i], requeue);
      q := [e];
      Single(F, e);
    } else {
      var p1: Edge := p[1..][0];
      WalkHead(U, p[0].to, p[1..], cs[j].Key());
      assert Lifted(t, requeue, p1, F);
      var m: nat, k': nat :| IsKeyDep(cs, m, k', p1);
      assert p[0].to == cs[m].Key();
      var q' := LiftWalk(t, requeue, U, F, m, p[1..], j);
      var a, e := ApplyEdge(cs[m]), DependsEdge(cs[m], cs[i], requeue);
      assert cs[m] in cs;
      Single(F, a);
      Single(F, e);
      Concat(F, ReadyOf(cs[j]), q', a.from, [a], a.to);
      Concat(F, ReadyOf(cs[j]), q' + [a], e.from, [e], e.to);
      q := q' + [a] + [e];
    }
  }

  lemma WalkHead(E: set<Edge>, u: string, p: seq<Edge>, v: string)
    requires Walk(E, u, p, v) && p != []
    ensures p[0] in E && p[0].from == u && Walk(E, p[0].to, p[1..], v)
  {
  }

  lemma WalkEmpty(E: set<Edge>, u: string, v: string)
    requires Walk(E, u, [], v)
    ensures u == v
  {
  }

  /** The dependsOn edges that flagged entries stand for. */
  ghost function FlaggedEdges(cs: seq<Component>, G: set<Edge>, flagged: set<(nat, nat)>): set<Edge> {
    set e | e in G && exists i: nat, k: nat :: (i, k) in flagged && IsKeyDep(cs, i, k, e)
  }

  lemma LiftsAll(t: Tree, requeue: int, G: set<Edge>, D: set<Edge>)
    requires WellFormed(t) && KeyDeps(t.components, G) && Declares(t, requeue, D)
    ensures Lifts(t, requeue, G, D)
  {
    hide KeyFor, StartName, ReadyName, HealthBound;
    var cs := t.components;
    forall i | 0 <= i < |cs| ensures ApplyEdge(cs[i]) in D {
      assert IsApply(t, i, ApplyEdge(cs[i]));
      assert Stated(t, requeue, i, ApplyEdge(cs[i]));
    }
    forall e | e in G ensures Lifted(t, requeue, e, D) {
      var i: nat, k: nat :| IsKeyDep(cs, i, k, e);
      if e.to in t.byKey {
        var d := DependsEdge(cs[t.byKey[e.to]], cs[i], requeue);
        assert IsDepends(t, requeue, i, k, d);
        assert Stated(t, requeue, i, d);
      }
    }
  }

  /** An acyclic declared graph has an acyclic dependsOn graph. */
  lemma DependsAcyclic(t: Tree, requeue: int, G: set<Edge>, D: set<Edge>)
    requires WellFormed(t) && UniqueKeys(t) && KeyDeps(t.components, G) && Declares(t, requeue, D) && Acyclic(D)
    ensures Acyclic(G)
  {
    hide KeyFor, StartOf, ReadyOf, HealthBound, Reach, Declares, KeyDeps;
    var cs := t.components;
    LiftsAll(t, requeue, G, D);
    forall u ensures !ReachPlus(G, u, u) {
      if p :| p != [] && Walk(G, u, p, u) {
        WalkHead(G, u, p, u);
        assert Lifted(t, requeue, p[0], D);
        var i: nat, k: nat :| IsKeyDep(cs, i, k, p[0]);
        var q := LiftWalk(t, requeue, G, D, i, p, i);
        CloseLoop(D, q, ApplyEdge(cs[i]));
      }
    }
  }

  lemma CloseLoop(E: set<Edge>, q: seq<Edge>, a: Edge)
    requires a in E && Walk(E, a.to, q, a.from)
    ensures ReachPlus(E, a.to, a.to)
  {
    Single(E, a);
    Concat(E, a.to, q, a.from, [a], a.to);
    assert q + [a] != [];
  }

  lemma UnflaggedLift(t: Tree, requeue: int, G: set<Edge>, flagged: set<(nat, nat)>, D': set<Edge>)
    requires WellFormed(t) && KeyDeps(t.components, G)
    requires Declares(Pruned(t, flagged), requeue, D')
    ensures Lifts(t, requeue, G - FlaggedEdges(t.components, G, flagged), D')
  {
    hide KeyFor, StartName, ReadyName, HealthBound, KeepDeps;
    var cs, u := t.components, Pruned(t, flagged);
    forall i | 0 <= i < |cs| ensures ApplyEdge(cs[i]) in D' {
      PrunedKeepsStructure(t, flagged, i, ApplyEdge(cs[i]));
      assert Structural(t, i, ApplyEdge(cs[i]));
      assert Stated(u, requeue, i, ApplyEdge(cs[i]));
    }
    forall e | e in G - FlaggedEdges(cs, G, flagged) ensures Lifted(t, requeue, e, D') {
      var i: nat, k: nat :| IsKeyDep(cs, i, k, e);
      assert (i, k) !in flagged;
      if e.to in t.byKey {
        var d := DependsEdge(cs[t.byKey[e.to]], cs[i], requeue);
        assert IsDepends(t, requeue, i, k, d);
        PrunedDepends(t, requeue, flagged, i, d);
        assert Stated(u, requeue, i, d);
      }
    }
  }

  lemma PrunedCovers(t: Tree, requeue: int, G: set<Edge>, flagged: set<(nat, nat)>, D: set<Edge>,
                     D': set<Edge>, e: Edge)
    requires WellFormed(t) && UniqueKeys(t) && KeyDeps(t.components, G)
    requires requeue >= 0 && forall c :: c in t.components ==> HealthBound(c) >= 0
    requires Declares(t, requeue, D) && Declares(Pruned(t, flagged), requeue, D')
    requires forall u, v :: ReachPlus(G, u, v) ==> ReachPlus(G - FlaggedEdges(t.components, G, flagged), u, v)
    requires e in D
    ensures Covered(D', e)
  {
    hide KeyFor, StartOf, ReadyOf, HealthBound, Reach, KeepDeps, FlaggedEdges, ReachPlus, Pruned;
    var cs, u, U := t.components, Pruned(t, flagged), G - FlaggedEdges(t.components, G, flagged);
    var i: nat :| Stated(t, requeue, i, e);
    if Structural(t, i, e) {
      PrunedKeepsStructure(t, flagged, i, e);
      assert Stated(u, requeue, i, e);
      Single(D', e);
    } else {
      var k: nat :| IsDepends(t, requeue, i, k, e);
      var key := cs[i].DepKey(cs[i].dependsOn[k]);
      var ge := Edge(cs[i].Key(), key, 0, "");
      assert IsKeyDep(cs, i, k, ge);
      Single(G, ge);
      UnflaggedLift(t, requeue, G, flagged, D');
      var p := PlusWalk(U, cs[i].Key(), key);
      var q := LiftWalk(t, requeue, U, D', i, p, t.byKey[key]);
    }
  }

  lemma PlusWalk(E: set<Edge>, u: string, v: string) returns (p: seq<Edge>)
    requires ReachPlus(E, u, v)
    ensures p != [] && Walk(E, u, p, v)
  {
    p :| p != [] && Walk(E, u, p, v);
  }

  lemma FlaggedImplied(t: Tree, G: set<Edge>, flagged: set<(nat, nat)>)
    requires WellFormed(t) && UniqueKeys(t) && KeyDeps(t.components, G)
    requires forall i: nat, k: nat :: (i, k) in flagged ==> Redundant(t, G, i, k)
    ensures forall e :: e in FlaggedEdges(t.components, G, flagged) ==> e in G && Implied(G, e)
  {
    hide KeyFor, ReachPlus;
    var cs := t.components;
    forall e | e in FlaggedEdges(cs, G, flagged) ensures Implied(G, e) {
      var i: nat, k: nat :| (i, k) in flagged && IsKeyDep(cs, i, k, e);
      assert Redundant(t, G, i, k);
      assert e == Edge(cs[i].Key(), cs[t.byKey[e.to]].Key(), 0, "");
    }
  }

  lemma PrunedIsSubset(t: Tree, requeue: int, flagged: set<(nat, nat)>, D: set<Edge>, D': set<Edge>)
    requires WellFormed(t) && Declares(t, requeue, D) && Declares(Pruned(t, flagged), requeue, D')
    ensures D' <= D
  {
    hide KeyFor, StartOf, ReadyOf, HealthBound, KeepDeps, Pruned;
    var u := Pruned(t, flagged);
    forall e | e in D' ensures e in D {
      var i: nat :| Stated(u, requeue, i, e);
      PrunedKeepsStructure(t, flagged, i, e);
      PrunedDepends(t, requeue, flagged, i, e);
      if !Structural(u, i, e) {
        var k: nat :| IsDepends(u, requeue, i, k, e);
        var m: nat :| IsDepends(t, requeue, i, m, e) && (i, m) !in flagged;
      } else {
        assert Structural(t, i, e);
      }
      assert Stated(t, requeue, i, e);
    }
  }

  lemma PrunedEntry(t: Tree, flagged: set<(nat, nat)>, i: nat, e: Edge)
    ensures (exists k: nat :: IsKeyDep(Pruned(t, flagged).components, i, k, e))
       <==> (exists k: nat :: IsKeyDep(t.components, i, k, e) && (i, k) !in flagged)
  {
    hide KeyFor, KeepDeps;
    var cs, us := t.components, Pruned(t, flagged).components;
    if k: nat :| IsKeyDep(us, i, k, e) {
      var d := us[i].dependsOn[k];
      KeepDepsExact(cs[i].dependsOn, i, flagged, d);
      var m: nat :| m < |cs[i].dependsOn| && cs[i].dependsOn[m] == d && (i, m) !in flagged;
      assert IsKeyDep(cs, i, m, e);
    }
    if k: nat :| IsKeyDep(cs, i, k, e) && (i, k) !in flagged {
      var d := cs[i].dependsOn[k];
      KeepDepsExact(cs[i].dependsOn, i, flagged, d);
      var n: nat :| n < |us[i].dependsOn| && us[i].dependsOn[n] == d;
      assert IsKeyDep(us, i, n, e);
    }
  }

  /** The dependsOn graph of the pruned tree has no new edges and lacks only flagged ones. */
  lemma PrunedBetween(t: Tree, G: set<Edge>, flagged: set<(nat, nat)>, G': set<Edge>)
    requires KeyDeps(t.components, G) && KeyDeps(Pruned(t, flagged).components, G')
    ensures G - FlaggedEdges(t.components, G, flagged) <= G' <= G
  {
    hide KeyFor, Pruned, KeepDeps;
    forall e | e in G' ensures e in G {
      var i: nat, k: nat :| IsKeyDep(Pruned(t, flagged).components, i, k, e);
      PrunedEntry(t, flagged, i, e);
    }
    forall e | e in G - FlaggedEdges(t.components, G, flagged) ensures e in G' {
      var i: nat, k: nat :| IsKeyDep(t.components, i, k, e);
      assert (i, k) !in flagged;
      PrunedEntry(t, flagged, i, e);
    }
  }

  /** Deleting, at once, any set of dependsOn entries that the review reports as
      redundant keeps which component waits for which, and moves no event: the
      heaviest walk into every event, and so every earliest time and the
      makespan, stay the same. */
  lemma RedundantIsHarmless(t: Tree, requeue: int, G: set<Edge>, flagged: set<(nat, nat)>, D: set<Edge>, D': set<Edge>)
    requires WellFormed(t) && UniqueKeys(t) && KeyDeps(t.components, G)
    requires requeue >= 0 && forall c :: c in t.components ==> HealthBound(c) >= 0
    requires forall i: nat, k: nat :: (i, k) in flagged ==> Redundant(t, G, i, k)
    requires Declares(t, requeue, D) && Declares(Pruned(t, flagged), requeue, D')
    requires Acyclic(D)
    ensures D' <= D
    ensures forall G' :: KeyDeps(Pruned(t, flagged).components, G') ==>
      forall u, v :: ReachPlus(G, u, v) <==> ReachPlus(G', u, v)
    ensures forall v, a, b :: HeaviestInto(D, v, a) && HeaviestInto(D', v, b) ==> a == b
    ensures forall a, b :: Heaviest(D, a) && Heaviest(D', b) ==> a == b
  {
    hide KeyFor, StartOf, ReadyOf, HealthBound, KeepDeps, FlaggedEdges, Pruned;
    hide Implied, Redundant, ReachPlus, Reach, HeaviestInto, Heaviest;
    DependsAcyclic(t, requeue, G, D);
    FlaggedImplied(t, G, flagged);
    ReductionKeepsReach(G, FlaggedEdges(t.components, G, flagged));
    PrunedIsSubset(t, requeue, flagged, D, D');
    forall G' | KeyDeps(Pruned(t, flagged).components, G')
      ensures forall u, v :: ReachPlus(G, u, v) <==> ReachPlus(G', u, v)
    {
      PrunedBetween(t, G, flagged, G');
      forall u, v ensures ReachPlus(G, u, v) <==> ReachPlus(G', u, v) {
        ReachMono(G - FlaggedEdges(t.components, G, flagged), G', u, v);
        ReachMono(G', G, u, v);
      }
    }
    forall e | e in D ensures Covered(D', e) {
      PrunedCovers(t, requeue, G, flagged, D, D', e);
    }
    forall e | e in D' ensures Covered(D, e) { Single(D, e); }
    CoverBounds(D, D');
    CoverBounds(D', D);
  }

  /** ... in terms of the schedules of the two graphs. */
  lemma RedundantMovesNothing(t: Tree, requeue: int, G: set<Edge>, flagged: set<(nat, nat)>, D: set<Edge>,
                              D': set<Edge>, N: set<string>, inc: map<string, seq<Edge>>,
                              inc': map<string, seq<Edge>>, s: Schedule, s': Schedule)
    requires WellFormed(t) && UniqueKeys(t) && KeyDeps(t.components, G)
    requires requeue >= 0 && forall c :: c in t.components ==> HealthBound(c) >= 0
    requires forall i: nat, k: nat :: (i, k) in flagged ==> Redundant(t, G, i, k)
    requires Declares(t, requeue, D) && Declares(Pruned(t, flagged), requeue, D')
    requires "" !in N && Acyclic(D) && ScheduleOf(D, N, inc, s) && ScheduleOf(D', N, inc', s')
    ensures forall v :: v in N ==> Get(s'.earliest, v) == Get(s.earliest, v)
    ensures s'.makespan == s.makespan
  {
    hide Redundant, Pruned, HealthBound, ScheduleOf, HeaviestInto, Heaviest, UniqueKeys, KeyDeps;
    RedundantIsHarmless(t, requeue, G, flagged, D, D');
    forall v | v in N ensures Get(s'.earliest, v) == Get(s.earliest, v) {
      WalkTimes(D, N, inc, s, v);
      WalkTimes(D', N, inc', s', v);
    }
    MakespanIsHeaviest(D, N, inc, s);
    MakespanIsHeaviest(D', N, inc', s');
  }
}
