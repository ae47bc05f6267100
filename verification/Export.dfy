/** The drawing of the event graph with one node per component: which relations
    are drawn, and which of them are marked as critical or cyclic. */
module Export {
  import opened Walks
  import opened Digraph
  import opened MaxPlus
  import opened Scheduling
  import opened Components
  import opened Events
  import opened Tarjan
  import opened Deadlocks

  type Pairs = set<(string, string)>

  datatype GraphEdge = GraphEdge(from: string, to: string, kind: string, text: string, critical: bool, inCycle: bool)

  // ---- cyclic pairs of events -------------------------------------------------

  /** The ends of the edges that lie on a cycle. */
  ghost function CyclicOf(E: set<Edge>): Pairs {
    set e | e in E && Reach(E, e.to, e.from) :: (e.from, e.to)
  }

  ghost predicate JoinsInside(E: set<Edge>, comp: seq<string>, e: Edge, u: string, v: string) {
    e in E && e.from == u && e.to == v && u in comp && v in comp
  }

  ghost predicate JoinedInside(E: set<Edge>, comp: seq<string>, u: string, v: string) {
    exists e :: JoinsInside(E, comp, e, u, v)
  }

  function EndsOf(es: seq<Edge>): Pairs {
    set k | 0 <= k < |es| :: (es[k].from, es[k].to)
  }

  lemma EndsOfExact(es: seq<Edge>, u: string, v: string)
    ensures (u, v) in EndsOf(es) <==> exists e :: e in es && e.from == u && e.to == v
  {
    if e :| e in es && e.from == u && e.to == v {
      var k :| 0 <= k < |es| && es[k] == e;
      assert (es[k].from, es[k].to) in EndsOf(es);
    }
    if (u, v) in EndsOf(es) {
      var k :| 0 <= k < |es| && (es[k].from, es[k].to) == (u, v);
      assert es[k] in es;
    }
  }

  /** The pairs of events joined by an edge inside a component. */
  method PairsWithin(full: Graph, comp: seq<string>) returns (pairs: Pairs)
    requires full.Valid()
    ensures forall u, v :: (u, v) in pairs <==> JoinedInside(full.Edges(), comp, u, v)
  {
    hide Consistent, EdgeSet;
    var es := full.EdgesWithin(comp);
    pairs := EndsOf(es);
    forall u, v ensures (u, v) in pairs <==> JoinedInside(full.Edges(), comp, u, v) {
      EndsOfExact(es, u, v);
      if e :| JoinsInside(full.Edges(), comp, e, u, v) { assert e in es; }
      if e :| e in es && e.from == u && e.to == v { assert JoinsInside(full.Edges(), comp, e, u, v); }
    }
  }

  /** The pairs of events that the drawing marks as cyclic. */
  method CyclicPairs(full: Graph) returns (pairs: Pairs)
    requires full.Valid()
    ensures pairs == CyclicOf(full.Edges())
  {
    hide CyclicComponents, Consistent, EdgeSet, JoinedInside, CyclicOf;
    ghost var E := full.Edges();
    var comps := Cycles(full);
    pairs := {};
    for i := 0 to |comps|
      invariant forall u, v :: (u, v) in pairs <==> exists j :: 0 <= j < i && JoinedInside(E, comps[j], u, v)
    {
      var more := PairsWithin(full, comps[i]);
      pairs := pairs + more;
    }
    forall x ensures x in pairs <==> x in CyclicOf(E) {
      CyclicPair(E, comps, x.0, x.1);
      assert x == (x.0, x.1);
    }
  }

  lemma CyclicPair(E: set<Edge>, comps: seq<seq<string>>, u: string, v: string)
    requires CyclicComponents(E, comps)
    ensures (exists j :: 0 <= j < |comps| && JoinedInside(E, comps[j], u, v)) <==> (u, v) in CyclicOf(E)
  {
    hide CyclicComponents, Reach;
    if j :| 0 <= j < |comps| && JoinedInside(E, comps[j], u, v) {
      var e :| JoinsInside(E, comps[j], e, u, v);
      EdgeOnCycle(E, comps, e);
    }
    if (u, v) in CyclicOf(E) {
      var e :| e in E && Reach(E, e.to, e.from) && (e.from, e.to) == (u, v);
      EdgeOnCycle(E, comps, e);
      var j :| 0 <= j < |comps| && e.from in comps[j] && e.to in comps[j];
      assert JoinsInside(E, comps[j], e, u, v);
      assert JoinedInside(E, comps[j], u, v);
    }
  }

  // ---- what is drawn --------------------------------------------------------------

  /** A relation between two components. */
  datatype Relation = Nested(i: nat) | Depends(i: nat, k: nat) | Imports(n: Need)

  predicate IsRelation(t: Tree, r: Relation) {
    match r
    case Nested(i) => i < |t.components| && t.components[i].parent.Some?
    case Depends(i, k) =>
      i < |t.components| && k < |t.components[i].dependsOn| &&
      t.components[i].DepKey(t.components[i].dependsOn[k]) in t.byKey
    case Imports(n) => n.provider < |t.components| && n.consumer < |t.components| && Matters(t.components, n)
  }

  /** The pairs of events whose edges the drawn relation stands for. */
  ghost function Collapses(t: Tree, r: Relation): Pairs
    requires WellFormed(t) && IsRelation(t, r)
  {
    var cs := t.components;
    match r
    case Nested(i) =>
      var p := cs[cs[i].parent.value];
      {(StartOf(p), StartOf(cs[i]))} + if p.wait then {(ReadyOf(cs[i]), ReadyOf(p))} else {}
    case Depends(i, k) => {(ReadyOf(cs[t.byKey[cs[i].DepKey(cs[i].dependsOn[k])]]), StartOf(cs[i]))}
    case Imports(n) => {(NeedEdge(cs, n).from, NeedEdge(cs, n).to)}
  }

  ghost predicate Meets(a: Pairs, b: Pairs) {
    exists x :: x in a && x in b
  }

  /** g shows the relation, marked by what it collapses. */
  ghost predicate Shows(t: Tree, critical: Pairs, cyclic: Pairs, r: Relation, g: GraphEdge)
    requires WellFormed(t)
  {
    && IsRelation(t, r)
    && (g.critical <==> Meets(Collapses(t, r), critical))
    && (g.inCycle <==> Meets(Collapses(t, r), cyclic))
    && var cs := t.components;
       match r
       case Nested(i) =>
         var p := cs[cs[i].parent.value];
         && g.from == p.String() && g.to == cs[i].String()
         && g.kind == (if p.wait then "parent+wait" else "parent") && g.text == ""
       case Depends(i, k) =>
         g.from == cs[t.byKey[cs[i].DepKey(cs[i].dependsOn[k])]].String() && g.to == cs[i].String() &&
         g.kind == "dependsOn" && g.text == ""
       case Imports(n) =>
         g.from == cs[n.provider].String() && g.to == cs[n.consumer].String() &&
         g.kind == "need" && g.text == KindName(n.kind) + " " + n.what
  }

  ghost predicate AllShown(t: Tree, critical: Pairs, cyclic: Pairs, rels: seq<Relation>, edges: seq<GraphEdge>)
    requires WellFormed(t)
  {
    |rels| == |edges| && forall k :: 0 <= k < |edges| ==> Shows(t, critical, cyclic, rels[k], edges[k])
  }

  /** Two imports are drawn as one edge: same names at both ends and same kind. */
  ghost predicate DrawnAlike(cs: seq<Component>, m: Need, n: Need)
    requires m.provider < |cs| && m.consumer < |cs| && n.provider < |cs| && n.consumer < |cs|
  {
    && cs[m.provider].String() == cs[n.provider].String()
    && cs[m.consumer].String() == cs[n.consumer].String()
    && m.kind == n.kind
  }

  ghost predicate ImportDrawn(t: Tree, rels: seq<Relation>, n: Need)
    requires n.provider < |t.components| && n.consumer < |t.components|
  {
    exists k :: 0 <= k < |rels| && rels[k].Imports? && IsRelation(t, rels[k]) && DrawnAlike(t.components, rels[k].n, n)
  }

  /** The same relation, or imports that are drawn as one. */
  ghost predicate SameDrawing(t: Tree, r: Relation, q: Relation) {
    if r.Imports? && q.Imports? && IsRelation(t, r) && IsRelation(t, q) then DrawnAlike(t.components, r.n, q.n)
    else r == q
  }

  ghost predicate DrawnOnce(t: Tree, rels: seq<Relation>) {
    forall a, b :: 0 <= a < b < |rels| ==> !SameDrawing(t, rels[a], rels[b])
  }

  lemma OnceMore(t: Tree, rels: seq<Relation>, more: seq<Relation>)
    requires DrawnOnce(t, rels) && DrawnOnce(t, more)
    requires forall r, q :: r in rels && q in more ==> !SameDrawing(t, r, q)
    ensures DrawnOnce(t, rels + more)
  {
    hide SameDrawing;
  }

  /** Every nesting, every dependsOn entry that exists and every import, up to
      its names and kind, is drawn, and drawn once. */
  ghost predicate AllDrawn(t: Tree, needs: seq<Need>, rels: seq<Relation>)
    requires NeedsInRange(t.components, needs)
  {
    && (forall r :: IsRelation(t, r) && !r.Imports? ==> r in rels)
    && (forall n {:trigger ImportDrawn(t, rels, n)} ::
          n in needs && Matters(t.components, n) ==> ImportDrawn(t, rels, n))
    && DrawnOnce(t, rels)
  }

  /** ... as far as the first n components go. */
  ghost predicate ComponentsDrawn(t: Tree, n: nat, rels: seq<Relation>) {
    forall r :: IsRelation(t, r) && ((r.Nested? && r.i < n) || (r.Depends? && r.i < n)) ==> r in rels
  }

  // ---- drawing it -------------------------------------------------------------------

  lemma NestingShown(t: Tree, critical: Pairs, cyclic: Pairs, i: nat, g: GraphEdge)
    requires WellFormed(t) && IsRelation(t, Nested(i))
    requires var c := t.components[i];
      var p := t.components[c.parent.value];
      var down, up := (StartOf(p), StartOf(c)), (ReadyOf(c), ReadyOf(p));
      g == GraphEdge(p.String(), c.String(), if p.wait then "parent+wait" else "parent", "",
                     down in critical || (p.wait && up in critical), down in cyclic || (p.wait && up in cyclic))
    ensures Shows(t, critical, cyclic, Nested(i), g)
  {
    hide StartOf, ReadyOf, KeyFor;
  }

  lemma DependsShown(t: Tree, critical: Pairs, cyclic: Pairs, i: nat, k: nat, g: GraphEdge)
    requires WellFormed(t) && IsRelation(t, Depends(i, k))
    requires var c := t.components[i];
      var d := t.components[t.byKey[c.DepKey(c.dependsOn[k])]];
      var pair := (ReadyOf(d), StartOf(c));
      g == GraphEdge(d.String(), c.String(), "dependsOn", "", pair in critical, pair in cyclic)
    ensures Shows(t, critical, cyclic, Depends(i, k), g)
  {
    hide StartOf, ReadyOf, KeyFor;
  }

  /** The edges of one component: to its parent, then to each existing dependency. */
  method DrawComponent(t: Tree, i: nat, critical: Pairs, cyclic: Pairs)
    returns (edges: seq<GraphEdge>, ghost rels: seq<Relation>)
    requires WellFormed(t) && i < |t.components|
    ensures AllShown(t, critical, cyclic, rels, edges)
    ensures forall r :: IsRelation(t, r) && ((r.Nested? && r.i == i) || (r.Depends? && r.i == i)) ==> r in rels
    ensures DrawnOnce(t, rels) && forall r :: r in rels ==> !r.Imports? && r.i == i
  {
    hide StartOf, ReadyOf, KeyFor, Shows;
    var c := t.components[i];
    edges, rels := [], [];
    if c.parent.Some? {
      var p := t.components[c.parent.value];
      var down, up := (StartOf(p), StartOf(c)), (ReadyOf(c), ReadyOf(p));
      var g := GraphEdge(p.String(), c.String(), "parent", "", down in critical, down in cyclic);
      if p.wait {
        g := g.(kind := "parent+wait", critical := g.critical || up in critical, inCycle := g.inCycle || up in cyclic);
      }
      NestingShown(t, critical, cyclic, i, g);
      edges, rels := [g], [Nested(i)];
    }
    for k := 0 to |c.dependsOn|
      invariant AllShown(t, critical, cyclic, rels, edges)
      invariant c.parent.Some? ==> Nested(i) in rels
      invariant forall j: nat :: j < k && IsRelation(t, Depends(i, j)) ==> Depends(i, j) in rels
      invariant DrawnOnce(t, rels) && forall r :: r in rels ==> r == Nested(i) || (r.Depends? && r.i == i && r.k < k)
    {
      var key := c.DepKey(c.dependsOn[k]);
      if key in t.byKey {
        var dep := t.components[t.byKey[key]];
        var pair := (ReadyOf(dep), StartOf(c));
        var g := GraphEdge(dep.String(), c.String(), "dependsOn", "", pair in critical, pair in cyclic);
        DependsShown(t, critical, cyclic, i, k, g);
        edges, rels := edges + [g], rels + [Depends(i, k)];
      }
    }
  }

  /** The edges of the imports that matter, one per pair of names and kind. */
  method DrawNeeds(t: Tree, needs: seq<Need>, critical: Pairs, cyclic: Pairs)
    returns (edges: seq<GraphEdge>, ghost rels: seq<Relation>)
    requires WellFormed(t) && NeedsInRange(t.components, needs)
    ensures AllShown(t, critical, cyclic, rels, edges)
    ensures forall n {:trigger ImportDrawn(t, rels, n)} ::
      n in needs && Matters(t.components, n) ==> ImportDrawn(t, rels, n)
    ensures DrawnOnce(t, rels) && forall r :: r in rels ==> r.Imports?
  {
    hide StartOf, ReadyOf, KeyFor, NeedEdge, Matters, SeenBy, ImportDrawn, Shows, DrawnOnce, AllKeysIn;
    var cs := t.components;
    var seen: set<(string, string, NeedKind)> := {};
    edges, rels := [], [];
    NoKeys(t);
    for i := 0 to |needs|
      invariant AllShown(t, critical, cyclic, rels, edges)
      invariant forall j {:trigger ImportDrawn(t, rels, needs[j])} ::
        0 <= j < i && Matters(cs, needs[j]) ==> ImportDrawn(t, rels, needs[j])
      invariant forall a, b, c :: (a, b, c) in seen ==> SeenBy(t, rels, a, b, c)
      invariant DrawnOnce(t, rels) && AllKeysIn(t, rels, seen)
    {
      var n := needs[i];
      assert n in needs;
      if Matters(cs, n) {
        var key := (cs[n.provider].String(), cs[n.consumer].String(), n.kind);
        if key in seen {
          SeenIsDrawn(t, rels, n);
        } else {
          var pair := (NeedEdge(cs, n).from, NeedEdge(cs, n).to);
          var g := GraphEdge(key.0, key.1, "need", KindName(n.kind) + " " + n.what, pair in critical, pair in cyclic);
          ImportShown(t, critical, cyclic, n, g);
          MoreSeen(t, rels, Imports(n));
          NewKey(t, rels, seen, n);
          edges, rels, seen := edges + [g], rels + [Imports(n)], seen + {key};
        }
      }
    }
    forall n {:trigger ImportDrawn(t, rels, n)} | n in needs && Matters(cs, n) ensures ImportDrawn(t, rels, n) {
      var j :| 0 <= j < |needs| && needs[j] == n;
      assert ImportDrawn(t, rels, needs[j]);
    }
    OnlyImports(t, rels, seen);
  }

  /** What has been drawn are imports, and their names and kinds are among the keys. */
  ghost predicate AllKeysIn(t: Tree, rels: seq<Relation>, seen: set<(string, string, NeedKind)>) {
    forall r :: r in rels ==>
      && r.Imports? && IsRelation(t, r)
      && (t.components[r.n.provider].String(), t.components[r.n.consumer].String(), r.n.kind) in seen
  }

  lemma NoKeys(t: Tree)
    ensures DrawnOnce(t, []) && AllKeysIn(t, [], {})
  {
  }

  lemma OnlyImports(t: Tree, rels: seq<Relation>, seen: set<(string, string, NeedKind)>)
    requires AllKeysIn(t, rels, seen)
    ensures forall r :: r in rels ==> r.Imports?
  {
  }

  lemma NewKey(t: Tree, rels: seq<Relation>, seen: set<(string, string, NeedKind)>, n: Need)
    requires IsRelation(t, Imports(n)) && DrawnOnce(t, rels) && AllKeysIn(t, rels, seen)
    requires (t.components[n.provider].String(), t.components[n.consumer].String(), n.kind) !in seen
    ensures DrawnOnce(t, rels + [Imports(n)])
    ensures var key := (t.components[n.provider].String(), t.components[n.consumer].String(), n.kind);
      AllKeysIn(t, rels + [Imports(n)], seen + {key})
  {
    hide KeyFor, Matters;
    OnceMore(t, rels, [Imports(n)]);
  }

  ghost predicate SeenBy(t: Tree, rels: seq<Relation>, provider: string, consumer: string, kind: NeedKind) {
    exists k :: 0 <= k < |rels| && rels[k].Imports? && IsRelation(t, rels[k]) && rels[k].n.kind == kind &&
      t.components[rels[k].n.provider].String() == provider && t.components[rels[k].n.consumer].String() == consumer
  }

  lemma SeenIsDrawn(t: Tree, rels: seq<Relation>, n: Need)
    requires n.provider < |t.components| && n.consumer < |t.components|
    requires SeenBy(t, rels, t.components[n.provider].String(), t.components[n.consumer].String(), n.kind)
    ensures ImportDrawn(t, rels, n)
  {
    hide KeyFor;
  }

  lemma ImportShown(t: Tree, critical: Pairs, cyclic: Pairs, n: Need, g: GraphEdge)
    requires WellFormed(t) && IsRelation(t, Imports(n))
    requires var pair := (NeedEdge(t.components, n).from, NeedEdge(t.components, n).to);
      g == GraphEdge(t.components[n.provider].String(), t.components[n.consumer].String(), "need",
                     KindName(n.kind) + " " + n.what, pair in critical, pair in cyclic)
    ensures Shows(t, critical, cyclic, Imports(n), g)
  {
    hide NeedEdge, KeyFor;
  }

  lemma MoreSeen(t: Tree, rels: seq<Relation>, r: Relation)
    ensures forall a, b, c :: SeenBy(t, rels, a, b, c) ==> SeenBy(t, rels + [r], a, b, c)
    ensures forall n: Need :: n.provider < |t.components| && n.consumer < |t.components| && ImportDrawn(t, rels, n)
              ==> ImportDrawn(t, rels + [r], n)
    ensures r.Imports? && IsRelation(t, r) ==>
      && SeenBy(t, rels + [r], t.components[r.n.provider].String(), t.components[r.n.consumer].String(), r.n.kind)
      && ImportDrawn(t, rels + [r], r.n)
  {
    hide KeyFor;
    var longer := rels + [r];
    assert forall k :: 0 <= k < |rels| ==> longer[k] == rels[k];
    assert longer[|rels|] == r;
  }

  /** path is a chain of recorded predecessors that ends at the end of a schedule. */
  ghost predicate ChainToEnd(D: set<Edge>, N: set<string>, inc: map<string, seq<Edge>>, s: Schedule, path: seq<Edge>) {
    ScheduleOf(D, N, inc, s) && Chain(D, s, path, s.end)
  }

  /** path is the critical chain of some schedule of D, is empty where D has a
      cycle, and is heaviest where no weight is negative. */
  ghost predicate CriticalIn(D: set<Edge>, path: seq<Edge>) {
    && (Acyclic(D) ==> exists N, inc, s :: ChainToEnd(D, N, inc, s, path))
    && (!Acyclic(D) ==> path == [])
    && (Acyclic(D) && NonNegative(D) ==> Heaviest(D, Weight(path)))
  }

  /** The pairs of events that the drawing marks as critical. */
  method CriticalPairs(t: Tree, requeue: int) returns (pairs: Pairs)
    requires WellFormed(t)
    ensures forall D :: Declares(t, requeue, D) ==> exists path :: CriticalIn(D, path) && pairs == EndsOf(path)
  {
    hide Declares, EndsOf, ScheduleOf, Acyclic, NonNegative, Heaviest, Consistent, EdgeSet, EventNames;
    var g := DeclaredGraph(t, requeue);
    ghost var D := g.Edges();
    NamesNotEmpty(t.components);
    var path := [];
    var s := Solve(g);
    if s.Some? {
      path := CriticalPath(s.value, D, g.nodes, g.inc);
      assert ChainToEnd(D, g.nodes, g.inc, s.value, path);
      MakespanIsHeaviest(D, g.nodes, g.inc, s.value);
    }
    pairs := EndsOf(path);
    assert CriticalIn(D, path);
    forall D' | Declares(t, requeue, D') ensures D' == D { DeclaresUnique(t, requeue, D, D'); }
  }

  /** The drawn edges show relations one by one, leave none out, and are marked by
      a critical path and by the cycles of the full graph. */
  ghost predicate DrawnBy(t: Tree, needs: seq<Need>, D: set<Edge>, edges: seq<GraphEdge>, rels: seq<Relation>,
                          path: seq<Edge>)
    requires WellFormed(t) && NeedsInRange(t.components, needs)
  {
    && CriticalIn(D, path)
    && AllShown(t, EndsOf(path), CyclicOf(D + NeedEdges(t.components, needs)), rels, edges)
    && AllDrawn(t, needs, rels)
  }

  ghost predicate Drawing(t: Tree, needs: seq<Need>, D: set<Edge>, edges: seq<GraphEdge>)
    requires WellFormed(t) && NeedsInRange(t.components, needs)
  {
    exists rels, path :: DrawnBy(t, needs, D, edges, rels, path)
  }

  lemma ImportsStay(t: Tree, needs: seq<Need>, rels: seq<Relation>, more: seq<Relation>)
    requires NeedsInRange(t.components, needs)
    requires forall n {:trigger ImportDrawn(t, more, n)} ::
      n in needs && Matters(t.components, n) ==> ImportDrawn(t, more, n)
    requires DrawnOnce(t, rels) && DrawnOnce(t, more)
    requires (forall r :: r in rels ==> !r.Imports?) && (forall r :: r in more ==> r.Imports?)
    requires ComponentsDrawn(t, |t.components|, rels)
    ensures AllDrawn(t, needs, rels + more)
  {
    hide KeyFor, DrawnAlike, Matters, DrawnOnce;
    var all := rels + more;
    OnceMore(t, rels, more);
    forall n {:trigger ImportDrawn(t, all, n)} | n in needs && Matters(t.components, n) ensures ImportDrawn(t, all, n) {
      assert ImportDrawn(t, more, n);
      var k :| 0 <= k < |more| && more[k].Imports? && IsRelation(t, more[k]) && DrawnAlike(t.components, more[k].n, n);
      assert all[|rels| + k] == more[k];
    }
  }

  /** The whole drawing. An edge is marked critical iff it collapses a pair of
      the critical path, which is heaviest where no weight is negative, and
      cyclic iff one of the event edges it collapses lies on a cycle of the full graph. */
  method ComponentGraph(t: Tree, requeue: int, needs: seq<Need>) returns (edges: seq<GraphEdge>)
    requires WellFormed(t) && NeedsInRange(t.components, needs)
    ensures forall D :: Declares(t, requeue, D) ==> Drawing(t, needs, D, edges)
  {
    hide Shows, ImportDrawn, Declares, NeedEdges, EventNames, Consistent, EdgeSet;
    hide EndsOf, CyclicOf, CriticalIn, WellFormed, IsRelation;
    var critical := CriticalPairs(t, requeue);
    var full, D := FullGraph(t, requeue, needs);
    ghost var path :| CriticalIn(D, path) && critical == EndsOf(path);
    var cyclic := CyclicPairs(full);
    edges := [];
    ghost var rels: seq<Relation> := [];
    for i := 0 to |t.components|
      invariant AllShown(t, critical, cyclic, rels, edges)
      invariant ComponentsDrawn(t, i, rels)
      invariant DrawnOnce(t, rels) && forall r :: r in rels ==> !r.Imports? && r.i < i
    {
      var more; ghost var moreRels;
      more, moreRels := DrawComponent(t, i, critical, cyclic);
      OnceMore(t, rels, moreRels);
      edges, rels := edges + more, rels + moreRels;
    }
    var imports; ghost var importRels;
    imports, importRels := DrawNeeds(t, needs, critical, cyclic);
    ImportsStay(t, needs, rels, importRels);
    edges, rels := edges + imports, rels + importRels;
    assert DrawnBy(t, needs, D, edges, rels, path);
    forall D' | Declares(t, requeue, D') ensures D' == D { DeclaresUnique(t, requeue, D, D'); }
  }

  // ---- what the marks say ---------------------------------------------------------------

  /** Components with the same display name are of the same kind. */
  ghost predicate NamesShowKind(cs: seq<Component>) {
    forall i, j :: 0 <= i < |cs| && 0 <= j < |cs| && cs[i].String() == cs[j].String() ==>
      (cs[i].IsHelmRelease() <==> cs[j].IsHelmRelease())
  }

  /** Below the root, namespaces and names hold no slash, so a key shows the kind.
      The root is displayed by a name that may hold slashes, such as the path of
      an entrypoint; display names show the kind exactly when that name is not
      the key of a component of another kind. */
  lemma NamesShowKindExact(cs: seq<Component>)
    requires Rooted(cs) && forall i :: 0 < i < |cs| ==> '/' !in cs[i].namespace && '/' !in cs[i].name
    ensures NamesShowKind(cs) <==>
      forall i :: 0 < i < |cs| && cs[i].Key() == cs[0].name ==> (cs[i].IsHelmRelease() <==> cs[0].IsHelmRelease())
  {
    hide KeyFor;
    if NamesShowKind(cs) {
      forall i | 0 < i < |cs| && cs[i].Key() == cs[0].name ensures cs[i].IsHelmRelease() <==> cs[0].IsHelmRelease() {
        assert cs[i].String() == cs[0].String();
      }
    } else {
      var i, j :| 0 <= i < |cs| && 0 <= j < |cs| && cs[i].String() == cs[j].String() &&
        !(cs[i].IsHelmRelease() <==> cs[j].IsHelmRelease());
      if i != 0 && j != 0 {
        KeysIdentify(cs[i].kind, cs[i].namespace, cs[i].name, cs[j].kind, cs[j].namespace, cs[j].name);
      }
    }
  }

  /** A root that is a Kustomization and is displayed by a path satisfies that,
      unless the path reads "HelmRelease/namespace/name". */
  lemma PathNamesShowKind(cs: seq<Component>)
    requires Rooted(cs) && forall i :: 0 < i < |cs| ==> '/' !in cs[i].namespace && '/' !in cs[i].name
    requires !cs[0].IsHelmRelease() && !(HELM_RELEASE + "/" <= cs[0].name)
    ensures NamesShowKind(cs)
  {
    hide NamesShowKind, KeyFor;
    NamesShowKindExact(cs);
    forall i | 0 < i < |cs| ensures cs[i].IsHelmRelease() ==> HELM_RELEASE + "/" <= cs[i].Key() { ReleaseKey(cs[i]); }
  }

  lemma ReleaseKey(c: Component)
    ensures c.IsHelmRelease() ==> HELM_RELEASE + "/" <= c.Key()
  {
    var pre := HELM_RELEASE + "/";
    assert c.IsHelmRelease() ==> c.Key() == pre + (c.namespace + "/" + c.name);
  }

  lemma AlikeSameEnds(cs: seq<Component>, m: Need, n: Need)
    requires m.provider < |cs| && m.consumer < |cs| && n.provider < |cs| && n.consumer < |cs|
    requires NamesShowKind(cs) && DrawnAlike(cs, m, n)
    ensures NeedEdge(cs, m).from == NeedEdge(cs, n).from && NeedEdge(cs, m).to == NeedEdge(cs, n).to
  {
    hide KeyFor;
  }

  /** Every edge of the full graph other than apply-to-ready is collapsed into a drawn one. */
  lemma EdgeIsDrawn(t: Tree, requeue: int, needs: seq<Need>, D: set<Edge>, rels: seq<Relation>, e: Edge)
    returns (k: nat)
    requires WellFormed(t) && NeedsInRange(t.components, needs) && NamesShowKind(t.components)
    requires Declares(t, requeue, D) && AllDrawn(t, needs, rels)
    requires e in D + NeedEdges(t.components, needs)
    requires forall i: nat :: !IsApply(t, i, e)
    ensures k < |rels| && IsRelation(t, rels[k]) && (e.from, e.to) in Collapses(t, rels[k])
  {
    hide StartOf, ReadyOf, KeyFor, NeedEdge, NamesShowKind, DrawnAlike;
    var cs := t.components;
    if e in NeedEdges(cs, needs) {
      var n :| n in needs && Matters(cs, n) && e == NeedEdge(cs, n);
      assert ImportDrawn(t, rels, n);
      k :| 0 <= k < |rels| && rels[k].Imports? && IsRelation(t, rels[k]) && DrawnAlike(cs, rels[k].n, n);
      AlikeSameEnds(cs, rels[k].n, n);
    } else {
      var i: nat :| Stated(t, requeue, i, e);
      var r: Relation;
      if IsNesting(t, i, e) {
        r := Nested(i);
      } else {
        var j: nat :| IsDepends(t, requeue, i, j, e);
        r := Depends(i, j);
      }
      assert IsRelation(t, r);
      k :| 0 <= k < |rels| && rels[k] == r;
    }
  }

  /** On every cycle of the full graph lies an edge other than apply-to-ready. */
  lemma CycleHasDrawnEdge(t: Tree, E: set<Edge>, v: string) returns (e: Edge)
    requires ReachPlus(E, v, v)
    ensures e in E && Reach(E, e.to, e.from) && forall i: nat :: !IsApply(t, i, e)
  {
    hide StartName, ReadyName, KeyFor;
    var p :| p != [] && Walk(E, v, p, v);
    e := p[0];
    assert Walk(E, e.to, p[1..], v);
    assert Reach(E, e.to, e.from);
    if i: nat :| IsApply(t, i, e) {
      var c := t.components[i];
      EventNamesInjective(c.String(), c.String());
      assert p[1..] != [];
      var f: Edge := p[1..][0];
      assert f in E && f.from == e.to && Walk(E, f.to, p[1..][1..], v);
      EdgeReach(E, e, e.to) by { ReachRefl(E, e.to); }
      ReachTrans(E, f.to, v, f.from);
      forall j: nat ensures !IsApply(t, j, f) {
        if j < |t.components| { EventNamesInjective(t.components[j].String(), c.String()); }
      }
      e := f;
    }
  }

  /** Some drawn edge is marked cyclic iff the full graph has a cycle, that is,
      iff the deadlock rule reports something. */
  lemma DrawingShowsDeadlock(t: Tree, requeue: int, needs: seq<Need>, D: set<Edge>, edges: seq<GraphEdge>)
    requires WellFormed(t) && NeedsInRange(t.components, needs) && NamesShowKind(t.components)
    requires Declares(t, requeue, D) && Drawing(t, needs, D, edges)
    ensures (exists k :: 0 <= k < |edges| && edges[k].inCycle) <==> !Acyclic(D + NeedEdges(t.components, needs))
  {
    hide Declares, NeedEdges, AllDrawn, NamesShowKind, Collapses, IsRelation, IsApply, CriticalIn;
    var E := D + NeedEdges(t.components, needs);
    var rels, path :| DrawnBy(t, needs, D, edges, rels, path);
    if k :| 0 <= k < |edges| && edges[k].inCycle {
      assert Shows(t, EndsOf(path), CyclicOf(E), rels[k], edges[k]);
      var x :| x in Collapses(t, rels[k]) && x in CyclicOf(E);
      var e :| e in E && Reach(E, e.to, e.from) && (e.from, e.to) == x;
      EdgeReach(E, e, e.from);
    }
    if !Acyclic(E) {
      var v :| ReachPlus(E, v, v);
      var e := CycleHasDrawnEdge(t, E, v);
      var k := EdgeIsDrawn(t, requeue, needs, D, rels, e);
      assert Shows(t, EndsOf(path), CyclicOf(E), rels[k], edges[k]);
      assert (e.from, e.to) in CyclicOf(E);
      assert edges[k].inCycle;
    }
  }
}
