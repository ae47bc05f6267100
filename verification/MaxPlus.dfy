/** Longest walks. An event time solves x = max(0, x[from] + weight) over the
    incoming edges; a latest time solves the mirror image. Both are tied here
    to the weights of walks, which no algorithm appears in. */
module MaxPlus {
  import opened Walks

  // ---- the reference: weights of walks -----------------------------------

  ghost predicate HeaviestInto(E: set<Edge>, v: string, m: int) {
    && (exists u, p :: Walk(E, u, p, v) && Weight(p) == m)
    && (forall u, p :: Walk(E, u, p, v) ==> Weight(p) <= m)
  }

  ghost predicate HeaviestFrom(E: set<Edge>, v: string, m: int) {
    && (exists p, w :: Walk(E, v, p, w) && Weight(p) == m)
    && (forall p, w :: Walk(E, v, p, w) ==> Weight(p) <= m)
  }

  /** m is the greatest weight of any walk, the empty one included. */
  ghost predicate Heaviest(E: set<Edge>, m: int) {
    && (exists u, p, v :: Walk(E, u, p, v) && Weight(p) == m)
    && (forall u, p, v :: Walk(E, u, p, v) ==> Weight(p) <= m)
  }

  // ---- local equations ----------------------------------------------------

  /** x[v] is the greatest of zero and what the incoming edges demand. */
  ghost predicate Settled(E: set<Edge>, x: map<string, int>, v: string) {
    && Get(x, v) >= 0
    && (forall e :: e in E && e.to == v ==> Get(x, e.from) + e.weight <= Get(x, v))
    && (Get(x, v) == 0 || Binding(E, x, v))
  }

  ghost predicate Binding(E: set<Edge>, x: map<string, int>, v: string) {
    exists e :: e in E && e.to == v && Get(x, e.from) + e.weight == Get(x, v)
  }

  /** y[v] is the least of the makespan and what the outgoing edges leave. */
  ghost predicate BackSettled(E: set<Edge>, makespan: int, y: map<string, int>, v: string) {
    && Get(y, v) <= makespan
    && (forall e :: e in E && e.from == v ==> Get(y, v) <= Get(y, e.to) - e.weight)
    && (Get(y, v) == makespan || BackBinding(E, y, v))
  }

  ghost predicate BackBinding(E: set<Edge>, y: map<string, int>, v: string) {
    exists e :: e in E && e.from == v && Get(y, v) == Get(y, e.to) - e.weight
  }

  ghost predicate AllSettled(E: set<Edge>, N: set<string>, x: map<string, int>) {
    forall v {:trigger Settled(E, x, v)} :: v in N ==> Settled(E, x, v)
  }

  ghost predicate AllBackSettled(E: set<Edge>, N: set<string>, makespan: int, y: map<string, int>) {
    forall v {:trigger BackSettled(E, makespan, y, v)} :: v in N ==> BackSettled(E, makespan, y, v)
  }

  /** Any assignment of times that respects every edge. */
  ghost predicate Feasible(E: set<Edge>, N: set<string>, z: map<string, int>) {
    && (forall v :: v in N ==> Get(z, v) >= 0)
    && (forall e :: e in E ==> Get(z, e.from) + e.weight <= Get(z, e.to))
  }

  // ---- earliest times -----------------------------------------------------

  lemma {:induction false} WalkPushes(E: set<Edge>, N: set<string>, z: map<string, int>, u: string,
                                      p: seq<Edge>, v: string)
    requires Feasible(E, N, z) && Walk(E, u, p, v)
    ensures Get(z, u) + Weight(p) <= Get(z, v)
    decreases |p|
  {
    if p != [] { WalkPushes(E, N, z, p[0].to, p[1..], v); }
  }

  lemma SettledFeasible(E: set<Edge>, N: set<string>, x: map<string, int>)
    requires AllSettled(E, N, x) && EndpointsIn(E, N)
    ensures Feasible(E, N, x)
  {
    forall v | v in N ensures Get(x, v) >= 0 { assert Settled(E, x, v); }
    forall e | e in E ensures Get(x, e.from) + e.weight <= Get(x, e.to) { assert Settled(E, x, e.to); }
  }

  lemma {:induction false} Attain(E: set<Edge>, N: set<string>, order: seq<string>, x: map<string, int>, j: nat)
    returns (u: string, p: seq<Edge>)
    requires TopoOrder(E, N, order) && AllSettled(E, N, x) && j < |order|
    ensures Walk(E, u, p, order[j]) && Weight(p) == Get(x, order[j])
    decreases j
  {
    var v := order[j];
    assert Settled(E, x, v);
    if Get(x, v) == 0 {
      u, p := v, [];
    } else {
      assert Binding(E, x, v);
      var e :| e in E && e.to == v && Get(x, e.from) + e.weight == Get(x, v);
      var i :| 0 <= i < j && order[i] == e.from;
      var q;
      u, q := Attain(E, N, order, x, i);
      Single(E, e);
      Concat(E, u, q, e.from, [e], v);
      p := q + [e];
    }
  }

  /** The earliest time of a node is the weight of the heaviest walk into it,
      for weights of any sign. */
  lemma EarliestIsHeaviest(E: set<Edge>, N: set<string>, order: seq<string>, x: map<string, int>, v: string)
    requires TopoOrder(E, N, order) && EndpointsIn(E, N) && AllSettled(E, N, x) && v in N
    ensures HeaviestInto(E, v, Get(x, v))
  {
    var j :| 0 <= j < |order| && order[j] == v;
    var u, p := Attain(E, N, order, x, j);
    SettledFeasible(E, N, x);
    forall w, q | Walk(E, w, q, v) ensures Weight(q) <= Get(x, v) {
      WalkPushes(E, N, x, w, q, v);
      if q != [] { WalkEndpoints(E, N, w, q, v); }
    }
  }

  /** ... and it is the least solution: every feasible assignment is later. */
  lemma EarliestIsLeast(E: set<Edge>, N: set<string>, order: seq<string>, x: map<string, int>,
                        z: map<string, int>, v: string)
    requires TopoOrder(E, N, order) && EndpointsIn(E, N) && AllSettled(E, N, x) && v in N
    requires Feasible(E, N, z)
    ensures Feasible(E, N, x) && Get(x, v) <= Get(z, v)
  {
    SettledFeasible(E, N, x);
    var j :| 0 <= j < |order| && order[j] == v;
    var u, p := Attain(E, N, order, x, j);
    WalkPushes(E, N, z, u, p, v);
    if p != [] { WalkEndpoints(E, N, u, p, v); }
  }

  // ---- latest times -------------------------------------------------------

  lemma {:induction false} WalkPulls(E: set<Edge>, N: set<string>, m: int, y: map<string, int>, u: string,
                                     p: seq<Edge>, v: string)
    requires EndpointsIn(E, N) && AllBackSettled(E, N, m, y) && Walk(E, u, p, v)
    ensures Get(y, u) + Weight(p) <= Get(y, v)
    decreases |p|
  {
    if p != [] {
      assert BackSettled(E, m, y, p[0].from);
      WalkPulls(E, N, m, y, p[0].to, p[1..], v);
    }
  }

  lemma {:induction false} BackAttain(E: set<Edge>, N: set<string>, order: seq<string>, m: int,
                                      y: map<string, int>, j: nat)
    returns (p: seq<Edge>, w: string)
    requires TopoOrder(E, N, order) && EndpointsIn(E, N) && AllBackSettled(E, N, m, y) && j < |order|
    ensures Walk(E, order[j], p, w) && Get(y, order[j]) == m - Weight(p)
    decreases |order| - j
  {
    var v := order[j];
    assert BackSettled(E, m, y, v);
    if Get(y, v) == m {
      p, w := [], v;
    } else {
      assert BackBinding(E, y, v);
      var e :| e in E && e.from == v && Get(y, v) == Get(y, e.to) - e.weight;
      var i :| 0 <= i < |order| && order[i] == e.to;
      assert v in order[..i];
      var q;
      q, w := BackAttain(E, N, order, m, y, i);
      p := [e] + q;
      assert p[1..] == q;
    }
  }

  /** The latest time of a node is the makespan less the heaviest walk out of it. */
  lemma LatestIsHeaviest(E: set<Edge>, N: set<string>, order: seq<string>, m: int, y: map<string, int>, v: string)
    requires TopoOrder(E, N, order) && EndpointsIn(E, N) && AllBackSettled(E, N, m, y) && v in N
    ensures HeaviestFrom(E, v, m - Get(y, v))
  {
    var j :| 0 <= j < |order| && order[j] == v;
    var p, w := BackAttain(E, N, order, m, y, j);
    forall q, z | Walk(E, v, q, z) ensures Weight(q) <= m - Get(y, v) {
      WalkPulls(E, N, m, y, v, q, z);
      if q != [] { WalkEndpoints(E, N, v, q, z); }
      assert BackSettled(E, m, y, z);
    }
  }

  // ---- comparing graphs ---------------------------------------------------

  /** Every edge of D is matched in E by a walk between the same ends that weighs at least as much. */
  ghost predicate CoveredBy(D: set<Edge>, E: set<Edge>) {
    forall e :: e in D ==> Covered(E, e)
  }

  ghost predicate Covered(E: set<Edge>, e: Edge) {
    exists q :: Walk(E, e.from, q, e.to) && Weight(q) >= e.weight
  }

  lemma {:induction false} CoverWalk(D: set<Edge>, E: set<Edge>, u: string, p: seq<Edge>, v: string)
    returns (q: seq<Edge>)
    requires CoveredBy(D, E) && Walk(D, u, p, v)
    ensures Walk(E, u, q, v) && Weight(q) >= Weight(p)
    decreases |p|
  {
    if p == [] {
      q := [];
    } else {
      assert Covered(E, p[0]);
      var a :| Walk(E, p[0].from, a, p[0].to) && Weight(a) >= p[0].weight;
      var b := CoverWalk(D, E, p[0].to, p[1..], v);
      Concat(E, u, a, p[0].to, b, v);
      q := a + b;
    }
  }

  /** A covered graph is never slower: not at any node, and not overall. */
  lemma CoverBounds(D: set<Edge>, E: set<Edge>)
    requires CoveredBy(D, E)
    ensures forall v, a, b :: HeaviestInto(D, v, a) && HeaviestInto(E, v, b) ==> a <= b
    ensures forall a, b :: Heaviest(D, a) && Heaviest(E, b) ==> a <= b
  {
    forall v, a, b | HeaviestInto(D, v, a) && HeaviestInto(E, v, b) ensures a <= b {
      var u, p :| Walk(D, u, p, v) && Weight(p) == a;
      var q := CoverWalk(D, E, u, p, v);
    }
    forall a, b | Heaviest(D, a) && Heaviest(E, b) ensures a <= b {
      var u, p, v :| Walk(D, u, p, v) && Weight(p) == a;
      var q := CoverWalk(D, E, u, p, v);
    }
  }

  // ---- one edge more, one edge less ---------------------------------------

  /** Every walk of weight m goes through the edge. */
  ghost predicate AllUse(E: set<Edge>, m: int, edge: Edge) {
    forall u, p, v :: Walk(E, u, p, v) && Weight(p) == m ==> edge in p
  }

  /** The makespan after removing an edge: never greater, and smaller exactly
      when every heaviest walk goes through that edge. */
  lemma RemovalEffect(E: set<Edge>, drop: Edge, before: int, after: int)
    requires Heaviest(E, before) && Heaviest(E - {drop}, after)
    ensures after <= before
    ensures after < before <==> AllUse(E, before, drop)
  {
    var F := E - {drop};
    var u, p, v :| Walk(F, u, p, v) && Weight(p) == after;
    Mono(F, E, u, p, v);
    WalkEdges(F, u, p, v);
    assert drop !in p;
    if after == before {
      assert Walk(E, u, p, v) && Weight(p) == before && drop !in p;
    } else {
      forall a, q, b | Walk(E, a, q, b) && Weight(q) == before ensures drop in q {
        if drop !in q {
          WalkEdges(E, a, q, b);
          Restrict(E, F, a, q, b);
        }
      }
    }
  }

  lemma {:induction false} ReleaseWalk(E: set<Edge>, N: set<string>, r: Edge, u: string, p: seq<Edge>, v: string)
    requires EndpointsIn(E, N) && r.from !in N && r.to in N
    requires Walk(E + {r}, u, p, v)
    ensures u in N ==> Walk(E, u, p, v)
    ensures p != [] && u !in N ==> p[0] == r && Walk(E, r.to, p[1..], v)
    decreases |p|
  {
    if p != [] {
      ReleaseWalk(E, N, r, p[0].to, p[1..], v);
    }
  }

  /** Add an edge from a fresh node that releases n no earlier than r: the new
      makespan is the old one or the release plus the heaviest walk from n. */
  lemma ReleaseMakespan(E: set<Edge>, N: set<string>, r: Edge, before: int, tail: int, after: int)
    requires EndpointsIn(E, N) && r.from !in N && r.to in N
    requires Heaviest(E, before) && HeaviestFrom(E, r.to, tail) && Heaviest(E + {r}, after)
    ensures after == if before >= r.weight + tail then before else r.weight + tail
  {
    var F := E + {r};
    var u, p, v :| Walk(E, u, p, v) && Weight(p) == before;
    Mono(E, F, u, p, v);
    var q, w :| Walk(E, r.to, q, w) && Weight(q) == tail;
    Mono(E, F, r.to, q, w);
    Single(F, r);
    Concat(F, r.from, [r], r.to, q, w);
    var a, s, b :| Walk(F, a, s, b) && Weight(s) == after;
    ReleaseWalk(E, N, r, a, s, b);
    if s == [] { assert Walk(E, a, [], a); }
  }
}
