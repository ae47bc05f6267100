/** Walks in a directed multigraph: concatenation, splitting, reachability,
    cycles and topological orders. Everything else in the project is stated
    in these terms, never in terms of how an algorithm happens to search. */
module Walks {

  /** "to cannot happen before from plus weight". */
  datatype Edge = Edge(from: string, to: string, weight: int, reason: string)

  /** p is a contiguous chain of edges of E that leads from u to v. */
  ghost predicate Walk(E: set<Edge>, u: string, p: seq<Edge>, v: string)
    decreases |p|
  {
    if p == [] then u == v
    else p[0] in E && p[0].from == u && Walk(E, p[0].to, p[1..], v)
  }

  function Weight(p: seq<Edge>): int {
    if p == [] then 0 else p[0].weight + Weight(p[1..])
  }

  /** v can be reached from u in zero or more steps. */
  ghost predicate Reach(E: set<Edge>, u: string, v: string) {
    exists p :: Walk(E, u, p, v)
  }

  /** v can be reached from u in one or more steps. */
  ghost predicate ReachPlus(E: set<Edge>, u: string, v: string) {
    exists p :: p != [] && Walk(E, u, p, v)
  }

  ghost predicate Acyclic(E: set<Edge>) {
    forall u :: !ReachPlus(E, u, u)
  }

  ghost predicate EndpointsIn(E: set<Edge>, N: set<string>) {
    forall e :: e in E ==> e.from in N && e.to in N
  }

  ghost predicate NoDup<T>(s: seq<T>) {
    forall i, j :: 0 <= i < j < |s| ==> s[i] != s[j]
  }

  /** Reading a map of numbers: a missing key counts as zero. */
  function Get(m: map<string, int>, k: string): int {
    if k in m then m[k] else 0
  }

  function Elems<T>(s: seq<T>): set<T> {
    set x | x in s
  }

  /** Every node exactly once, every edge pointing forward. */
  ghost predicate TopoOrder(E: set<Edge>, N: set<string>, order: seq<string>) {
    && NoDup(order)
    && (forall n :: n in order <==> n in N)
    && (forall e, j :: e in E && 0 <= j < |order| && order[j] == e.to ==> e.from in order[..j])
  }

  // ---- walks --------------------------------------------------------------

  lemma {:induction false} Concat(E: set<Edge>, u: string, p: seq<Edge>, v: string, q: seq<Edge>, w: string)
    requires Walk(E, u, p, v) && Walk(E, v, q, w)
    ensures Walk(E, u, p + q, w)
    ensures Weight(p + q) == Weight(p) + Weight(q)
    decreases |p|
  {
    if p == [] {
      assert p + q == q;
    } else {
      Concat(E, p[0].to, p[1..], v, q, w);
      assert (p + q)[1..] == p[1..] + q;
    }
  }

  lemma {:induction false} Split(E: set<Edge>, u: string, p: seq<Edge>, w: string, k: nat) returns (m: string)
    requires Walk(E, u, p, w) && k <= |p|
    ensures Walk(E, u, p[..k], m) && Walk(E, m, p[k..], w)
    ensures Weight(p) == Weight(p[..k]) + Weight(p[k..])
    ensures k < |p| ==> m == p[k].from
    ensures k > 0 ==> m == p[k - 1].to
    decreases |p|
  {
    if k == 0 {
      m := u;
      assert p[..0] == [] && p[0..] == p;
    } else {
      m := Split(E, p[0].to, p[1..], w, k - 1);
      assert p[..k][1..] == p[1..][..k - 1];
      assert p[k..] == p[1..][k - 1..];
    }
  }

  lemma {:induction false} Mono(E: set<Edge>, F: set<Edge>, u: string, p: seq<Edge>, v: string)
    requires Walk(E, u, p, v) && E <= F
    ensures Walk(F, u, p, v)
    decreases |p|
  {
    if p != [] { Mono(E, F, p[0].to, p[1..], v); }
  }

  /** A walk uses only edges of its graph, so it survives in any graph that keeps those. */
  lemma {:induction false} Restrict(E: set<Edge>, F: set<Edge>, u: string, p: seq<Edge>, v: string)
    requires Walk(E, u, p, v) && forall e :: e in p ==> e in F
    ensures Walk(F, u, p, v)
    decreases |p|
  {
    if p != [] {
      assert forall e :: e in p[1..] ==> e in p;
      Restrict(E, F, p[0].to, p[1..], v);
    }
  }

  lemma {:induction false} WalkEdges(E: set<Edge>, u: string, p: seq<Edge>, v: string)
    requires Walk(E, u, p, v)
    ensures forall e :: e in p ==> e in E
    decreases |p|
  {
    if p != [] {
      WalkEdges(E, p[0].to, p[1..], v);
      assert p == [p[0]] + p[1..];
    }
  }

  lemma Single(E: set<Edge>, e: Edge)
    requires e in E
    ensures Walk(E, e.from, [e], e.to) && Weight([e]) == e.weight
    ensures Reach(E, e.from, e.to) && ReachPlus(E, e.from, e.to)
  {
    assert Walk(E, e.to, [e][1..], e.to);
    assert Walk(E, e.from, [e], e.to);
    assert [e] != [];
  }

  lemma {:induction false} LastEdge(E: set<Edge>, u: string, p: seq<Edge>, v: string) returns (m: string)
    requires Walk(E, u, p, v) && p != []
    ensures var e := p[|p| - 1]; e in E && e.to == v && e.from == m
    ensures Walk(E, u, p[..|p| - 1], m) && Weight(p) == Weight(p[..|p| - 1]) + p[|p| - 1].weight
  {
    m := Split(E, u, p, v, |p| - 1);
    var q := p[|p| - 1..];
    assert q == [p[|p| - 1]] && q[1..] == [];
  }

  // ---- reachability -------------------------------------------------------

  lemma ReachRefl(E: set<Edge>, u: string)
    ensures Reach(E, u, u)
  {
    assert Walk(E, u, [], u);
  }

  lemma ReachTrans(E: set<Edge>, u: string, v: string, w: string)
    requires Reach(E, u, v) && Reach(E, v, w)
    ensures Reach(E, u, w)
    ensures ReachPlus(E, u, v) || ReachPlus(E, v, w) ==> ReachPlus(E, u, w)
  {
    var p :| Walk(E, u, p, v);
    var q :| Walk(E, v, q, w);
    Concat(E, u, p, v, q, w);
    if ReachPlus(E, u, v) {
      var p' :| p' != [] && Walk(E, u, p', v);
      Concat(E, u, p', v, q, w);
      assert p' + q != [];
    }
    if ReachPlus(E, v, w) {
      var q' :| q' != [] && Walk(E, v, q', w);
      Concat(E, u, p, v, q', w);
      assert p + q' != [];
    }
  }

  lemma ReachEdge(E: set<Edge>, u: string, e: Edge)
    requires Reach(E, u, e.from) && e in E
    ensures Reach(E, u, e.to) && ReachPlus(E, u, e.to)
  {
    Single(E, e);
    ReachTrans(E, u, e.from, e.to);
  }

  lemma EdgeReach(E: set<Edge>, e: Edge, v: string)
    requires e in E && Reach(E, e.to, v)
    ensures Reach(E, e.from, v) && ReachPlus(E, e.from, v)
  {
    Single(E, e);
    ReachTrans(E, e.from, e.to, v);
  }

  lemma PlusIsReach(E: set<Edge>, u: string, v: string)
    requires ReachPlus(E, u, v)
    ensures Reach(E, u, v)
  {
    var p :| p != [] && Walk(E, u, p, v);
  }

  lemma ReachMono(E: set<Edge>, F: set<Edge>, u: string, v: string)
    requires E <= F
    ensures Reach(E, u, v) ==> Reach(F, u, v)
    ensures ReachPlus(E, u, v) ==> ReachPlus(F, u, v)
  {
    if Reach(E, u, v) {
      var p :| Walk(E, u, p, v);
      Mono(E, F, u, p, v);
    }
    if ReachPlus(E, u, v) {
      var p :| p != [] && Walk(E, u, p, v);
      Mono(E, F, u, p, v);
    }
  }

  /** Two different nodes that reach each other lie on a cycle. */
  lemma DistinctReach(E: set<Edge>, u: string, v: string)
    requires Reach(E, u, v) && u != v
    ensures ReachPlus(E, u, v)
  {
    var p :| Walk(E, u, p, v);
    assert p != [];
  }

  /** A set of nodes that no edge leaves is never left. */
  lemma {:induction false} ClosedReach(E: set<Edge>, C: set<string>, u: string, v: string)
    requires forall e :: e in E && e.from in C ==> e.to in C
    requires u in C && Reach(E, u, v)
    ensures v in C
  {
    var p :| Walk(E, u, p, v);
    ClosedWalk(E, C, u, p, v);
  }

  lemma {:induction false} ClosedWalk(E: set<Edge>, C: set<string>, u: string, p: seq<Edge>, v: string)
    requires forall e :: e in E && e.from in C ==> e.to in C
    requires u in C && Walk(E, u, p, v)
    ensures v in C
    decreases |p|
  {
    if p != [] { ClosedWalk(E, C, p[0].to, p[1..], v); }
  }

  lemma {:induction false} WalkEndpoints(E: set<Edge>, N: set<string>, u: string, p: seq<Edge>, v: string)
    requires EndpointsIn(E, N) && Walk(E, u, p, v) && p != []
    ensures u in N && v in N
  {
    var m := LastEdge(E, u, p, v);
  }

  // ---- cycles and orders --------------------------------------------------

  ghost predicate HasPred(E: set<Edge>, S: set<string>, x: string) {
    exists e :: e in E && e.to == x && e.from in S
  }

  ghost predicate PredClosed(E: set<Edge>, S: set<string>) {
    forall x {:trigger HasPred(E, S, x)} :: x in S ==> HasPred(E, S, x)
  }

  /** Walking backwards inside a finite set in which every node has a
      predecessor eventually closes a cycle, and that cycle reaches the start. */
  lemma BackwardCycle(E: set<Edge>, S: set<string>, v: string) returns (c: string)
    requires v in S
    requires PredClosed(E, S)
    ensures c in S && ReachPlus(E, c, c) && Reach(E, c, v)
  {
    ReachRefl(E, v);
    c := BackwardFrom(E, S, v, v, {v});
  }

  lemma {:induction false} BackwardFrom(E: set<Edge>, S: set<string>, v: string, u: string, seen: set<string>)
    returns (c: string)
    requires u in seen && seen <= S && Reach(E, u, v)
    requires PredClosed(E, S)
    requires forall x :: x in seen ==> Reach(E, u, x)
    ensures c in S && ReachPlus(E, c, c) && Reach(E, c, v)
    decreases |S - seen|
  {
    assert HasPred(E, S, u);
    var e :| e in E && e.to == u && e.from in S;
    EdgeReach(E, e, v);
    if e.from in seen {
      EdgeReach(E, e, e.from);
      c := e.from;
    } else {
      forall x | x in seen + {e.from} ensures Reach(E, e.from, x) {
        if x in seen { EdgeReach(E, e, x); } else { ReachRefl(E, x); }
      }
      assert S - (seen + {e.from}) == (S - seen) - {e.from};
      c := BackwardFrom(E, S, v, e.from, seen + {e.from});
    }
  }

  lemma {:induction false} WalkGoesForward(E: set<Edge>, N: set<string>, order: seq<string>, u: string,
                                           p: seq<Edge>, v: string, j: nat)
    requires TopoOrder(E, N, order) && Walk(E, u, p, v) && p != []
    requires j < |order| && order[j] == v
    ensures u in order[..j]
    decreases |p|
  {
    var m := LastEdge(E, u, p, v);
    assert m in order[..j];
    if |p| > 1 {
      var i :| 0 <= i < j && order[i] == m;
      WalkGoesForward(E, N, order, u, p[..|p| - 1], m, i);
    } else {
      assert p[..0] == [];
    }
  }

  lemma TopoAcyclic(E: set<Edge>, N: set<string>, order: seq<string>)
    requires TopoOrder(E, N, order) && EndpointsIn(E, N)
    ensures Acyclic(E)
  {
    forall u ensures !ReachPlus(E, u, u) {
      if ReachPlus(E, u, u) {
        var p :| p != [] && Walk(E, u, p, u);
        WalkEndpoints(E, N, u, p, u);
        var j :| 0 <= j < |order| && order[j] == u;
        WalkGoesForward(E, N, order, u, p, u, j);
      }
    }
  }

  /** A function to the integers that grows along every edge rules out cycles. */
  lemma {:induction false} RankAcyclic(E: set<Edge>, rank: string -> int)
    requires forall e :: e in E ==> rank(e.from) < rank(e.to)
    ensures Acyclic(E)
  {
    forall u ensures !ReachPlus(E, u, u) {
      if ReachPlus(E, u, u) {
        var p :| p != [] && Walk(E, u, p, u);
        RankGrows(E, rank, u, p, u);
      }
    }
  }

  lemma {:induction false} RankGrows(E: set<Edge>, rank: string -> int, u: string, p: seq<Edge>, v: string)
    requires forall e :: e in E ==> rank(e.from) < rank(e.to)
    requires Walk(E, u, p, v) && p != []
    ensures rank(u) < rank(v)
    decreases |p|
  {
    if |p| > 1 { RankGrows(E, rank, p[0].to, p[1..], v); }
  }

  lemma {:induction false} NoDupCard<T>(s: seq<T>, S: set<T>)
    requires NoDup(s) && forall x :: x in s ==> x in S
    ensures |s| <= |S|
    ensures |s| == |S| ==> forall x :: x in S ==> x in s
  {
    if s == [] {
    } else {
      var t, x := s[..|s| - 1], s[|s| - 1];
      assert s == t + [x];
      NoDupCard(t, S - {x});
    }
  }
}
