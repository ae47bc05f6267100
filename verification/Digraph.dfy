/** The weighted multigraph: insertion, breadth-first reachability with an
    ignored edge, and the edges inside a set of nodes. */
module Digraph {
  import opened Options
  import opened Walks

  /** What remains when edges with both ends and the reason of x are left out, whatever they weigh. */
  ghost function Avoiding(E: set<Edge>, x: Edge): set<Edge> {
    set e | e in E && (e.from != x.from || e.to != x.to || e.reason != x.reason)
  }

  ghost function Kept(E: set<Edge>, ignore: Option<Edge>): set<Edge> {
    if ignore.None? then E else Avoiding(E, ignore.value)
  }

  predicate Matches(e: Edge, ignore: Option<Edge>) {
    ignore.Some? && e.from == ignore.value.from && e.to == ignore.value.to && e.reason == ignore.value.reason
  }

  function At(m: map<string, seq<Edge>>, n: string): seq<Edge> {
    if n in m then m[n] else []
  }

  function Append(m: map<string, seq<Edge>>, n: string, e: Edge): map<string, seq<Edge>> {
    m[n := At(m, n) + [e]]
  }

  ghost function EdgeSet(out: map<string, seq<Edge>>): set<Edge> {
    set n, e | n in out && e in out[n] :: e
  }

  /** The four fields of a graph describe one and the same multigraph. */
  ghost predicate Consistent(nodes: set<string>, order: seq<string>, out: map<string, seq<Edge>>,
                             inc: map<string, seq<Edge>>)
  {
    && NoDup(order)
    && (forall n :: n in order <==> n in nodes)
    && (forall n, e :: n in out && e in out[n] ==> e.from == n && e.from in nodes && e.to in nodes)
    && (forall n, e :: n in inc && e in inc[n] ==> e.to == n && e in At(out, e.from))
    && (forall n, e :: n in out && e in out[n] ==> e in At(inc, e.to))
  }

  lemma AppendKeepsConsistent(nodes: set<string>, order: seq<string>, out: map<string, seq<Edge>>,
                              inc: map<string, seq<Edge>>, e: Edge)
    requires Consistent(nodes, order, out, inc) && e.from in nodes && e.to in nodes
    ensures Consistent(nodes, order, Append(out, e.from, e), Append(inc, e.to, e))
  {
    hide NoDup;
    var o, i := Append(out, e.from, e), Append(inc, e.to, e);
    forall n, x: Edge | n in o && x in o[n]
      ensures x.from == n && x.from in nodes && x.to in nodes && x in At(i, x.to)
    {
      assert x == e || (n in out && x in out[n]);
    }
    forall n, x: Edge | n in i && x in i[n] ensures x.to == n && x in At(o, x.from) {
      assert x == e || (n in inc && x in inc[n]);
    }
  }

  lemma AppendAddsEdge(out: map<string, seq<Edge>>, n: string, e: Edge)
    ensures EdgeSet(Append(out, n, e)) == EdgeSet(out) + {e}
  {
    var o := Append(out, n, e);
    forall x ensures x in EdgeSet(o) <==> x in EdgeSet(out) + {e} {
      if x in EdgeSet(out) { var m :| m in out && x in out[m]; assert m in o && x in o[m]; }
      assert n in o && e in o[n];
    }
  }

  lemma AppendAt(m: map<string, seq<Edge>>, n: string, e: Edge)
    ensures forall k :: At(Append(m, n, e), k) == At(m, k) + if k == n then [e] else []
  {
    forall k ensures At(Append(m, n, e), k) == At(m, k) + if k == n then [e] else [] {
      if k != n { assert At(m, k) + [] == At(m, k); }
    }
  }

  lemma SmallerRest(U: set<string>, a: set<string>, b: set<string>)
    requires a < b <= U
    ensures |U - b| < |U - a|
  {
    assert b - a != {};
    var x :| x in b - a;
    assert U - b <= (U - a) - {x};
    Subset(U - b, (U - a) - {x});
  }

  lemma {:induction false} Subset<T>(a: set<T>, b: set<T>)
    requires a <= b
    ensures |a| <= |b|
  {
    if a != {} {
      var x :| x in a;
      Subset(a - {x}, b - {x});
    }
  }

  method HasSelfLoop(es: seq<Edge>, n: string) returns (r: bool)
    ensures r <==> exists i :: 0 <= i < |es| && es[i].to == n
  {
    for i := 0 to |es|
      invariant forall j :: 0 <= j < i ==> es[j].to != n
    {
      if es[i].to == n { return true; }
    }
    return false;
  }

  class Graph {
    var nodes: set<string>
    var order: seq<string>
    var out: map<string, seq<Edge>>
    var inc: map<string, seq<Edge>>

    ghost predicate Valid()
      reads this
    {
      Consistent(nodes, order, out, inc)
    }

    function Out(n: string): seq<Edge>
      reads this
    {
      At(out, n)
    }

    function In(n: string): seq<Edge>
      reads this
    {
      At(inc, n)
    }

    /** The edges, without their multiplicity. */
    ghost function Edges(): (E: set<Edge>)
      reads this
      ensures Valid() ==> EndpointsIn(E, nodes)
      ensures Valid() ==> forall e: Edge :: e in E <==> e in Out(e.from)
      ensures Valid() ==> forall e: Edge :: e in E <==> e in In(e.to)
    {
      EdgeSet(out)
    }

    constructor ()
      ensures Valid() && nodes == {} && order == [] && Edges() == {}
      ensures out == map[] && inc == map[]
    {
      nodes, order, out, inc := {}, [], map[], map[];
    }

    method AddNode(n: string)
      requires Valid()
      modifies this
      ensures Valid() && nodes == old(nodes) + {n}
      ensures order == if n in old(nodes) then old(order) else old(order) + [n]
      ensures out == old(out) && inc == old(inc) && Edges() == old(Edges())
    {
      if n !in nodes {
        nodes := nodes + {n};
        order := order + [n];
      }
    }

    method AddEdge(e: Edge)
      requires Valid()
      modifies this
      ensures Valid() && nodes == old(nodes) + {e.from, e.to}
      ensures Edges() == old(Edges()) + {e}
      ensures forall n :: Out(n) == old(Out(n)) + if n == e.from then [e] else []
      ensures forall n :: In(n) == old(In(n)) + if n == e.to then [e] else []
      ensures old(order) <= order
    {
      AddNode(e.from);
      AddNode(e.to);
      hide Consistent, EdgeSet, Append, At;
      AppendKeepsConsistent(nodes, order, out, inc, e);
      AppendAddsEdge(out, e.from, e);
      AppendAt(out, e.from, e);
      AppendAt(inc, e.to, e);
      out := Append(out, e.from, e);
      inc := Append(inc, e.to, e);
    }

    /** The edges whose endpoints are both in the given list. */
    method EdgesWithin(within: seq<string>) returns (r: seq<Edge>)
      requires Valid()
      ensures forall e :: e in r <==> e in Edges() && e.from in within && e.to in within
    {
      r := [];
      for i := 0 to |within|
        invariant forall e :: e in r <==> e in Edges() && e.from in within[..i] && e.to in within
      {
        var es := Out(within[i]);
        for j := 0 to |es|
          invariant forall e :: e in r <==>
            e in Edges() && e.to in within && (e.from in within[..i] || e in es[..j])
        {
          assert es[..j + 1] == es[..j] + [es[j]];
          if es[j].to in within { r := r + [es[j]]; }
        }
        assert es[..|es|] == es;
        assert within[..i + 1] == within[..i] + [within[i]];
      }
      assert within[..|within|] == within;
    }

    /** Breadth-first search: is there a walk of one or more steps that avoids the ignored edge? */
    method Reachable(from: string, to: string, ignore: Option<Edge>) returns (r: bool)
      requires Valid()
      ensures ignore.None? ==> (r <==> ReachPlus(Edges(), from, to))
      ensures ignore.Some? ==> (r <==> ReachPlus(Avoiding(Edges(), ignore.value), from, to))
    {
      hide Consistent, EdgeSet, At, Avoiding, Frontier, Explored, LeadsOut, ReachPlus;
      ghost var K, U := Kept(Edges(), ignore), nodes + {from};
      ghost var done: set<string> := {};
      var seen, queue := {from}, [from];
      Start(K, U, from, to);
      while queue != []
        invariant from in seen && seen <= U && Frontier(K, U, from, seen, queue)
        invariant Explored(K, to, done, seen)
        invariant forall x :: x in seen ==> x in done || x in queue
        decreases |U - seen|, |queue|
      {
        var v, rest := queue[0], queue[1..];
        assert queue == [v] + rest;
        FrontierRest(K, U, from, seen, queue);
        OutLeads(nodes, order, out, inc, from, ignore, v);
        ghost var before := seen;
        r, seen, queue := Expand(Out(v), v, from, to, ignore, seen, rest, K, U);
        if r { return; }
        ExploredMore(K, to, done, v, before, seen);
        done := done + {v};
        if seen != before { SmallerRest(U, before, seen); }
      }
      ExploredAll(K, from, to, done, seen);
      r := false;
    }
  }

  /** es holds the edges out of v, and those that are not ignored are what K has there. */
  ghost predicate LeadsOut(K: set<Edge>, U: set<string>, ignore: Option<Edge>, es: seq<Edge>, v: string) {
    && (forall i :: 0 <= i < |es| && !Matches(es[i], ignore) ==> es[i] in K && es[i].from == v && es[i].to in U)
    && (forall e :: e in K && e.from == v ==> e in es && !Matches(e, ignore))
  }

  lemma OutLeads(nodes: set<string>, order: seq<string>, out: map<string, seq<Edge>>, inc: map<string, seq<Edge>>,
                 from: string, ignore: Option<Edge>, v: string)
    requires Consistent(nodes, order, out, inc)
    ensures LeadsOut(Kept(EdgeSet(out), ignore), nodes + {from}, ignore, At(out, v), v)
  {
    hide NoDup;
    var es := At(out, v);
    forall i | 0 <= i < |es| && !Matches(es[i], ignore)
      ensures es[i] in Kept(EdgeSet(out), ignore) && es[i].from == v && es[i].to in nodes
    {
      assert v in out && es[i] in out[v];
    }
    forall e | e in EdgeSet(out) && e.from == v ensures e in es {
      var n :| n in out && e in out[n];
    }
  }

  lemma Start(K: set<Edge>, U: set<string>, from: string, to: string)
    requires from in U
    ensures Frontier(K, U, from, {from}, [from]) && Explored(K, to, {}, {from})
  {
    ReachRefl(K, from);
  }

  lemma FrontierRest(K: set<Edge>, U: set<string>, from: string, seen: set<string>, queue: seq<string>)
    requires queue != [] && Frontier(K, U, from, seen, queue)
    ensures queue[0] in seen && Frontier(K, U, from, seen, queue[1..])
  {
  }

  lemma ExploredMore(K: set<Edge>, to: string, done: set<string>, v: string, before: set<string>, seen: set<string>)
    requires Explored(K, to, done, before) && Explored(K, to, {v}, seen) && before <= seen
    ensures Explored(K, to, done + {v}, seen)
  {
  }

  /** One round of the search: look along every kept edge that leaves v. */
  method Expand(es: seq<Edge>, v: string, from: string, to: string, ignore: Option<Edge>,
                seen: set<string>, queue: seq<string>, ghost K: set<Edge>, ghost U: set<string>)
    returns (found: bool, seen': set<string>, queue': seq<string>)
    requires LeadsOut(K, U, ignore, es, v) && v in seen && Frontier(K, U, from, seen, queue)
    ensures found ==> ReachPlus(K, from, to)
    ensures !found ==> Explored(K, to, {v}, seen') && Frontier(K, U, from, seen', queue')
    ensures seen <= seen' <= U && queue <= queue' && (seen' == seen ==> queue' == queue)
    ensures forall x :: x in seen' ==> x in seen || x in queue'
  {
    found, seen', queue' := false, seen, queue;
    assert Reach(K, from, v);
    for i := 0 to |es|
      invariant seen <= seen' && Frontier(K, U, from, seen', queue')
      invariant forall j :: 0 <= j < i && !Matches(es[j], ignore) ==> es[j].to in seen' && es[j].to != to
      invariant forall x :: x in seen' ==> x in seen || x in queue'
      invariant queue <= queue' && (seen' == seen ==> queue' == queue)
    {
      var e := es[i];
      if !Matches(e, ignore) {
        ReachEdge(K, from, e);
        if e.to == to { return true, seen', queue'; }
        if e.to !in seen' {
          seen', queue' := seen' + {e.to}, queue' + [e.to];
        }
      }
    }
  }

  /** What the search has seen really is reachable, and the queue holds only seen nodes. */
  ghost predicate Frontier(K: set<Edge>, U: set<string>, from: string, seen: set<string>, queue: seq<string>) {
    && seen <= U
    && (forall x :: x in queue ==> x in seen)
    && (forall x {:trigger x in seen} :: x in seen ==> Reach(K, from, x))
  }

  /** No edge out of a finished node leads to the goal or to a node not seen. */
  ghost predicate Explored(K: set<Edge>, to: string, done: set<string>, seen: set<string>) {
    forall e :: e in K && e.from in done ==> e.to in seen && e.to != to
  }

  lemma ExploredAll(K: set<Edge>, from: string, to: string, done: set<string>, seen: set<string>)
    requires from in seen && seen <= done && Explored(K, to, done, seen)
    ensures !ReachPlus(K, from, to)
  {
    if ReachPlus(K, from, to) {
      var p :| p != [] && Walk(K, from, p, to);
      var m := LastEdge(K, from, p, to);
      ClosedWalk(K, seen, from, p[..|p| - 1], m);
      assert false;
    }
  }
}
