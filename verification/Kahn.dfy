/** Kahn's algorithm with in-degree counters over a multigraph. */
module Kahn {
  import opened Walks
  import opened Digraph

  /** How many of these edges lead to v, counting parallel edges. */
  function CountTo(es: seq<Edge>, v: string): nat {
    if es == [] then 0 else (if es[0].to == v then 1 else 0) + CountTo(es[1..], v)
  }

  /** In-degree of v from the nodes of order that are not done. */
  ghost function Pending(out: map<string, seq<Edge>>, order: seq<string>, done: set<string>, v: string): nat {
    if order == [] then 0
    else (if order[0] in done then 0 else CountTo(At(out, order[0]), v)) + Pending(out, order[1..], done, v)
  }

  lemma {:induction false} CountSnoc(es: seq<Edge>, e: Edge, v: string)
    ensures CountTo(es + [e], v) == CountTo(es, v) + if e.to == v then 1 else 0
  {
    if es != [] {
      CountSnoc(es[1..], e, v);
      assert (es + [e])[1..] == es[1..] + [e];
    }
  }

  lemma {:induction false} CountPositive(es: seq<Edge>, v: string)
    ensures CountTo(es, v) > 0 <==> exists e :: e in es && e.to == v
  {
    if es != [] {
      CountPositive(es[1..], v);
      assert es == [es[0]] + es[1..];
    }
  }

  lemma {:induction false} PendingSnoc(out: map<string, seq<Edge>>, order: seq<string>, n: string,
                                       done: set<string>, v: string)
    ensures Pending(out, order + [n], done, v)
         == Pending(out, order, done, v) + if n in done then 0 else CountTo(At(out, n), v)
  {
    if order != [] {
      PendingSnoc(out, order[1..], n, done, v);
      assert (order + [n])[1..] == order[1..] + [n];
    }
  }

  /** Finishing one node takes exactly its own edges out of the count. */
  lemma {:induction false} PendingDone(out: map<string, seq<Edge>>, order: seq<string>, done: set<string>,
                                       n: string, v: string)
    requires NoDup(order) && n !in done
    ensures n !in order ==> Pending(out, order, done + {n}, v) == Pending(out, order, done, v)
    ensures n in order ==> Pending(out, order, done, v) == Pending(out, order, done + {n}, v) + CountTo(At(out, n), v)
  {
    if order != [] {
      assert order == [order[0]] + order[1..];
      assert order[0] !in order[1..];
      PendingDone(out, order[1..], done, n, v);
    }
  }

  lemma {:induction false} PendingPositive(out: map<string, seq<Edge>>, order: seq<string>, done: set<string>,
                                           v: string)
    ensures Pending(out, order, done, v) > 0
       <==> exists n, e :: n in order && n !in done && e in At(out, n) && e.to == v
  {
    if order != [] {
      PendingPositive(out, order[1..], done, v);
      CountPositive(At(out, order[0]), v);
      assert order == [order[0]] + order[1..];
    }
  }

  /** The counters start as in-degrees. */
  method InDegrees(g: Graph) returns (indeg: map<string, int>)
    requires g.Valid()
    ensures forall v :: v in g.nodes ==> v in indeg
    ensures forall v :: v in indeg ==> indeg[v] == Pending(g.out, g.order, {}, v)
    ensures forall v :: v !in indeg ==> Pending(g.out, g.order, {}, v) == 0
  {
    hide CountTo, Pending;
    indeg := map[];
    PendingNone(g.out);
    for i := 0 to |g.order|
      invariant forall n :: n in g.order[..i] ==> n in indeg
      invariant forall v {:trigger Pending(g.out, g.order[..i], {}, v)} ::
        Get(indeg, v) == Pending(g.out, g.order[..i], {}, v)
    {
      var n := g.order[i];
      ghost var before := indeg;
      indeg := CountEnds(g.Out(n), indeg[n := Get(indeg, n)]);
      forall v ensures Get(indeg, v) == Pending(g.out, g.order[..i + 1], {}, v) {
        PendingSnoc(g.out, g.order[..i], n, {}, v);
        assert g.order[..i + 1] == g.order[..i] + [n];
        assert Get(before, v) == Pending(g.out, g.order[..i], {}, v);
      }
    }
    assert g.order[..|g.order|] == g.order;
    forall v ensures Get(indeg, v) == Pending(g.out, g.order, {}, v) {}
  }

  lemma PendingNone(out: map<string, seq<Edge>>)
    ensures forall v :: Pending(out, [], {}, v) == 0
  {
  }

  /** Count each edge at the node it leads to. */
  method CountEnds(es: seq<Edge>, indeg0: map<string, int>) returns (indeg: map<string, int>)
    ensures indeg0.Keys <= indeg.Keys && forall v :: Get(indeg, v) == Get(indeg0, v) + CountTo(es, v)
  {
    indeg := indeg0;
    for j := 0 to |es|
      invariant indeg0.Keys <= indeg.Keys && forall v :: Get(indeg, v) == Get(indeg0, v) + CountTo(es[..j], v)
    {
      forall v ensures CountTo(es[..j + 1], v) == CountTo(es[..j], v) + if es[j].to == v then 1 else 0 {
        assert es[..j + 1] == es[..j] + [es[j]];
        CountSnoc(es[..j], es[j], v);
      }
      indeg := indeg[es[j].to := Get(indeg, es[j].to) + 1];
    }
    assert es[..|es|] == es;
  }

  /** The nodes placed so far are distinct, and each of them has all its
      predecessors both before it and among the first k, which are finished. */
  ghost predicate Placed(E: set<Edge>, nodes: set<string>, placed: seq<string>, k: nat) {
    && k <= |placed| && NoDup(placed)
    && (forall v :: v in placed ==> v in nodes)
    && (forall e, j :: e in E && 0 <= j < |placed| && placed[j] == e.to ==>
          e.from in placed[..j] && e.from in placed[..k])
  }

  /** A node is placed exactly when its counter has reached zero. */
  ghost predicate ZeroIsPlaced(nodes: set<string>, indeg: map<string, int>, placed: seq<string>) {
    forall v :: v in nodes ==> v in indeg && indeg[v] >= 0 && (v in placed <==> indeg[v] == 0)
  }

  /** The counters hold the in-degree from unfinished nodes plus that from es. */
  ghost predicate Counts(out: map<string, seq<Edge>>, order: seq<string>, done: set<string>, es: seq<Edge>,
                         nodes: set<string>, indeg: map<string, int>)
  {
    forall v :: v in nodes ==> v in indeg && indeg[v] == Pending(out, order, done, v) + CountTo(es, v)
  }

  lemma ZeroMeansFinished(out: map<string, seq<Edge>>, order: seq<string>, done: set<string>, v: string)
    requires Pending(out, order, done, v) == 0
    ensures forall e: Edge :: e.from in order && e in At(out, e.from) && e.to == v ==> e.from in done
  {
    PendingPositive(out, order, done, v);
  }

  /** Take the edges of one finished node out of the counters. */
  method Settle(es: seq<Edge>, indeg: map<string, int>, queue: seq<string>,
                ghost E: set<Edge>, ghost nodes: set<string>, ghost out: map<string, seq<Edge>>,
                ghost order: seq<string>, ghost sorted: seq<string>)
    returns (indeg': map<string, int>, queue': seq<string>)
    requires forall e :: e in es ==> e.to in nodes
    requires forall e :: e in E ==> e.from in order && e in At(out, e.from)
    requires Placed(E, nodes, sorted + queue, |sorted|)
    requires ZeroIsPlaced(nodes, indeg, sorted + queue)
    requires Counts(out, order, Elems(sorted), es, nodes, indeg)
    ensures Placed(E, nodes, sorted + queue', |sorted|)
    ensures ZeroIsPlaced(nodes, indeg', sorted + queue')
    ensures Counts(out, order, Elems(sorted), [], nodes, indeg')
  {
    hide Placed;
    ghost var done := Elems(sorted);
    indeg', queue' := indeg, queue;
    assert es[0..] == es;
    for i := 0 to |es|
      invariant Placed(E, nodes, sorted + queue', |sorted|)
      invariant ZeroIsPlaced(nodes, indeg', sorted + queue')
      invariant Counts(out, order, done, es[i..], nodes, indeg')
    {
      var w := es[i].to;
      assert es[i] in es;
      assert es[i..][1..] == es[i + 1..] && es[i..][0] == es[i];
      indeg' := indeg'[w := indeg'[w] - 1];
      assert Counts(out, order, done, es[i + 1..], nodes, indeg');
      if indeg'[w] == 0 {
        ghost var placed := sorted + queue';
        assert w !in placed;
        ZeroMeansFinished(out, order, done, w);
        PlaceOne(E, nodes, placed, |sorted|, w);
        queue' := queue' + [w];
        assert sorted + queue' == placed + [w];
      }
    }
  }

  lemma PlaceOne(E: set<Edge>, nodes: set<string>, placed: seq<string>, k: nat, w: string)
    requires Placed(E, nodes, placed, k) && w in nodes && w !in placed
    requires forall e :: e in E && e.to == w ==> e.from in placed[..k]
    ensures Placed(E, nodes, placed + [w], k)
    ensures forall v :: v in placed + [w] <==> v in placed || v == w
  {
    var now := placed + [w];
    assert now[..k] == placed[..k];
    forall e, j | e in E && 0 <= j < |now| && now[j] == e.to ensures e.from in now[..j] && e.from in now[..k] {
      if j < |placed| {
        assert now[..j] == placed[..j];
      } else {
        assert now[..j] == placed;
      }
    }
  }

  /** The nodes that nothing precedes open the queue. */
  method Sources(g: Graph, indeg: map<string, int>) returns (queue: seq<string>)
    requires g.Valid()
    requires forall v :: v in g.nodes ==> v in indeg
    requires forall v :: v in indeg ==> indeg[v] == Pending(g.out, g.order, {}, v)
    ensures Placed(g.Edges(), g.nodes, queue, 0)
    ensures ZeroIsPlaced(g.nodes, indeg, queue)
  {
    queue := [];
    for i := 0 to |g.order|
      invariant NoDup(queue)
      invariant forall v :: v in queue <==> v in g.order[..i] && indeg[v] == 0
    {
      assert g.order[..i + 1] == g.order[..i] + [g.order[i]];
      if indeg[g.order[i]] == 0 { queue := queue + [g.order[i]]; }
    }
    assert g.order[..|g.order|] == g.order;
    forall e, j | e in g.Edges() && 0 <= j < |queue| && queue[j] == e.to ensures false {
      ZeroMeansFinished(g.out, g.order, {}, e.to);
    }
  }

  lemma FinishOne(E: set<Edge>, out: map<string, seq<Edge>>, order: seq<string>, before: seq<string>, v: string,
                  placed: seq<string>, nodes: set<string>, indeg: map<string, int>)
    requires NoDup(order) && (forall n :: n in order <==> n in nodes)
    requires before + [v] <= placed && Placed(E, nodes, placed, |before|)
    requires Counts(out, order, Elems(before), [], nodes, indeg)
    ensures Placed(E, nodes, placed, |before| + 1)
    ensures Counts(out, order, Elems(before + [v]), At(out, v), nodes, indeg)
  {
    var done := Elems(before);
    assert Elems(before + [v]) == done + {v};
    assert placed[|before|] == v;
    assert forall i :: 0 <= i < |before| ==> placed[i] == before[i];
    assert v !in done;
    forall w | w in nodes ensures indeg[w] == Pending(out, order, done + {v}, w) + CountTo(At(out, v), w) {
      PendingDone(out, order, done, v, w);
    }
    assert forall x :: x in placed[..|before|] ==> x in placed[..|before| + 1];
  }

  lemma Verdict(E: set<Edge>, nodes: set<string>, out: map<string, seq<Edge>>, order: seq<string>,
                sorted: seq<string>, indeg: map<string, int>)
    requires NoDup(order) && (forall n :: n in order <==> n in nodes)
    requires EndpointsIn(E, nodes) && forall n, e :: e in At(out, n) ==> e in E && e.from == n
    requires Placed(E, nodes, sorted, |sorted|) && ZeroIsPlaced(nodes, indeg, sorted)
    requires Counts(out, order, Elems(sorted), [], nodes, indeg)
    ensures |sorted| == |order| ==> TopoOrder(E, nodes, sorted) && Acyclic(E)
    ensures |sorted| != |order| ==> !Acyclic(E)
  {
    var done := Elems(sorted);
    SeqCard(order);
    if |sorted| == |order| {
      assert Elems(order) == nodes;
      NoDupCard(sorted, nodes);
      TopoAcyclic(E, nodes, sorted);
    } else {
      var left := nodes - done;
      if left == {} {
        assert forall x :: x in nodes && x !in done ==> x in left;
        assert nodes == Elems(order) == done;
        SeqCard(sorted);
        assert false;
      }
      forall x {:trigger HasPred(E, left, x)} | x in left ensures HasPred(E, left, x) {
        PendingPositive(out, order, done, x);
        var n, e :| n in order && n !in done && e in At(out, n) && e.to == x;
        assert e in E && e.from in left;
      }
      var v :| v in left;
      var c := BackwardCycle(E, left, v);
    }
  }

  lemma {:induction false} SeqCard(s: seq<string>)
    requires NoDup(s)
    ensures |Elems(s)| == |s|
  {
    if s != [] {
      var t := s[..|s| - 1];
      SeqCard(t);
      assert s == t + [s[|s| - 1]];
      assert Elems(s) == Elems(t) + {s[|s| - 1]};
    }
  }

  /** A topological sort of the whole graph, or ok == false. It succeeds
      exactly on the acyclic graphs, parallel edges and self-loops included. */
  method Topo(g: Graph) returns (sorted: seq<string>, ok: bool)
    requires g.Valid()
    ensures ok <==> Acyclic(g.Edges())
    ensures ok ==> TopoOrder(g.Edges(), g.nodes, sorted)
  {
    hide Placed, ZeroIsPlaced, EdgeSet;
    ghost var E := g.Edges();
    var indeg := InDegrees(g);
    var queue := Sources(g, indeg);
    sorted := [];
    assert sorted + queue == queue && Elems(sorted) == {};
    while queue != []
      invariant Placed(E, g.nodes, sorted + queue, |sorted|)
      invariant ZeroIsPlaced(g.nodes, indeg, sorted + queue)
      invariant Counts(g.out, g.order, Elems(sorted), [], g.nodes, indeg)
      decreases |g.nodes| - |sorted|
    {
      var v := queue[0];
      ghost var before, placed := sorted, sorted + queue;
      queue := queue[1..];
      sorted := sorted + [v];
      assert sorted + queue == placed;
      FinishOne(E, g.out, g.order, before, v, placed, g.nodes, indeg);
      assert v in placed;
      NoDupCard(placed, g.nodes);
      indeg, queue := Settle(g.Out(v), indeg, queue, E, g.nodes, g.out, g.order, sorted);
    }
    assert sorted + queue == sorted && sorted[..|sorted|] == sorted;
    ok := |sorted| == |g.order|;
    Verdict(E, g.nodes, g.out, g.order, sorted, indeg);
  }
}
