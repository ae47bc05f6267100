/** The schedule of a graph: forward and backward passes in topological order,
    the binding chain of a node, slack, and the makespan without an edge. */
module Scheduling {
  import opened Walks
  import opened Options
  import opened Digraph
  import opened MaxPlus
  import Kahn

  datatype Schedule = Schedule(earliest: map<string, int>, latest: map<string, int>, pred: map<string, Edge>,
                               makespan: int, end: string)
  {
    function Slack(n: string): int { Get(latest, n) - Get(earliest, n) }
  }

  function Offer(x: map<string, int>, e: Edge): int { Get(x, e.from) + e.weight }

  /** The first incoming edge is taken whatever it demands, a later one only if it demands more. */
  ghost predicate TakesBinding(ins: seq<Edge>, x: map<string, int>) {
    ins != [] && (Offer(x, ins[0]) >= 0 || exists i :: 0 <= i < |ins| && Offer(x, ins[i]) > 0)
  }

  /** e is the first edge that demands the most, or, if none is taken as binding, just the first. */
  ghost predicate FirstBest(ins: seq<Edge>, x: map<string, int>, e: Edge) {
    exists i :: 0 <= i < |ins| && ins[i] == e &&
      if TakesBinding(ins, x) then forall j :: 0 <= j < i ==> Offer(x, ins[j]) < Offer(x, e) else i == 0
  }

  /** The recorded predecessor is the first incoming edge that demands the most; it
      fixes the earliest time exactly when the first edge demands no negative time
      or some edge a positive one, and is just the first edge otherwise. */
  ghost predicate PredOk(ins: seq<Edge>, x: map<string, int>, pred: map<string, Edge>, v: string) {
    && (v in pred <==> ins != [])
    && (v in pred ==> pred[v] in ins && (Offer(x, pred[v]) == Get(x, v) <==> TakesBinding(ins, x)))
    && (v in pred ==> FirstBest(ins, x, pred[v]))
  }

  /** The makespan and its node, picked along the order; "" stands for "no node yet". */
  function EndOf(order: seq<string>, x: map<string, int>): (int, string) {
    if order == [] then (0, "")
    else
      var (m, end) := EndOf(order[..|order| - 1], x);
      var v := order[|order| - 1];
      if end == "" || Get(x, v) > m then (Get(x, v), v) else (m, end)
  }

  ghost predicate Ends(E: set<Edge>, N: set<string>, s: Schedule, order: seq<string>) {
    TopoOrder(E, N, order) && EndOf(order, s.earliest) == (s.makespan, s.end)
  }

  /** s is the schedule of the graph with these edges, nodes and incoming lists. */
  ghost predicate ScheduleOf(E: set<Edge>, N: set<string>, inc: map<string, seq<Edge>>, s: Schedule) {
    && EndpointsIn(E, N) && Incoming(E, inc)
    && (exists order :: Ends(E, N, s, order))
    && AllSettled(E, N, s.earliest)
    && AllBackSettled(E, N, s.makespan, s.latest)
    && (forall v :: v in N ==> PredOk(At(inc, v), s.earliest, s.pred, v))
    && s.earliest.Keys <= N && s.pred.Keys <= N
  }

  // ---- the two passes -----------------------------------------------------

  ghost predicate SameBut<T>(a: map<string, T>, b: map<string, T>, v: string) {
    forall w :: w != v ==> (w in a <==> w in b) && (w in a ==> a[w] == b[w])
  }

  /** After i incoming edges: m is the greatest of zero and what they demand, and
      edge number best, the one recorded, is the first to demand m, or edge 0 if none does. */
  ghost predicate Relaxing(ins: seq<Edge>, x0: map<string, int>, i: nat, m: int, best: nat)
    requires i <= |ins|
  {
    && m >= 0 && (forall j :: 0 <= j < i ==> Offer(x0, ins[j]) <= m)
    && (m == 0 || exists j :: 0 <= j < i && Offer(x0, ins[j]) == m)
    && (i > 0 ==> best < i && (Offer(x0, ins[best]) == m <==>
                               Offer(x0, ins[0]) >= 0 || exists j :: 0 <= j < i && Offer(x0, ins[j]) > 0))
    && (i > 0 && Offer(x0, ins[best]) == m ==> forall j :: 0 <= j < best ==> Offer(x0, ins[j]) < m)
    && (i > 0 && Offer(x0, ins[best]) != m ==> best == 0)
  }

  lemma RelaxStep(ins: seq<Edge>, x0: map<string, int>, i: nat, m: int, best: nat)
    requires i < |ins| && Relaxing(ins, x0, i, m, best)
    ensures var t := Offer(x0, ins[i]);
      Relaxing(ins, x0, i + 1, if t > m then t else m, if i == 0 || t > m then i else best)
  {
    hide Offer;
    if m > 0 {
      var j :| 0 <= j < i && Offer(x0, ins[j]) == m;
      assert Offer(x0, ins[j]) > 0;
    }
  }

  lemma RelaxDone(ins: seq<Edge>, v: string, x0: map<string, int>, x: map<string, int>, pred: map<string, Edge>,
                  best: nat)
    requires (forall e :: e in ins ==> e.from != v) && SameBut(x, x0, v)
    requires Relaxing(ins, x0, |ins|, Get(x, v), best)
    requires (v in pred <==> ins != []) && (ins != [] ==> pred[v] == ins[best])
    ensures Get(x, v) >= 0 && (forall e :: e in ins ==> Offer(x, e) <= Get(x, v))
    ensures Get(x, v) == 0 || exists e :: e in ins && Offer(x, e) == Get(x, v)
    ensures PredOk(ins, x, pred, v)
  {
    hide Offer, SameBut, FirstBest, TakesBinding;
    SameOffers(ins, v, x0, x);
    assert forall i :: 0 <= i < |ins| ==> ins[i] in ins;
    if ins != [] { BestIsFirst(ins, v, x, pred[v], best); }
  }

  /** Take the incoming edges of one node into account. */
  method Relax(ins: seq<Edge>, v: string, x0: map<string, int>, pred0: map<string, Edge>)
    returns (x: map<string, int>, pred: map<string, Edge>)
    requires forall e :: e in ins ==> e.to == v && e.from != v
    requires v !in x0 && v !in pred0
    ensures SameBut(x, x0, v) && SameBut(pred, pred0, v)
    ensures Get(x, v) >= 0 && (forall e :: e in ins ==> Offer(x, e) <= Get(x, v))
    ensures Get(x, v) == 0 || exists e :: e in ins && Offer(x, e) == Get(x, v)
    ensures PredOk(ins, x, pred, v)
  {
    hide PredOk, Relaxing;
    x, pred := x0, pred0;
    ghost var best := 0;
    assert Relaxing(ins, x0, 0, 0, 0) by { RelaxNone(ins, x0); }
    for i := 0 to |ins|
      invariant SameBut(x, x0, v) && SameBut(pred, pred0, v)
      invariant Relaxing(ins, x0, i, Get(x, v), best)
      invariant (v in pred <==> i > 0) && (i > 0 ==> best < |ins| && pred[v] == ins[best])
    {
      var e := ins[i];
      assert e in ins;
      var t := Offer(x, e);
      assert t == Offer(x0, e);
      RelaxStep(ins, x0, i, Get(x, v), best);
      if v !in pred || t > Get(x, v) {
        x := x[v := if t > Get(x, v) then t else Get(x, v)];
        pred := pred[v := e];
        best := i;
      }
    }
    RelaxDone(ins, v, x0, x, pred, best);
  }

  lemma RelaxNone(ins: seq<Edge>, x0: map<string, int>)
    ensures Relaxing(ins, x0, 0, 0, 0)
  {
  }

  lemma BestIsFirst(ins: seq<Edge>, v: string, x: map<string, int>, e: Edge, i: nat)
    requires i < |ins| && ins[i] == e && (Offer(x, e) == Get(x, v) <==> TakesBinding(ins, x))
    requires TakesBinding(ins, x) ==> forall j :: 0 <= j < i ==> Offer(x, ins[j]) < Get(x, v)
    requires !TakesBinding(ins, x) ==> i == 0
    ensures FirstBest(ins, x, e)
  {
    hide TakesBinding;
  }

  lemma SameOffers(ins: seq<Edge>, v: string, x0: map<string, int>, x: map<string, int>)
    requires (forall e :: e in ins ==> e.from != v) && SameBut(x, x0, v)
    ensures forall e :: e in ins ==> Offer(x, e) == Offer(x0, e)
    ensures TakesBinding(ins, x)
       <==> ins != [] && (Offer(x0, ins[0]) >= 0 || exists i :: 0 <= i < |ins| && Offer(x0, ins[i]) > 0)
  {
    assert forall i :: 0 <= i < |ins| ==> ins[i] in ins;
  }

  lemma SettledFrame(E: set<Edge>, N: set<string>, order: seq<string>, x: map<string, int>,
                     x': map<string, int>, i: nat, j: nat)
    requires TopoOrder(E, N, order) && j < i < |order| && SameBut(x', x, order[i])
    requires Settled(E, x, order[j])
    ensures Settled(E, x', order[j])
  {
    var v := order[j];
    assert Get(x', v) == Get(x, v);
    forall e | e in E && e.to == v ensures Get(x', e.from) == Get(x, e.from) {
      var k :| 0 <= k < j && order[k] == e.from;
    }
    if Get(x, v) != 0 {
      assert Binding(E, x, v);
      var e :| e in E && e.to == v && Get(x, e.from) + e.weight == Get(x, v);
      assert Binding(E, x', v);
    }
  }

  lemma PredFrame(E: set<Edge>, N: set<string>, order: seq<string>, ins: seq<Edge>, x: map<string, int>,
                  x': map<string, int>, pred: map<string, Edge>, pred': map<string, Edge>, i: nat, j: nat)
    requires TopoOrder(E, N, order) && j < i < |order| && SameBut(x', x, order[i]) && SameBut(pred', pred, order[i])
    requires forall e :: e in ins ==> e in E && e.to == order[j]
    requires PredOk(ins, x, pred, order[j])
    ensures PredOk(ins, x', pred', order[j])
  {
    hide PredOk;
    forall e | e in ins ensures Offer(x', e) == Offer(x, e) {
      assert e in E && e.to == order[j];
      var k :| 0 <= k < j && order[k] == e.from;
    }
    SameOffersSamePred(ins, x, x', pred, pred', order[j]);
  }

  lemma SameOffersSamePred(ins: seq<Edge>, x: map<string, int>, x': map<string, int>, pred: map<string, Edge>,
                           pred': map<string, Edge>, v: string)
    requires forall e :: e in ins ==> Offer(x', e) == Offer(x, e)
    requires PredOk(ins, x, pred, v) && Get(x', v) == Get(x, v)
    requires (v in pred' <==> v in pred) && (v in pred ==> pred'[v] == pred[v])
    ensures PredOk(ins, x', pred', v)
  {
    hide Offer;
    assert forall k :: 0 <= k < |ins| ==> ins[k] in ins;
    assert TakesBinding(ins, x') <==> TakesBinding(ins, x);
  }

  lemma {:induction false} EndFrame(order: seq<string>, x: map<string, int>, x': map<string, int>, v: string)
    requires v !in order && SameBut(x', x, v)
    ensures EndOf(order, x') == EndOf(order, x)
  {
    if order != [] {
      assert order == order[..|order| - 1] + [order[|order| - 1]];
      EndFrame(order[..|order| - 1], x, x', v);
    }
  }

  /** The lists hold each node's incoming edges. */
  ghost predicate Incoming(E: set<Edge>, inc: map<string, seq<Edge>>) {
    forall v, e :: e in At(inc, v) <==> e in E && e.to == v
  }

  /** The first i nodes of the order have their earliest times and predecessors. */
  ghost predicate Passed(E: set<Edge>, order: seq<string>, inc: map<string, seq<Edge>>, x: map<string, int>,
                         pred: map<string, Edge>, i: nat)
    requires i <= |order|
  {
    && (forall j :: 0 <= j < i ==> Settled(E, x, order[j]) && PredOk(At(inc, order[j]), x, pred, order[j]))
    && x.Keys <= Elems(order[..i]) && pred.Keys <= Elems(order[..i])
  }

  lemma PassOne(E: set<Edge>, N: set<string>, order: seq<string>, inc: map<string, seq<Edge>>, x0: map<string, int>,
                pred0: map<string, Edge>, x: map<string, int>, pred: map<string, Edge>, i: nat)
    requires TopoOrder(E, N, order) && Incoming(E, inc) && i < |order| && Passed(E, order, inc, x0, pred0, i)
    requires SameBut(x, x0, order[i]) && SameBut(pred, pred0, order[i])
    requires Settled(E, x, order[i]) && PredOk(At(inc, order[i]), x, pred, order[i])
    ensures Passed(E, order, inc, x, pred, i + 1)
  {
    hide Settled, PredOk, SameBut, TopoOrder;
    var v := order[i];
    forall j | 0 <= j < i ensures Settled(E, x, order[j]) && PredOk(At(inc, order[j]), x, pred, order[j]) {
      SettledFrame(E, N, order, x0, x, i, j);
      PredFrame(E, N, order, At(inc, order[j]), x0, x, pred0, pred, i, j);
    }
    SameKeys(x, x0, v);
    SameKeys(pred, pred0, v);
    assert order[..i + 1] == order[..i] + [v];
  }

  /** Earliest times, binding predecessors, makespan and end. */
  method Forward(order: seq<string>, inc: map<string, seq<Edge>>, ghost E: set<Edge>, ghost N: set<string>)
    returns (x: map<string, int>, pred: map<string, Edge>, makespan: int, end: string)
    requires TopoOrder(E, N, order) && Incoming(E, inc)
    ensures Passed(E, order, inc, x, pred, |order|)
    ensures EndOf(order, x) == (makespan, end)
  {
    hide Passed, PredOk, Settled, SameBut, TopoOrder;
    x, pred, makespan, end := map[], map[], 0, "";
    PassNone(E, order, inc);
    for i := 0 to |order|
      invariant Passed(E, order, inc, x, pred, i)
      invariant EndOf(order[..i], x) == (makespan, end)
    {
      var v := order[i];
      var ins := At(inc, v);
      NoSelf(E, N, order, i);
      NotYet(E, order, inc, x, pred, i);
      ghost var x0, pred0 := x, pred;
      x, pred := Relax(ins, v, x, pred);
      SettleOne(E, ins, x, v);
      PassOne(E, N, order, inc, x0, pred0, x, pred, i);
      EndFrame(order[..i], x0, x, v);
      assert order[..i + 1][..i] == order[..i] && order[..i + 1][i] == v;
      if end == "" || Get(x, v) > makespan {
        makespan, end := Get(x, v), v;
      }
    }
    assert order[..|order|] == order;
  }

  lemma PassNone(E: set<Edge>, order: seq<string>, inc: map<string, seq<Edge>>)
    ensures Passed(E, order, inc, map[], map[], 0)
  {
  }

  lemma NotYet(E: set<Edge>, order: seq<string>, inc: map<string, seq<Edge>>, x: map<string, int>,
               pred: map<string, Edge>, i: nat)
    requires i < |order| && order[i] !in order[..i] && Passed(E, order, inc, x, pred, i)
    ensures order[i] !in x && order[i] !in pred
  {
    hide Settled, PredOk;
  }

  lemma NoSelf(E: set<Edge>, N: set<string>, order: seq<string>, i: nat)
    requires TopoOrder(E, N, order) && i < |order|
    ensures order[i] !in order[..i] && order[i] in N
    ensures forall e :: e in E && e.to == order[i] ==> e.from != order[i]
  {
  }

  lemma SameKeys<T>(a: map<string, T>, b: map<string, T>, v: string)
    requires SameBut(a, b, v)
    ensures a.Keys <= b.Keys + {v}
  {
  }

  lemma SettleOne(E: set<Edge>, ins: seq<Edge>, x: map<string, int>, v: string)
    requires forall e :: e in ins <==> e in E && e.to == v
    requires Get(x, v) >= 0 && (forall e :: e in ins ==> Offer(x, e) <= Get(x, v))
    requires Get(x, v) == 0 || exists e :: e in ins && Offer(x, e) == Get(x, v)
    ensures Settled(E, x, v)
  {
    if Get(x, v) != 0 {
      var e :| e in ins && Offer(x, e) == Get(x, v);
      assert Binding(E, x, v);
    }
  }

  lemma BackFrame(E: set<Edge>, N: set<string>, order: seq<string>, m: int, y: map<string, int>, t: int, i: nat, j: nat)
    requires TopoOrder(E, N, order) && EndpointsIn(E, N) && i < j < |order| && BackSettled(E, m, y, order[j])
    ensures BackSettled(E, m, y[order[i] := t], order[j])
  {
    var y' := y[order[i] := t];
    var earlier := order[..i];
    forall e | e in E && e.from == order[j] ensures e.to != order[i] {
      assert e.to == order[i] ==> e.from in earlier;
    }
    if Get(y, order[j]) != m {
      assert BackBinding(E, y, order[j]);
      var e :| e in E && e.from == order[j] && Get(y, order[j]) == Get(y, e.to) - e.weight;
      assert BackBinding(E, y', order[j]);
    }
  }

  /** The latest time of one node, given those of its successors. */
  method Pull(outs: seq<Edge>, v: string, makespan: int, y0: map<string, int>) returns (t: int)
    requires forall e :: e in outs ==> e.from == v && e.to != v
    ensures t <= makespan && (forall e :: e in outs ==> t <= Get(y0, e.to) - e.weight)
    ensures t == makespan || exists e :: e in outs && t == Get(y0, e.to) - e.weight
  {
    t := makespan;
    for i := 0 to |outs|
      invariant t <= makespan && (forall j :: 0 <= j < i ==> t <= Get(y0, outs[j].to) - outs[j].weight)
      invariant t == makespan || exists j :: 0 <= j < i && t == Get(y0, outs[j].to) - outs[j].weight
    {
      var bound := Get(y0, outs[i].to) - outs[i].weight;
      t := if bound < t then bound else t;
    }
  }

  method Backward(order: seq<string>, out: map<string, seq<Edge>>, makespan: int, ghost E: set<Edge>,
                  ghost N: set<string>)
    returns (y: map<string, int>)
    requires TopoOrder(E, N, order) && EndpointsIn(E, N) && forall v, e :: e in At(out, v) <==> e in E && e.from == v
    ensures forall j :: 0 <= j < |order| ==> BackSettled(E, makespan, y, order[j])
  {
    hide BackSettled;
    y := map[];
    var i := |order|;
    while i > 0
      invariant 0 <= i <= |order|
      invariant forall j :: i <= j < |order| ==> BackSettled(E, makespan, y, order[j])
    {
      i := i - 1;
      var v := order[i];
      var outs := At(out, v);
      ghost var earlier := order[..i];
      forall e | e in outs ensures e.from == v && e.to != v {
        assert e in E;
        assert e.to == v ==> e.from in earlier;
      }
      var t := Pull(outs, v, makespan, y);
      ghost var y0 := y;
      y := y[v := t];
      BackOne(E, outs, makespan, y0, v, t);
      forall j | i < j < |order| ensures BackSettled(E, makespan, y, order[j]) {
        BackFrame(E, N, order, makespan, y0, t, i, j);
      }
    }
  }

  lemma BackOne(E: set<Edge>, outs: seq<Edge>, m: int, y: map<string, int>, v: string, t: int)
    requires forall e :: e in outs <==> e in E && e.from == v
    requires forall e :: e in outs ==> e.to != v
    requires t <= m && (forall e :: e in outs ==> t <= Get(y, e.to) - e.weight)
    requires t == m || exists e :: e in outs && t == Get(y, e.to) - e.weight
    ensures BackSettled(E, m, y[v := t], v)
  {
    if t != m {
      var e :| e in outs && t == Get(y, e.to) - e.weight;
      assert BackBinding(E, y[v := t], v);
    }
  }

  /** The schedule, or nothing when the graph has a cycle of any weight. */
  method Solve(g: Graph) returns (s: Option<Schedule>)
    requires g.Valid()
    ensures s.Some? <==> Acyclic(g.Edges())
    ensures s.Some? ==> ScheduleOf(g.Edges(), g.nodes, g.inc, s.value)
  {
    hide Acyclic, Settled, BackSettled, PredOk;
    var order, ok := Kahn.Topo(g);
    if !ok { return None; }
    ghost var E, N := g.Edges(), g.nodes;
    assert Incoming(E, g.inc);
    assert forall v, e :: e in At(g.out, v) <==> e in E && e.from == v;
    var x, pred, makespan, end := Forward(order, g.inc, E, N);
    var y := Backward(order, g.out, makespan, E, N);
    var r := Schedule(x, y, pred, makespan, end);
    assert Ends(E, N, r, order);
    s := Some(r);
  }

  // ---- makespan -----------------------------------------------------------

  lemma {:induction false} EndIsMax(order: seq<string>, x: map<string, int>)
    requires "" !in order && forall v :: v in order ==> Get(x, v) >= 0
    ensures forall v :: v in order ==> Get(x, v) <= EndOf(order, x).0
    ensures order == [] ==> EndOf(order, x) == (0, "")
    ensures order != [] ==> EndOf(order, x).1 in order && Get(x, EndOf(order, x).1) == EndOf(order, x).0
  {
    if order != [] {
      var pre := order[..|order| - 1];
      assert order == pre + [order[|order| - 1]];
      EndIsMax(pre, x);
    }
  }

  /** When no node has the empty name, the makespan is the weight of the
      heaviest walk in the graph, and the end node attains it. */
  lemma MakespanIsHeaviest(E: set<Edge>, N: set<string>, inc: map<string, seq<Edge>>, s: Schedule)
    requires ScheduleOf(E, N, inc, s) && "" !in N
    ensures Heaviest(E, s.makespan)
    ensures N != {} ==> s.end in N && Get(s.earliest, s.end) == s.makespan
    ensures forall v :: v in N ==> Get(s.earliest, v) <= s.makespan
  {
    hide PredOk, BackSettled;
    var order :| Ends(E, N, s, order);
    SettledFeasible(E, N, s.earliest);
    EndIsMax(order, s.earliest);
    assert N != {} ==> order != [] by {
      if N != {} { var v :| v in N; assert v in order; }
    }
    if N == {} {
      assert Walk(E, "", [], "");
    } else {
      EarliestIsHeaviest(E, N, order, s.earliest, s.end);
    }
    forall u, p, v | Walk(E, u, p, v) ensures Weight(p) <= s.makespan {
      if p != [] {
        WalkEndpoints(E, N, u, p, v);
        EarliestIsHeaviest(E, N, order, s.earliest, v);
      } else if N == {} {
        assert order == [];
      }
    }
  }

  lemma {:induction false} EndTail(b: seq<string>, post: seq<string>, x: map<string, int>)
    requires "" !in post && forall v :: v in b + post ==> Get(x, v) >= 0
    ensures EndOf(b, x).0 >= 0 && EndOf(post, x).0 >= 0
    ensures EndOf(b, x).1 == "" && post != [] ==> EndOf(b + post, x) == EndOf(post, x)
    ensures EndOf(b, x).1 != "" || post == [] ==>
      EndOf(b + post, x).0 == if EndOf(post, x).0 > EndOf(b, x).0 then EndOf(post, x).0 else EndOf(b, x).0
    ensures EndOf(b, x).1 != "" ==> EndOf(b + post, x).1 != ""
    decreases |b| + |post|
  {
    if post == [] {
      assert b + post == b;
      if b != [] {
        assert b == b[..|b| - 1] + [b[|b| - 1]];
        EndTail(b[..|b| - 1], [], x);
      }
    } else {
      var pre, v := post[..|post| - 1], post[|post| - 1];
      assert post == pre + [v] && (b + post)[..|b + post| - 1] == b + pre;
      EndTail(b, pre, x);
      EndIsMax(pre, x);
    }
  }

  /** The end picked along an order that holds the empty name is the latest node
      exactly when that node comes last or some other node is at least as late:
      otherwise the next node in the order overwrites it. */
  lemma EndWithEmptyName(pre: seq<string>, post: seq<string>, x: map<string, int>)
    requires var order := pre + [""] + post; NoDup(order) && forall v :: v in order ==> Get(x, v) >= 0
    ensures var order := pre + [""] + post;
      (forall v :: v in order ==> Get(x, v) <= EndOf(order, x).0)
      <==> post == [] || exists v :: v in pre + post && Get(x, v) >= Get(x, "")
  {
    var order, b := pre + [""] + post, pre + [""];
    assert forall i :: 0 <= i < |pre| ==> order[i] == pre[i];
    assert order[|pre|] == "";
    assert forall i :: 0 <= i < |post| ==> order[|pre| + 1 + i] == post[i];
    assert "" !in pre && "" !in post;
    EndIsMax(pre, x);
    EndIsMax(post, x);
    assert b[..|b| - 1] == pre && b[|b| - 1] == "";
    EndTail(b, post, x);
    assert forall v :: v in order <==> v in pre || v == "" || v in post;
    assert forall v :: v in pre + post <==> v in pre || v in post;
    var m := EndOf(order, x).0;
    if post != [] && !(exists v :: v in pre + post && Get(x, v) >= Get(x, "")) {
      assert m == EndOf(post, x).0;
      assert "" in order && Get(x, "") > m;
    }
  }

  lemma {:induction false} EndAttained(order: seq<string>, x: map<string, int>)
    requires order != []
    ensures EndOf(order, x).1 in order && Get(x, EndOf(order, x).1) == EndOf(order, x).0
  {
    var pre := order[..|order| - 1];
    assert order == pre + [order[|order| - 1]];
    if pre != [] { EndAttained(pre, x); }
  }

  lemma HeaviestIffLatest(E: set<Edge>, N: set<string>, order: seq<string>, s: Schedule)
    requires EndpointsIn(E, N) && AllSettled(E, N, s.earliest) && Ends(E, N, s, order) && order != []
    ensures Heaviest(E, s.makespan) <==> forall v :: v in N ==> Get(s.earliest, v) <= s.makespan
  {
    var x := s.earliest;
    if Heaviest(E, s.makespan) {
      forall v | v in N ensures Get(x, v) <= s.makespan { EarliestIsHeaviest(E, N, order, x, v); }
    }
    if forall v :: v in N ==> Get(x, v) <= s.makespan {
      EndAttained(order, x);
      EarliestIsHeaviest(E, N, order, x, s.end);
      assert Settled(E, x, s.end);
      forall u, p, v | Walk(E, u, p, v) ensures Weight(p) <= s.makespan {
        if p != [] {
          WalkEndpoints(E, N, u, p, v);
          EarliestIsHeaviest(E, N, order, x, v);
        }
      }
    }
  }

  /** Some other node is reached by a walk no lighter than any that leads to v. */
  ghost predicate Matched(E: set<Edge>, N: set<string>, v: string) {
    exists w, a, b :: w in N && w != v && HeaviestInto(E, w, a) && HeaviestInto(E, v, b) && a >= b
  }

  /** With a node named "" the makespan of a schedule is still the heaviest walk
      exactly when that node comes last in the order or the walks into some
      other node are as heavy. */
  lemma EmptyNameExact(E: set<Edge>, N: set<string>, inc: map<string, seq<Edge>>, s: Schedule, order: seq<string>)
    requires ScheduleOf(E, N, inc, s) && Ends(E, N, s, order) && "" in N
    ensures order != []
    ensures Heaviest(E, s.makespan) <==> order[|order| - 1] == "" || Matched(E, N, "")
  {
    hide PredOk, BackSettled, Heaviest, EndOf, Get, Incoming, EndpointsIn, NoDup, HeaviestInto, Matched;
    var x := s.earliest;
    assert "" in order && forall v :: v in order <==> v in N;
    var pre, post := AroundEmptyName(order);
    forall v | v in order ensures Get(x, v) >= 0 { assert Settled(E, x, v); }
    EndWithEmptyName(pre, post, x);
    HeaviestIffLatest(E, N, order, s);
    MatchedIsLater(E, N, order, x);
  }

  lemma MatchedIsLater(E: set<Edge>, N: set<string>, order: seq<string>, x: map<string, int>)
    requires TopoOrder(E, N, order) && EndpointsIn(E, N) && AllSettled(E, N, x) && "" in N
    ensures Matched(E, N, "") <==> exists v :: v in N && v != "" && Get(x, v) >= Get(x, "")
  {
    hide TopoOrder, AllSettled, HeaviestInto, Get;
    EarliestIsHeaviest(E, N, order, x, "");
    if w, a, b :| w in N && w != "" && HeaviestInto(E, w, a) && HeaviestInto(E, "", b) && a >= b {
      EarliestIsHeaviest(E, N, order, x, w);
      HeaviestIsUnique(E, w, a, Get(x, w));
      HeaviestIsUnique(E, "", b, Get(x, ""));
    }
    if v :| v in N && v != "" && Get(x, v) >= Get(x, "") { EarliestIsHeaviest(E, N, order, x, v); }
  }

  lemma HeaviestIsUnique(E: set<Edge>, v: string, a: int, b: int)
    requires HeaviestInto(E, v, a) && HeaviestInto(E, v, b)
    ensures a == b
  {
  }

  lemma AroundEmptyName(order: seq<string>) returns (pre: seq<string>, post: seq<string>)
    requires NoDup(order) && "" in order
    ensures order == pre + [""] + post && (post == [] <==> order[|order| - 1] == "")
    ensures forall v :: v in pre + post <==> v in order && v != ""
  {
    var k :| 0 <= k < |order| && order[k] == "";
    pre, post := order[..k], order[k + 1..];
    forall v ensures v in pre + post <==> v in order && v != "" {
      if v in pre { var i :| 0 <= i < k && pre[i] == v; assert order[i] == v; }
      if v in post { var i :| 0 <= i < |post| && post[i] == v; assert order[k + 1 + i] == v; }
      if v in order && v != "" {
        var i :| 0 <= i < |order| && order[i] == v;
        assert if i < k then pre[i] == v else post[i - k - 1] == v;
      }
    }
  }

  // An example: a leads to "" after 5 and to b at once.
  const TO_EMPTY := Edge("a", "", 5, "")
  const TO_B := Edge("a", "b", 0, "")
  const OVERWRITTEN := Schedule(map["a" := 0, "" := 5, "b" := 0], map["b" := 0, "" := 0, "a" := -5],
                                map["" := TO_EMPTY, "b" := TO_B], 0, "b")

  lemma OverwrittenEnds()
    ensures Ends({TO_EMPTY, TO_B}, {"a", "", "b"}, OVERWRITTEN, ["a", "", "b"])
  {
    var order, x := ["a", "", "b"], OVERWRITTEN.earliest;
    assert order[..1] == ["a"] && order[..2] == ["a", ""] && order[..2][..1] == ["a"];
    assert EndOf(["a"], x) == (0, "a");
    assert EndOf(order[..2], x) == (5, "");
    assert EndOf(order, x) == (0, "b");
  }

  lemma OverwrittenSolves()
    ensures AllSettled({TO_EMPTY, TO_B}, {"a", "", "b"}, OVERWRITTEN.earliest)
    ensures AllBackSettled({TO_EMPTY, TO_B}, {"a", "", "b"}, 0, OVERWRITTEN.latest)
  {
    var E := {TO_EMPTY, TO_B};
    assert Binding(E, OVERWRITTEN.earliest, "");
    assert BackBinding(E, OVERWRITTEN.latest, "a");
  }

  lemma OverwrittenPreds()
    ensures forall v :: v in {"a", "", "b"} ==>
      PredOk(At(map["" := [TO_EMPTY], "b" := [TO_B]], v), OVERWRITTEN.earliest, OVERWRITTEN.pred, v)
  {
    assert [TO_EMPTY][0] == TO_EMPTY && [TO_B][0] == TO_B;
  }

  /** In the topological order a, "", b the makespan comes out as 0 although ""
      is reached at 5, and "" gets negative slack. */
  lemma EmptyNameCanFail()
    ensures var E, N := {TO_EMPTY, TO_B}, {"a", "", "b"};
      && ScheduleOf(E, N, map["" := [TO_EMPTY], "b" := [TO_B]], OVERWRITTEN) && Ends(E, N, OVERWRITTEN, ["a", "", "b"])
      && !Heaviest(E, OVERWRITTEN.makespan) && OVERWRITTEN.Slack("") < 0
  {
    hide Ends, AllSettled, AllBackSettled, PredOk;
    OverwrittenEnds();
    OverwrittenSolves();
    OverwrittenPreds();
    Single({TO_EMPTY, TO_B}, TO_EMPTY);
  }

  // Another: a single edge of negative weight.
  const EARLY := Edge("a", "b", -5, "")
  const UNBOUND := Schedule(map["b" := 0], map["b" := 0, "a" := 0], map["b" := EARLY], 0, "a")

  lemma UnboundSolves()
    ensures Ends({EARLY}, {"a", "b"}, UNBOUND, ["a", "b"])
    ensures AllSettled({EARLY}, {"a", "b"}, UNBOUND.earliest) && AllBackSettled({EARLY}, {"a", "b"}, 0, UNBOUND.latest)
  {
    var order := ["a", "b"];
    assert order[..1] == ["a"];
    assert EndOf(["a"], UNBOUND.earliest) == (0, "a");
  }

  /** The first incoming edge is recorded even when it demands a negative time:
      the chain to b then weighs less than b's earliest time. */
  lemma NegativeOfferIsRecorded()
    ensures ScheduleOf({EARLY}, {"a", "b"}, map["b" := [EARLY]], UNBOUND)
    ensures !TakesBinding([EARLY], UNBOUND.earliest)
    ensures Chain({EARLY}, UNBOUND, [EARLY], "b") && Weight([EARLY]) < Get(UNBOUND.earliest, "b")
  {
    hide Ends, AllSettled, AllBackSettled;
    UnboundSolves();
    Single({EARLY}, EARLY);
  }

  // ---- slack --------------------------------------------------------------

  lemma WalkTimes(E: set<Edge>, N: set<string>, inc: map<string, seq<Edge>>, s: Schedule, v: string)
    requires ScheduleOf(E, N, inc, s) && v in N
    ensures HeaviestInto(E, v, Get(s.earliest, v))
    ensures HeaviestFrom(E, v, s.makespan - Get(s.latest, v))
  {
    hide PredOk;
    var order :| Ends(E, N, s, order);
    EarliestIsHeaviest(E, N, order, s.earliest, v);
    LatestIsHeaviest(E, N, order, s.makespan, s.latest, v);
  }

  /** The earliest times respect every edge, and no assignment that does is earlier anywhere. */
  lemma ScheduleIsLeast(E: set<Edge>, N: set<string>, inc: map<string, seq<Edge>>, s: Schedule, z: map<string, int>)
    requires ScheduleOf(E, N, inc, s) && Feasible(E, N, z)
    ensures Feasible(E, N, s.earliest)
    ensures forall v :: v in N ==> Get(s.earliest, v) <= Get(z, v)
  {
    hide PredOk, BackSettled, Feasible;
    SettledFeasible(E, N, s.earliest);
    var order :| Ends(E, N, s, order);
    forall v | v in N ensures Get(s.earliest, v) <= Get(z, v) {
      EarliestIsLeast(E, N, order, s.earliest, z, v);
    }
  }

  /** Only the set of edges matters: insertion order and repeated edges change no time. */
  lemma ScheduleIsUnique(E: set<Edge>, N: set<string>, inc: map<string, seq<Edge>>,
                         inc': map<string, seq<Edge>>, s: Schedule, s': Schedule)
    requires ScheduleOf(E, N, inc, s) && ScheduleOf(E, N, inc', s') && "" !in N
    ensures s.makespan == s'.makespan
    ensures forall v :: v in N ==> Get(s.earliest, v) == Get(s'.earliest, v) && Get(s.latest, v) == Get(s'.latest, v)
  {
    hide ScheduleOf;
    MakespanIsHeaviest(E, N, inc, s);
    MakespanIsHeaviest(E, N, inc', s');
    forall v | v in N ensures Get(s.earliest, v) == Get(s'.earliest, v) && Get(s.latest, v) == Get(s'.latest, v) {
      WalkTimes(E, N, inc, s, v);
      WalkTimes(E, N, inc', s', v);
    }
  }

  lemma SlackNonNegative(E: set<Edge>, N: set<string>, inc: map<string, seq<Edge>>, s: Schedule, v: string)
    requires ScheduleOf(E, N, inc, s) && "" !in N && v in N
    ensures s.Slack(v) >= 0
  {
    hide ScheduleOf;
    WalkTimes(E, N, inc, s, v);
    MakespanIsHeaviest(E, N, inc, s);
    var u, p :| Walk(E, u, p, v) && Weight(p) == Get(s.earliest, v);
    var q, w :| Walk(E, v, q, w) && Weight(q) == s.makespan - Get(s.latest, v);
    Concat(E, u, p, v, q, w);
  }

  /** Slack is exact: releasing n later than its earliest time by d, for any d,
      leaves the makespan of the whole graph unchanged if and only if d is at most the slack. */
  lemma SlackExact(E: set<Edge>, N: set<string>, inc: map<string, seq<Edge>>, s: Schedule, n: string,
                   gate: string, d: int, after: int)
    requires ScheduleOf(E, N, inc, s) && "" !in N && n in N && gate !in N
    requires Heaviest(E + {Edge(gate, n, Get(s.earliest, n) + d, "release")}, after)
    ensures after == s.makespan <==> d <= s.Slack(n)
  {
    assert EndpointsIn(E, N);
    hide ScheduleOf, Heaviest, HeaviestInto, HeaviestFrom;
    MakespanIsHeaviest(E, N, inc, s);
    WalkTimes(E, N, inc, s, n);
    var r := Edge(gate, n, Get(s.earliest, n) + d, "release");
    ReleaseMakespan(E, N, r, s.makespan, s.makespan - Get(s.latest, n), after);
  }

  // ---- binding chains -----------------------------------------------------

  ghost predicate NonNegative(E: set<Edge>) {
    forall e :: e in E ==> e.weight >= 0
  }

  lemma ChainStep(E: set<Edge>, N: set<string>, inc: map<string, seq<Edge>>, s: Schedule, v: string)
    requires ScheduleOf(E, N, inc, s)
    ensures v in s.pred ==> v in N && s.pred[v] in E && s.pred[v].to == v
    ensures NonNegative(E) && v in s.pred ==> Offer(s.earliest, s.pred[v]) == Get(s.earliest, v)
    ensures v !in s.pred ==> Get(s.earliest, v) == 0
  {
    var x := s.earliest;
    if v in s.pred {
      assert PredOk(At(inc, v), x, s.pred, v);
      if NonNegative(E) {
        var e := At(inc, v)[0];
        assert e in At(inc, v);
        assert Settled(E, x, e.from);
      }
    } else if v in N {
      assert PredOk(At(inc, v), x, s.pred, v) && Settled(E, x, v);
      assert forall e :: e in E && e.to == v ==> e in At(inc, v);
    }
  }

  /** path leads to n over recorded predecessors, and starts at time zero where none is recorded. */
  ghost predicate Chain(E: set<Edge>, s: Schedule, path: seq<Edge>, n: string) {
    && (exists first :: Walk(E, first, path, n) && first !in s.pred && Get(s.earliest, first) == 0)
    && (forall e :: e in path ==> e.to in s.pred && s.pred[e.to] == e)
  }

  /** Each edge of the path fixes the earliest time at its head. */
  ghost predicate AllBind(x: map<string, int>, path: seq<Edge>) {
    forall e :: e in path ==> Offer(x, e) == Get(x, e.to)
  }

  /** Times that respect every edge grow along a walk by exactly its weight iff each edge binds. */
  lemma {:induction false} WalkBinds(E: set<Edge>, N: set<string>, x: map<string, int>, u: string,
                                     p: seq<Edge>, v: string)
    requires Feasible(E, N, x) && Walk(E, u, p, v)
    ensures Get(x, u) + Weight(p) == Get(x, v) <==> AllBind(x, p)
    decreases |p|
  {
    if p != [] {
      WalkPushes(E, N, x, p[0].to, p[1..], v);
      WalkBinds(E, N, x, p[0].to, p[1..], v);
      assert p == [p[0]] + p[1..];
      assert AllBind(x, p) <==> Offer(x, p[0]) == Get(x, p[0].to) && AllBind(x, p[1..]);
    }
  }

  /** The chain of recorded predecessors that ends at n. It starts at time zero
      and weighs no more than the earliest time of n; it weighs just that iff
      each of its edges binds, which they do where no weight is negative. */
  method PathTo(s: Schedule, n: string, ghost E: set<Edge>, ghost N: set<string>, ghost inc: map<string, seq<Edge>>)
    returns (path: seq<Edge>)
    requires ScheduleOf(E, N, inc, s)
    ensures Chain(E, s, path, n)
    ensures Weight(path) <= Get(s.earliest, n)
    ensures Weight(path) == Get(s.earliest, n) <==> AllBind(s.earliest, path)
    ensures NonNegative(E) ==> Weight(path) == Get(s.earliest, n)
  {
    hide ScheduleOf;
    ghost var order := OrderOf(E, N, inc, s);
    path := [];
    var at := n;
    ghost var bound: nat := |order|;
    while at in s.pred
      invariant Walk(E, at, path, n)
      invariant forall e :: e in path ==> e.to in s.pred && s.pred[e.to] == e
      invariant bound <= |order| && (at in N ==> at in order[..bound])
      decreases bound
    {
      ChainStep(E, N, inc, s, at);
      var e := s.pred[at];
      ghost var j :| 0 <= j < bound && order[j] == at;
      assert e.from in order[..j];
      bound := j;
      assert ([e] + path)[1..] == path;
      path := [e] + path;
      at := e.from;
    }
    ChainStep(E, N, inc, s, at);
    ChainWeight(E, N, inc, s, at, path, n);
  }

  lemma ChainWeight(E: set<Edge>, N: set<string>, inc: map<string, seq<Edge>>, s: Schedule, first: string,
                    path: seq<Edge>, n: string)
    requires ScheduleOf(E, N, inc, s) && Walk(E, first, path, n) && Get(s.earliest, first) == 0
    requires forall e :: e in path ==> e.to in s.pred && s.pred[e.to] == e
    ensures Weight(path) <= Get(s.earliest, n)
    ensures Weight(path) == Get(s.earliest, n) <==> AllBind(s.earliest, path)
    ensures NonNegative(E) ==> AllBind(s.earliest, path)
  {
    SettledFeasible(E, N, s.earliest);
    WalkPushes(E, N, s.earliest, first, path, n);
    WalkBinds(E, N, s.earliest, first, path, n);
    if NonNegative(E) {
      forall e | e in path ensures Offer(s.earliest, e) == Get(s.earliest, e.to) {
        ChainStep(E, N, inc, s, e.to);
      }
    }
  }

  lemma OrderOf(E: set<Edge>, N: set<string>, inc: map<string, seq<Edge>>, s: Schedule) returns (order: seq<string>)
    requires ScheduleOf(E, N, inc, s)
    ensures Ends(E, N, s, order)
  {
    order :| Ends(E, N, s, order);
  }

  ghost predicate NoSlack(s: Schedule, path: seq<Edge>) {
    forall e :: e in path ==> s.Slack(e.from) == 0 && s.Slack(e.to) == 0
  }

  /** The critical path: it weighs the whole makespan, and no node on it has any slack. */
  method CriticalPath(s: Schedule, ghost E: set<Edge>, ghost N: set<string>, ghost inc: map<string, seq<Edge>>)
    returns (path: seq<Edge>)
    requires ScheduleOf(E, N, inc, s)
    ensures Chain(E, s, path, s.end)
    ensures NonNegative(E) && "" !in N ==> Weight(path) == s.makespan && NoSlack(s, path)
  {
    hide ScheduleOf;
    path := PathTo(s, s.end, E, N, inc);
    if NonNegative(E) && "" !in N {
      NodesOfEmptySchedule(E, N, inc, s);
      MakespanIsHeaviest(E, N, inc, s);
      ghost var first :| Walk(E, first, path, s.end) && first !in s.pred && Get(s.earliest, first) == 0;
      forall e | e in path ensures s.Slack(e.from) == 0 && s.Slack(e.to) == 0 {
        CriticalEdge(E, N, inc, s, first, path, e);
      }
    }
  }

  lemma NodesOfEmptySchedule(E: set<Edge>, N: set<string>, inc: map<string, seq<Edge>>, s: Schedule)
    requires ScheduleOf(E, N, inc, s) && "" !in N
    ensures N == {} ==> Get(s.earliest, s.end) == 0 == s.makespan
  {
    var order :| Ends(E, N, s, order);
    assert order != [] ==> order[0] in order;
  }

  lemma CriticalNode(E: set<Edge>, N: set<string>, inc: map<string, seq<Edge>>, s: Schedule, first: string,
                     path: seq<Edge>, k: nat, v: string)
    requires ScheduleOf(E, N, inc, s) && "" !in N && v in N && k <= |path|
    requires Walk(E, first, path[..k], v) && Walk(E, v, path[k..], s.end)
    requires Weight(path[..k]) + Weight(path[k..]) == s.makespan
    ensures s.Slack(v) == 0
  {
    hide ScheduleOf;
    SlackNonNegative(E, N, inc, s, v);
    WalkTimes(E, N, inc, s, v);
  }

  lemma CriticalEdge(E: set<Edge>, N: set<string>, inc: map<string, seq<Edge>>, s: Schedule, first: string,
                     path: seq<Edge>, e: Edge)
    requires ScheduleOf(E, N, inc, s) && "" !in N
    requires Walk(E, first, path, s.end) && Weight(path) == s.makespan && e in path
    ensures s.Slack(e.from) == 0 && s.Slack(e.to) == 0
  {
    var k :| 0 <= k < |path| && path[k] == e;
    WalkEdges(E, first, path, s.end);
    var a := Split(E, first, path, s.end, k);
    CriticalNode(E, N, inc, s, first, path, k, a);
    var b := Split(E, first, path, s.end, k + 1);
    CriticalNode(E, N, inc, s, first, path, k + 1, b);
  }

  // ---- what-if ------------------------------------------------------------

  /** The makespan after dropping every edge equal to the given one. */
  method MakespanWithout(g: Graph, drop: Edge) returns (m: Option<int>)
    requires g.Valid()
    ensures m.Some? <==> Acyclic(g.Edges() - {drop})
    ensures Acyclic(g.Edges()) ==> m.Some?
    ensures m.Some? && "" !in g.nodes ==> Heaviest(g.Edges() - {drop}, m.value)
    ensures m.Some? && "" !in g.nodes ==> forall before :: Heaviest(g.Edges(), before) ==>
      m.value <= before && (m.value < before <==> AllUse(g.Edges(), before, drop))
  {
    hide AllUse, Heaviest, ScheduleOf;
    var h := Without(g, drop);
    var s := Solve(h);
    assert Acyclic(g.Edges()) ==> Acyclic(g.Edges() - {drop}) by {
      if Acyclic(g.Edges()) {
        forall u ensures !ReachPlus(g.Edges() - {drop}, u, u) {
          ReachMono(g.Edges() - {drop}, g.Edges(), u, u);
        }
      }
    }
    if s.None? { return None; }
    if "" !in g.nodes { MakespanIsHeaviest(h.Edges(), h.nodes, h.inc, s.value); }
    m := Some(s.value.makespan);
    if "" !in g.nodes {
      forall before | Heaviest(g.Edges(), before)
        ensures m.value <= before && (m.value < before <==> AllUse(g.Edges(), before, drop))
      {
        RemovalEffect(g.Edges(), drop, before, m.value);
      }
    }
  }

  method Without(g: Graph, drop: Edge) returns (h: Graph)
    requires g.Valid()
    ensures fresh(h) && h.Valid() && h.nodes == g.nodes && h.Edges() == g.Edges() - {drop}
  {
    hide Consistent, EdgeSet, At;
    h := new Graph();
    ghost var N, E := g.nodes, g.Edges();
    OrderCovers(g);
    assert From(E, g.order[..0]) == {};
    for i := 0 to |g.order|
      invariant fresh(h) && h.Valid() && h.nodes <= N
      invariant Elems(g.order[..i]) <= h.nodes
      invariant h.Edges() == From(E, g.order[..i]) - {drop}
      invariant g.Valid() && g.nodes == N && g.Edges() == E
    {
      var n := g.order[i];
      OutExact(g, n);
      h.AddNode(n);
      AddAllBut(h, g.Out(n), drop, N);
      FromSnoc(E, g.order, i, g.Out(n));
      assert g.order[..i + 1] == g.order[..i] + [n];
    }
    assert g.order[..|g.order|] == g.order;
    assert From(E, g.order) == E;
    assert Elems(g.order) == N;
  }

  lemma OutExact(g: Graph, n: string)
    requires g.Valid()
    ensures forall e :: e in g.Out(n) <==> e in g.Edges() && e.from == n
    ensures forall e :: e in g.Out(n) ==> e.from in g.nodes && e.to in g.nodes
  {
  }

  lemma OrderCovers(g: Graph)
    requires g.Valid()
    ensures Elems(g.order) == g.nodes
  {
  }

  lemma FromSnoc(E: set<Edge>, order: seq<string>, i: nat, es: seq<Edge>)
    requires i < |order| && forall e :: e in es <==> e in E && e.from == order[i]
    ensures From(E, order[..i + 1]) == From(E, order[..i]) + Elems(es)
  {
    assert order[..i + 1] == order[..i] + [order[i]];
  }

  ghost function From(E: set<Edge>, ns: seq<string>): set<Edge> {
    set e | e in E && e.from in ns
  }

  method AddAllBut(h: Graph, es: seq<Edge>, drop: Edge, ghost N: set<string>)
    requires h.Valid() && forall e :: e in es ==> e.from in N && e.to in N
    modifies h
    ensures h.Valid() && old(h.nodes) <= h.nodes <= old(h.nodes) + N
    ensures h.Edges() == old(h.Edges()) + (Elems(es) - {drop})
  {
    hide Consistent, EdgeSet, At;
    for j := 0 to |es|
      invariant h.Valid() && old(h.nodes) <= h.nodes <= old(h.nodes) + N
      invariant h.Edges() == old(h.Edges()) + (Elems(es[..j]) - {drop})
    {
      assert es[j] in es;
      assert es[..j + 1] == es[..j] + [es[j]];
      assert Elems(es[..j + 1]) == Elems(es[..j]) + {es[j]};
      if es[j] != drop { h.AddEdge(es[j]); }
    }
    assert es[..|es|] == es;
  }
}
