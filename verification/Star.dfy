/** When the equations of the event times have a solution at all: heaviest
    walks exist at every node exactly when no cycle has positive weight. The
    scheduler asks for less than that, and this says by how much. */
module Star {
  import opened Walks
  import opened MaxPlus

  /** Some assignment of times respects every edge. */
  ghost predicate Solvable(E: set<Edge>, N: set<string>) {
    exists z :: Feasible(E, N, z)
  }

  /** Some assignment of times solves x = max(0, x[from] + weight) at every node. */
  ghost predicate HasSolution(E: set<Edge>, N: set<string>) {
    exists x :: AllSettled(E, N, x)
  }

  ghost predicate NoPositiveCycle(E: set<Edge>) {
    forall u, p :: Walk(E, u, p, u) ==> Weight(p) <= 0
  }

  // ---- cutting cycles out of a walk -----------------------------------------

  /** A walk with more edges than there are nodes leaves some node twice. */
  lemma Revisits(E: set<Edge>, N: set<string>, u: string, p: seq<Edge>, v: string) returns (i: nat, j: nat)
    requires EndpointsIn(E, N) && Walk(E, u, p, v) && |p| > |N|
    ensures i < j < |p| && p[i].from == p[j].from
  {
    var froms := seq(|p|, k requires 0 <= k < |p| => p[k].from);
    WalkEdges(E, u, p, v);
    forall x | x in froms ensures x in N {
      var k :| 0 <= k < |froms| && froms[k] == x;
      assert p[k] in E;
    }
    if NoDup(froms) { NoDupCard(froms, N); }
    i, j :| 0 <= i < j < |froms| && froms[i] == froms[j];
  }

  /** Leaving out the closed stretch between two visits loses no weight. */
  lemma Shortcut(E: set<Edge>, u: string, p: seq<Edge>, v: string, i: nat, j: nat) returns (q: seq<Edge>)
    requires NoPositiveCycle(E) && Walk(E, u, p, v) && i < j < |p| && p[i].from == p[j].from
    ensures Walk(E, u, q, v) && Weight(q) >= Weight(p) && |q| < |p|
  {
    var a := Split(E, u, p, v, j);
    var b := Split(E, u, p[..j], a, i);
    assert p[..j][i] == p[i];
    Concat(E, u, p[..j][..i], a, p[j..], v);
    q := p[..j][..i] + p[j..];
  }

  /** Without positive cycles some walk of at most |N| edges is as heavy as any walk between its ends. */
  lemma {:induction false} CutWalk(E: set<Edge>, N: set<string>, u: string, p: seq<Edge>, v: string)
    returns (q: seq<Edge>)
    requires EndpointsIn(E, N) && NoPositiveCycle(E) && Walk(E, u, p, v)
    ensures Walk(E, u, q, v) && Weight(q) >= Weight(p) && |q| <= |N|
    decreases |p|
  {
    hide NoPositiveCycle;
    q := p;
    if |p| > |N| {
      var i, j := Revisits(E, N, u, p, v);
      q := Shortcut(E, u, p, v, i, j);
      q := CutWalk(E, N, u, q, v);
    }
  }

  // ---- heaviest walks of bounded length ---------------------------------------

  /** p is a heaviest walk into v among those of at most k edges. */
  ghost predicate BestInto(E: set<Edge>, k: nat, v: string, u: string, p: seq<Edge>) {
    && Walk(E, u, p, v) && |p| <= k
    && (forall w, q :: Walk(E, w, q, v) && |q| <= k ==> Weight(q) <= Weight(p))
  }

  /** ... among the empty walk and those of at most k + 1 edges whose last one is in S. */
  ghost predicate BestThrough(E: set<Edge>, k: nat, v: string, S: set<Edge>, u: string, p: seq<Edge>) {
    && Walk(E, u, p, v) && |p| <= k + 1 && Weight(p) >= 0
    && (forall w, q :: Walk(E, w, q, v) && 0 < |q| <= k + 1 && q[|q| - 1] in S ==> Weight(q) <= Weight(p))
  }

  lemma {:induction false} Best(E: set<Edge>, k: nat, v: string) returns (u: string, p: seq<Edge>)
    ensures BestInto(E, k, v, u, p)
    decreases k, 0, 0
  {
    if k == 0 {
      u, p := v, [];
    } else {
      u, p := BestOver(E, k - 1, v, E);
      forall w, q | Walk(E, w, q, v) && |q| <= k ensures Weight(q) <= Weight(p) {
        if q != [] { var m := LastEdge(E, w, q, v); }
      }
    }
  }

  lemma {:induction false} BestOver(E: set<Edge>, k: nat, v: string, S: set<Edge>) returns (u: string, p: seq<Edge>)
    requires S <= E
    ensures BestThrough(E, k, v, S, u, p)
    decreases k, 1, |S|
  {
    if S == {} {
      u, p := v, [];
    } else {
      var e :| e in S;
      u, p := BestOver(E, k, v, S - {e});
      if e.to == v {
        var u', p' := Best(E, k, e.from);
        Single(E, e);
        Concat(E, u', p', e.from, [e], v);
        var longer := p' + [e];
        forall w, q | Walk(E, w, q, v) && 0 < |q| <= k + 1 && q[|q| - 1] == e ensures Weight(q) <= Weight(longer) {
          var m := LastEdge(E, w, q, v);
        }
        if Weight(longer) > Weight(p) { u, p := u', longer; }
      } else {
        forall w, q | Walk(E, w, q, v) && q != [] ensures q[|q| - 1] != e {
          var m := LastEdge(E, w, q, v);
        }
      }
    }
  }

  // ---- existence ----------------------------------------------------------------

  /** Every node has a heaviest walk into it. */
  ghost predicate Attained(E: set<Edge>, N: set<string>) {
    forall v {:trigger HasHeaviest(E, v)} :: v in N ==> HasHeaviest(E, v)
  }

  ghost predicate HasHeaviest(E: set<Edge>, v: string) {
    exists m :: HeaviestInto(E, v, m)
  }

  ghost function HeaviestOf(E: set<Edge>, v: string): (m: int)
    requires HasHeaviest(E, v)
    ensures HeaviestInto(E, v, m)
  {
    var m :| HeaviestInto(E, v, m); m
  }

  lemma NoPositiveCycleAttains(E: set<Edge>, N: set<string>)
    requires EndpointsIn(E, N) && NoPositiveCycle(E)
    ensures Attained(E, N)
  {
    hide NoPositiveCycle;
    forall v {:trigger HasHeaviest(E, v)} | v in N ensures HasHeaviest(E, v) {
      var u, p := Best(E, |N|, v);
      forall w, q | Walk(E, w, q, v) ensures Weight(q) <= Weight(p) {
        var short := CutWalk(E, N, w, q, v);
      }
      assert HeaviestInto(E, v, Weight(p));
    }
  }

  /** The weights of heaviest walks solve the equations. */
  lemma AttainedSolves(E: set<Edge>, N: set<string>) returns (x: map<string, int>)
    requires EndpointsIn(E, N) && Attained(E, N)
    ensures AllSettled(E, N, x)
  {
    hide HasHeaviest, HeaviestInto;
    x := map v | v in N && HasHeaviest(E, v) :: HeaviestOf(E, v);
    forall v {:trigger Settled(E, x, v)} | v in N ensures Settled(E, x, v) {
      assert HasHeaviest(E, v);
      forall e | e in E && e.to == v ensures HeaviestInto(E, e.from, Get(x, e.from)) {
        assert HasHeaviest(E, e.from);
      }
      HeaviestSettles(E, x, v);
    }
  }

  lemma HeaviestSettles(E: set<Edge>, x: map<string, int>, v: string)
    requires HeaviestInto(E, v, Get(x, v))
    requires forall e :: e in E && e.to == v ==> HeaviestInto(E, e.from, Get(x, e.from))
    ensures Settled(E, x, v)
  {
    assert Walk(E, v, [], v);
    forall e | e in E && e.to == v ensures Get(x, e.from) + e.weight <= Get(x, v) {
      var w, q :| Walk(E, w, q, e.from) && Weight(q) == Get(x, e.from);
      Single(E, e);
      Concat(E, w, q, e.from, [e], v);
    }
    var u, p :| Walk(E, u, p, v) && Weight(p) == Get(x, v);
    if p != [] {
      var m := LastEdge(E, u, p, v);
      var e: Edge := p[|p| - 1];
      assert Get(x, e.from) + e.weight == Get(x, v);
      assert Binding(E, x, v);
    }
  }

  /** A* exists, in each of its readings, iff the graph has no cycle of positive
      weight: some times respect every edge; the equations have a solution;
      every node has a heaviest walk into it. */
  lemma StarExistsIff(E: set<Edge>, N: set<string>)
    requires EndpointsIn(E, N)
    ensures Solvable(E, N) <==> NoPositiveCycle(E)
    ensures HasSolution(E, N) <==> NoPositiveCycle(E)
    ensures Attained(E, N) <==> NoPositiveCycle(E)
  {
    hide AllSettled, Attained, HasHeaviest;
    if NoPositiveCycle(E) { NoPositiveCycleAttains(E, N); }
    if Attained(E, N) {
      var x := AttainedSolves(E, N);
      assert HasSolution(E, N);
    }
    if x :| AllSettled(E, N, x) {
      SettledFeasible(E, N, x);
      assert Solvable(E, N);
    }
    if z :| Feasible(E, N, z) {
      forall u, p | Walk(E, u, p, u) ensures Weight(p) <= 0 { WalkPushes(E, N, z, u, p, u); }
    }
  }

  // ---- what the scheduler refuses ---------------------------------------------

  lemma AcyclicHasNoClosedWalk(E: set<Edge>, u: string, p: seq<Edge>)
    requires Acyclic(E) && Walk(E, u, p, u)
    ensures p == []
  {
    assert p != [] ==> ReachPlus(E, u, u);
  }

  /** A schedule is made iff the graph is acyclic. That agrees with the question
      whether the equations have a solution iff the graph is acyclic or one of
      its cycles has positive weight; a graph whose cycles all weigh nothing or
      less has a solution and no schedule. */
  lemma RefusalExact(E: set<Edge>, N: set<string>)
    requires EndpointsIn(E, N)
    ensures (Acyclic(E) <==> HasSolution(E, N)) <==> Acyclic(E) || !NoPositiveCycle(E)
    ensures Acyclic(E) ==> HasSolution(E, N)
  {
    StarExistsIff(E, N);
    if Acyclic(E) {
      forall u, p | Walk(E, u, p, u) ensures Weight(p) <= 0 { AcyclicHasNoClosedWalk(E, u, p); }
    }
  }

  /** A node that waits for itself without delay: solved by zero, refused by the scheduler. */
  lemma ZeroLoopIsRefused()
    ensures var e := Edge("a", "a", 0, "");
      Feasible({e}, {"a"}, map["a" := 0]) && AllSettled({e}, {"a"}, map["a" := 0]) && !Acyclic({e})
  {
    var e := Edge("a", "a", 0, "");
    Single({e}, e);
    assert Settled({e}, map["a" := 0], "a");
  }
}
