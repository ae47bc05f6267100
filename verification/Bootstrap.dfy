/** What the precedence graph promises about every possible run: which events
    a bootstrap from nothing can fire, and how late they can be. */
module Bootstrap {
  import opened Walks
  import opened MaxPlus
  import opened Tarjan
  import opened Scheduling

  // ---- untimed runs -------------------------------------------------------

  /** An event may fire once, when everything that must precede it has fired. */
  ghost predicate CanFire(E: set<Edge>, fired: seq<string>, v: string) {
    v !in fired && forall e :: e in E && e.to == v ==> e.from in fired
  }

  ghost predicate Run(E: set<Edge>, N: set<string>, r: seq<string>) {
    forall k :: 0 <= k < |r| ==> r[k] in N && CanFire(E, r[..k], r[k])
  }

  ghost predicate Maximal(E: set<Edge>, N: set<string>, r: seq<string>) {
    forall v :: v in N ==> !CanFire(E, r, v)
  }

  /** v lies on a cycle or behind one. */
  ghost predicate Blocked(E: set<Edge>, v: string) {
    exists c :: ReachPlus(E, c, c) && Reach(E, c, v)
  }

  lemma {:induction false} AncestorsFireFirst(E: set<Edge>, N: set<string>, r: seq<string>, u: string,
                                              p: seq<Edge>, k: nat)
    requires Run(E, N, r) && k < |r| && Walk(E, u, p, r[k])
    ensures p != [] ==> u in r[..k]
    decreases |p|
  {
    if p != [] {
      var m := LastEdge(E, u, p, r[k]);
      assert CanFire(E, r[..k], r[k]);
      var j :| 0 <= j < k && r[j] == m;
      AncestorsFireFirst(E, N, r, u, p[..|p| - 1], j);
      if |p| == 1 { assert p[..0] == []; }
    }
  }

  lemma FiredIsNotBlocked(E: set<Edge>, N: set<string>, r: seq<string>, v: string)
    requires Run(E, N, r) && v in r
    ensures !Blocked(E, v)
  {
    if Blocked(E, v) {
      var c :| ReachPlus(E, c, c) && Reach(E, c, v);
      var p :| Walk(E, c, p, v);
      var k :| 0 <= k < |r| && r[k] == v;
      AncestorsFireFirst(E, N, r, c, p, k);
      assert c in r;
      var j :| 0 <= j < |r| && r[j] == c;
      var q :| q != [] && Walk(E, c, q, c);
      assert CanFire(E, r[..j], r[j]);
      AncestorsFireFirst(E, N, r, c, q, j);
      assert false;
    }
  }

  lemma StuckIsBlocked(E: set<Edge>, N: set<string>, r: seq<string>, v: string)
    requires EndpointsIn(E, N) && Maximal(E, N, r) && v in N && v !in r
    ensures Blocked(E, v)
  {
    var stuck := N - Elems(r);
    forall x {:trigger HasPred(E, stuck, x)} | x in stuck ensures HasPred(E, stuck, x) {
      assert !CanFire(E, r, x);
    }
    var c := BackwardCycle(E, stuck, v);
  }

  /** The bootstrap theorem. Whatever order the events fire in, a run that
      cannot go on has fired exactly the events that are neither in nor behind
      one of the reported components. */
  lemma MaximalRunFires(E: set<Edge>, N: set<string>, comps: seq<seq<string>>, r: seq<string>)
    requires EndpointsIn(E, N) && CyclicComponents(E, comps) && Run(E, N, r) && Maximal(E, N, r)
    ensures forall v :: v in N ==> (v in r <==> !Behind(E, comps, v))
  {
    forall v | v in N ensures v in r <==> !Behind(E, comps, v) {
      BlockedIsBehind(E, comps, v);
      if v in r { FiredIsNotBlocked(E, N, r, v); } else { StuckIsBlocked(E, N, r, v); }
    }
  }

  ghost predicate Behind(E: set<Edge>, comps: seq<seq<string>>, v: string) {
    exists i, c :: 0 <= i < |comps| && c in comps[i] && Reach(E, c, v)
  }

  lemma BlockedIsBehind(E: set<Edge>, comps: seq<seq<string>>, v: string)
    requires CyclicComponents(E, comps)
    ensures Blocked(E, v) <==> Behind(E, comps, v)
  {
    hide IsScc;
    if Blocked(E, v) {
      var c :| ReachPlus(E, c, c) && Reach(E, c, v);
      assert Listed(comps, c);
      var i :| 0 <= i < |comps| && c in comps[i];
    }
  }

  /** Everything converges if and only if no component is reported. */
  lemma ConvergesIffNoComponent(E: set<Edge>, N: set<string>, comps: seq<seq<string>>, r: seq<string>)
    requires EndpointsIn(E, N) && CyclicComponents(E, comps) && Run(E, N, r) && Maximal(E, N, r)
    ensures (forall v :: v in N ==> v in r) <==> comps == []
  {
    MaximalRunFires(E, N, comps, r);
    if comps != [] {
      NonEmpty(E, comps[0]);
      var c := comps[0][0];
      assert c in comps[0] && ReachPlus(E, c, c);
      var p :| p != [] && Walk(E, c, p, c);
      WalkEndpoints(E, N, c, p, c);
      ReachRefl(E, c);
      assert Behind(E, comps, c);
    }
  }

  /** Every run, however it started, can be continued to one that cannot go on. */
  lemma {:induction false} RunExtends(E: set<Edge>, N: set<string>, r: seq<string>) returns (r': seq<string>)
    requires Run(E, N, r)
    ensures r <= r' && Run(E, N, r') && Maximal(E, N, r') && |r'| <= |N|
    decreases |N| - |r|
  {
    RunLength(E, N, r);
    if Maximal(E, N, r) {
      r' := r;
    } else {
      var v :| v in N && CanFire(E, r, v);
      var next := r + [v];
      forall k | 0 <= k < |next| ensures next[k] in N && CanFire(E, next[..k], next[k]) {
        assert next[..k] == r[..k];
        if k == |r| { assert r[..k] == r; }
      }
      RunLength(E, N, next);
      r' := RunExtends(E, N, next);
    }
  }

  lemma RunLength(E: set<Edge>, N: set<string>, r: seq<string>)
    requires Run(E, N, r)
    ensures |r| <= |N|
  {
    forall i, j | 0 <= i < j < |r| ensures r[i] != r[j] {
      assert CanFire(E, r[..j], r[j]) && r[..j][i] == r[i];
    }
    NoDupCard(r, N);
  }

  // ---- timed runs ---------------------------------------------------------

  /** D is a choice of actual delays: each between zero and what E allows. */
  ghost predicate Delays(D: set<Edge>, E: set<Edge>) {
    forall d :: d in D ==> Allowed(d, E)
  }

  ghost predicate Allowed(d: Edge, E: set<Edge>) {
    exists e :: e in E && e.from == d.from && e.to == d.to && 0 <= d.weight <= e.weight
  }

  /** The bound: if every delay stays within its edge and events fire as soon
      as they are enabled, no event is later than its earliest time in the
      schedule, hence none later than the makespan. With the full delays the
      firing times are exactly the scheduled ones. */
  lemma EveryRunWithinBound(E: set<Edge>, N: set<string>, inc: map<string, seq<Edge>>, s: Schedule,
                            D: set<Edge>, f: map<string, int>)
    requires ScheduleOf(E, N, inc, s) && "" !in N
    requires Delays(D, E) && AllSettled(D, N, f)
    ensures forall v :: v in N ==> Get(f, v) <= Get(s.earliest, v) <= s.makespan
    ensures D == E ==> forall v :: v in N ==> Get(f, v) == Get(s.earliest, v)
  {
    var order := OrderOf(E, N, inc, s);
    assert EndpointsIn(E, N);
    hide ScheduleOf, HeaviestInto, Heaviest, TopoOrder, AllSettled;
    MakespanIsHeaviest(E, N, inc, s);
    DelaysCovered(D, E, N);
    SameShapeOrder(D, E, N, order);
    CoverBounds(D, E);
    if D == E { CoverBounds(E, D); }
    forall v | v in N ensures Get(f, v) <= Get(s.earliest, v) && (D == E ==> Get(f, v) == Get(s.earliest, v)) {
      EarliestIsHeaviest(D, N, order, f, v);
      WalkTimes(E, N, inc, s, v);
    }
  }

  lemma DelaysCovered(D: set<Edge>, E: set<Edge>, N: set<string>)
    requires Delays(D, E) && EndpointsIn(E, N)
    ensures CoveredBy(D, E) && EndpointsIn(D, N)
  {
    forall d | d in D ensures Covered(E, d) && d.from in N && d.to in N {
      assert Allowed(d, E);
      var e :| e in E && e.from == d.from && e.to == d.to && 0 <= d.weight <= e.weight;
      Single(E, e);
    }
  }

  lemma SameShapeOrder(D: set<Edge>, E: set<Edge>, N: set<string>, order: seq<string>)
    requires Delays(D, E) && TopoOrder(E, N, order)
    ensures TopoOrder(D, N, order)
  {
    forall d, j | d in D && 0 <= j < |order| && order[j] == d.to ensures d.from in order[..j] {
      assert Allowed(d, E);
    }
  }
}
