/** Tarjan's strongly connected components, with the mutable index, low-link,
    stack and output of the search as fields of an object. */
module Tarjan {
  import opened Walks
  import opened Digraph

  ghost predicate Mutual(E: set<Edge>, u: string, w: string) {
    Reach(E, u, w) && Reach(E, w, u)
  }

  /** C is one whole class of mutually reachable nodes. */
  ghost predicate IsScc(E: set<Edge>, C: set<string>) {
    C != {} && forall u, w {:trigger Mutual(E, u, w)} :: u in C ==> (w in C <==> Mutual(E, u, w))
  }

  /** The components with a cycle, each once: exactly the nodes on cycles, grouped by class. */
  ghost predicate CyclicComponents(E: set<Edge>, comps: seq<seq<string>>) {
    && (forall i :: 0 <= i < |comps| ==> NoDup(comps[i]) && IsScc(E, Elems(comps[i])))
    && (forall i, v :: 0 <= i < |comps| && v in comps[i] ==> ReachPlus(E, v, v))
    && (forall i, j, v :: 0 <= i < j < |comps| && v in comps[i] ==> v !in comps[j])
    && (forall v {:trigger Listed(comps, v)} :: ReachPlus(E, v, v) ==> Listed(comps, v))
  }

  ghost predicate Listed(comps: seq<seq<string>>, v: string) {
    exists i :: 0 <= i < |comps| && v in comps[i]
  }

  // ---- the invariant of the search ---------------------------------------

  ghost predicate Ordered(index: map<string, int>, stack: seq<string>, next: int) {
    && (forall x :: x in index ==> index[x] < next)
    && (forall i :: 0 <= i < |stack| ==> stack[i] in index)
    && (forall i, j :: 0 <= i < j < |stack| ==> index[stack[i]] < index[stack[j]])
  }

  /** y can climb back to a node of the current path that is at least as old. */
  ghost predicate Climbs(E: set<Edge>, gray: set<string>, index: map<string, int>, y: string) {
    exists x :: x in gray && x in index && y in index && index[x] <= index[y] && Reach(E, y, x)
  }

  /** gray is the path being searched: it lies on the stack, every node of it
      reaches all later stack nodes, and every stack node climbs back to it. */
  ghost predicate GrayOk(E: set<Edge>, gray: set<string>, index: map<string, int>, stack: seq<string>) {
    && (forall x :: x in gray ==> x in stack)
    && (forall i, j :: 0 <= i <= j < |stack| && stack[i] in gray ==> Reach(E, stack[i], stack[j]))
    && (forall y {:trigger Climbs(E, gray, index, y)} :: y in stack ==> Climbs(E, gray, index, y))
  }

  /** Finished nodes have only visited successors; popped nodes only popped ones. */
  ghost predicate EdgesOk(E: set<Edge>, gray: set<string>, index: map<string, int>, stack: seq<string>) {
    && (forall e :: e in E && e.from in index && e.from !in gray ==> e.to in index)
    && (forall e :: e in E && e.from in index && e.from !in stack ==> e.to in index && e.to !in stack)
  }

  ghost predicate OutOk(E: set<Edge>, index: map<string, int>, stack: seq<string>, out: seq<seq<string>>) {
    && (forall i :: 0 <= i < |out| ==> NoDup(out[i]) && IsScc(E, Elems(out[i])))
    && (forall i, v :: 0 <= i < |out| && v in out[i] ==> ReachPlus(E, v, v) && v in index && v !in stack)
    && (forall i, j, v :: 0 <= i < j < |out| && v in out[i] ==> v !in out[j])
    && (forall v {:trigger Listed(out, v)} :: v in index && v !in stack && ReachPlus(E, v, v) ==> Listed(out, v))
  }

  // ---- steps --------------------------------------------------------------

  lemma PushStep(E: set<Edge>, gray: set<string>, index: map<string, int>, stack: seq<string>, next: int,
                 out: seq<seq<string>>, v: string)
    requires Ordered(index, stack, next) && GrayOk(E, gray, index, stack)
    requires EdgesOk(E, gray, index, stack) && OutOk(E, index, stack, out)
    requires v !in index && forall x :: x in gray ==> Reach(E, x, v)
    ensures Ordered(index[v := next], stack + [v], next + 1)
    ensures GrayOk(E, gray + {v}, index[v := next], stack + [v])
    ensures EdgesOk(E, gray + {v}, index[v := next], stack + [v])
    ensures OutOk(E, index[v := next], stack + [v], out)
  {
    ReachRefl(E, v);
    var index', stack' := index[v := next], stack + [v];
    forall y {:trigger Climbs(E, gray + {v}, index', y)} | y in stack' ensures Climbs(E, gray + {v}, index', y) {
      if y in stack {
        assert Climbs(E, gray, index, y);
      } else {
        assert v in gray + {v} && index'[v] <= index'[y] && Reach(E, y, v);
      }
    }
    forall x | x in index' && x !in stack' && ReachPlus(E, x, x) ensures Listed(out, x) {
      assert x in index && x !in stack;
    }
  }

  /** The edges out of the part of the stack above k that lead below k. */
  ghost predicate Cross(E: set<Edge>, index: map<string, int>, stack: seq<string>, k: nat, bound: int) {
    k <= |stack| &&
    forall e :: e in E && e.from in stack[k..] && e.to in stack[..k] && e.to in index ==> bound <= index[e.to]
  }

  /** The low-link is the index of a stack node that v reaches. */
  ghost predicate Attained(E: set<Edge>, index: map<string, int>, stack: seq<string>, v: string, low: int) {
    exists y :: y in stack && y in index && index[y] == low && Reach(E, v, y)
  }

  lemma ReClimb(E: set<Edge>, gray: set<string>, index: map<string, int>, v: string, z: string)
    requires Climbs(E, gray + {v}, index, z) && Climbs(E, gray, index, v)
    ensures Climbs(E, gray, index, z)
  {
    hide Reach;
    var x :| x in gray + {v} && x in index && index[x] <= index[z] && Reach(E, z, x);
    if x == v {
      var x0 :| x0 in gray && x0 in index && index[x0] <= index[v] && Reach(E, v, x0);
      ReachTrans(E, z, v, x0);
    }
  }

  lemma FinishKeeps(E: set<Edge>, gray: set<string>, index: map<string, int>, stack: seq<string>, next: int,
                    k: nat, v: string, low: int)
    requires Ordered(index, stack, next) && GrayOk(E, gray + {v}, index, stack) && EdgesOk(E, gray + {v}, index, stack)
    requires k < |stack| && stack[k] == v && gray <= Elems(stack[..k])
    requires forall e :: e in E && e.from == v ==> e.to in index
    requires low < index[v] && Attained(E, index, stack, v, low)
    ensures GrayOk(E, gray, index, stack) && EdgesOk(E, gray, index, stack)
    ensures Attained(E, index, stack[..k], v, low)
  {
    hide Reach;
    var y :| y in stack && y in index && index[y] == low && Reach(E, v, y);
    var j :| 0 <= j < |stack| && stack[j] == y;
    assert j < k;
    assert y in stack[..k];
    assert Climbs(E, gray + {v}, index, y);
    ClimbsOn(E, gray, index, v, y);
    forall z {:trigger Climbs(E, gray, index, z)} | z in stack ensures Climbs(E, gray, index, z) {
      assert Climbs(E, gray + {v}, index, z);
      ReClimb(E, gray, index, v, z);
    }
  }

  /** Something older than v that v reaches lets v itself climb without help of v. */
  lemma ClimbsOn(E: set<Edge>, gray: set<string>, index: map<string, int>, v: string, y: string)
    requires Climbs(E, gray + {v}, index, y) && v in index && index[y] < index[v] && Reach(E, v, y)
    ensures Climbs(E, gray, index, v)
  {
    var x :| x in gray + {v} && x in index && index[x] <= index[y] && Reach(E, y, x);
    ReachTrans(E, v, y, x);
  }

  lemma AllMutual(E: set<Edge>, gray: set<string>, index: map<string, int>, stack: seq<string>, next: int,
                  k: nat, v: string)
    requires Ordered(index, stack, next) && GrayOk(E, gray + {v}, index, stack)
    requires k < |stack| && stack[k] == v && gray <= Elems(stack[..k])
    ensures forall y :: y in stack[k..] ==> Mutual(E, v, y)
  {
    hide Reach;
    forall y | y in stack[k..] ensures Mutual(E, v, y) {
      var j :| k <= j < |stack| && stack[j] == y;
      assert Reach(E, stack[k], stack[j]);
      assert Climbs(E, gray + {v}, index, y);
      var x :| x in gray + {v} && x in index && index[x] <= index[y] && Reach(E, y, x);
      if x != v {
        assert x in stack[..k];
        var i :| 0 <= i < k && stack[i] == x;
        assert Reach(E, stack[i], stack[k]);
        ReachTrans(E, y, x, v);
      }
    }
  }

  lemma PopKeepsGray(E: set<Edge>, gray: set<string>, index: map<string, int>, stack: seq<string>, next: int,
                     k: nat, v: string)
    requires Ordered(index, stack, next) && GrayOk(E, gray + {v}, index, stack) && EdgesOk(E, gray + {v}, index, stack)
    requires k < |stack| && stack[k] == v && gray <= Elems(stack[..k])
    ensures Ordered(index, stack[..k], next) && GrayOk(E, gray, index, stack[..k])
  {
    var rest := stack[..k];
    forall y {:trigger Climbs(E, gray, index, y)} | y in rest ensures Climbs(E, gray, index, y) {
      assert Climbs(E, gray + {v}, index, y);
      var i :| 0 <= i < k && stack[i] == y;
      assert index[stack[i]] < index[stack[k]];
    }
  }

  lemma PopKeepsEdges(E: set<Edge>, gray: set<string>, index: map<string, int>, stack: seq<string>, next: int,
                      k: nat, v: string)
    requires Ordered(index, stack, next) && GrayOk(E, gray + {v}, index, stack) && EdgesOk(E, gray + {v}, index, stack)
    requires k < |stack| && stack[k] == v && gray <= Elems(stack[..k])
    requires forall e :: e in E && e.from == v ==> e.to in index
    requires Cross(E, index, stack, k, index[v])
    ensures EdgesOk(E, gray, index, stack[..k])
  {
    var rest := stack[..k];
    assert stack == rest + stack[k..] && v == stack[k..][0];
    forall e | e in E && e.from in index && e.from !in rest ensures e.to in index && e.to !in rest {
      if e.from in stack {
        assert e.from in stack[k..] && e.from !in gray;
        assert e.to in index;
      }
    }
  }

  lemma StackSplit(index: map<string, int>, stack: seq<string>, next: int, k: nat)
    requires Ordered(index, stack, next) && k <= |stack|
    ensures Elems(stack[k..]) !! Elems(stack[..k]) && Elems(stack) == Elems(stack[..k]) + Elems(stack[k..])
  {
    assert stack == stack[..k] + stack[k..];
    forall v | v in stack[k..] ensures v !in stack[..k] {
      var i :| k <= i < |stack| && stack[i] == v;
      assert forall j :: 0 <= j < k ==> index[stack[j]] < index[stack[i]];
    }
  }

  /** Mutually reachable nodes between two sets that no edge leaves are a whole class. */
  lemma ClassBetween(E: set<Edge>, C: set<string>, gone: set<string>, v: string)
    requires v in C && C !! gone && forall y :: y in C ==> Mutual(E, v, y)
    requires forall e :: e in E && e.from in gone ==> e.to in gone
    requires forall e :: e in E && e.from in C + gone ==> e.to in C + gone
    ensures IsScc(E, C)
  {
    forall u, w {:trigger Mutual(E, u, w)} | u in C ensures w in C <==> Mutual(E, u, w) {
      if w in C { ReachTrans(E, u, v, w); ReachTrans(E, w, v, u); }
      if Mutual(E, u, w) && w !in C {
        ClosedReach(E, C + gone, u, w);
        ClosedReach(E, gone, w, u);
        assert false;
      }
    }
  }

  lemma PopIsScc(E: set<Edge>, gray: set<string>, index: map<string, int>, stack: seq<string>, next: int,
                 k: nat, v: string)
    requires Ordered(index, stack, next) && GrayOk(E, gray + {v}, index, stack) && EdgesOk(E, gray + {v}, index, stack)
    requires k < |stack| && stack[k] == v && gray <= Elems(stack[..k])
    requires EdgesOk(E, gray, index, stack[..k])
    ensures IsScc(E, Elems(stack[k..]))
  {
    AllMutual(E, gray, index, stack, next, k, v);
    StackSplit(index, stack, next, k);
    var C, rest, gone := Elems(stack[k..]), stack[..k], index.Keys - Elems(stack);
    assert v == stack[k..][0];
    assert C + gone == index.Keys - Elems(rest);
    forall e | e in E && e.from in C + gone ensures e.to in C + gone {
      assert e.from in index && e.from !in rest;
      assert e.to in index && e.to !in rest;
    }
    ClassBetween(E, C, gone, v);
  }

  /** A popped component is reported exactly when it holds a cycle. */
  lemma CycleTest(E: set<Edge>, C: set<string>, v: string)
    requires IsScc(E, C) && v in C
    ensures (exists u :: u in C && u != v) || (exists e :: e in E && e.from == v && e.to == v)
            ==> forall u :: u in C ==> ReachPlus(E, u, u)
    ensures ReachPlus(E, v, v) ==> (exists u :: u in C && u != v) || (exists e :: e in E && e.from == v && e.to == v)
  {
    if (exists u :: u in C && u != v) || (exists e :: e in E && e.from == v && e.to == v) {
      if exists u :: u in C && u != v {
        var u :| u in C && u != v;
        assert Mutual(E, v, u);
        DistinctReach(E, v, u);
        ReachTrans(E, v, u, v);
      } else {
        var e :| e in E && e.from == v && e.to == v;
        Single(E, e);
      }
      forall x | x in C ensures ReachPlus(E, x, x) {
        assert Mutual(E, v, x);
        ReachTrans(E, x, v, v);
        ReachTrans(E, x, v, x);
      }
    }
    if ReachPlus(E, v, v) {
      var p :| p != [] && Walk(E, v, p, v);
      var e: Edge := p[0];
      assert Walk(E, e.to, p[1..], v);
      Single(E, e);
      assert Mutual(E, v, e.to);
      assert e.to in C;
    }
  }

  // ---- one edge of the loop ----------------------------------------------

  ghost predicate Grown(a: map<string, int>, b: map<string, int>) {
    forall x :: x in a ==> x in b && b[x] == a[x]
  }

  ghost predicate GrownBut(a: map<string, int>, b: map<string, int>, v: string) {
    forall x :: x in a && x != v ==> x in b && b[x] == a[x]
  }

  lemma GrownRefl(a: map<string, int>)
    ensures Grown(a, a)
  {
  }

  lemma GrownNew(a: map<string, int>, v: string, x: int)
    requires v !in a
    ensures Grown(a, a[v := x])
  {
  }

  lemma GrownOn(a: map<string, int>, b: map<string, int>, c: map<string, int>)
    requires Grown(a, b) && Grown(b, c)
    ensures Grown(a, c) && b.Keys <= c.Keys
  {
  }

  lemma GrownButOn(a: map<string, int>, b: map<string, int>, c: map<string, int>, v: string)
    requires Grown(a, b) && GrownBut(b, c, v) && v !in a
    ensures Grown(a, c)
  {
  }

  /** A map that grows, and then changes at v. */
  lemma GrownThen(a: map<string, int>, b: map<string, int>, v: string, x: int)
    requires Grown(a, b) && v in a
    ensures v in b && b[v] == a[v] && a.Keys <= b.Keys && GrownBut(a, b[v := x], v)
  {
  }

  /** v sits at position k of the stack and its edges es have been followed:
      l is a valid low-link for what they and the stack above v lead to. */
  ghost predicate Mid(E: set<Edge>, index: map<string, int>, stack: seq<string>, k: nat, v: string, es: seq<Edge>,
                      l: int)
  {
    && k < |stack| && stack[k] == v && v in index && l <= index[v]
    && Attained(E, index, stack, v, l)
    && (forall e :: e in E && e.from in stack[k + 1..] && e.to in stack[..k] && e.to in index ==> l <= index[e.to])
    && (forall e :: e in es ==> e.to in index && (e.to in stack[..k] ==> l <= index[e.to]))
  }

  /** What a recursive visit promises about the low-link it leaves. */
  ghost predicate LowOk(E: set<Edge>, index: map<string, int>, before: seq<string>, stack: seq<string>, v: string,
                        l: int)
  {
    && v in index && before <= stack && Cross(E, index, stack, |before|, l)
    && ((stack == before && l == index[v]) || (l < index[v] && Attained(E, index, before, v, l)))
  }

  function Min(a: int, b: int): int { if a <= b then a else b }

  lemma MidStart(E: set<Edge>, index: map<string, int>, stack: seq<string>, v: string)
    requires v in index
    ensures Mid(E, index, stack + [v], |stack|, v, [], index[v])
  {
    ReachRefl(E, v);
    var s := stack + [v];
    assert s[|stack| + 1..] == [];
    assert v in s;
  }

  lemma TreeLow(E: set<Edge>, index: map<string, int>, stack: seq<string>, v: string, l: int,
                index': map<string, int>, stack': seq<string>, e: Edge, lw: int)
    requires Attained(E, index, stack, v, l) && v in index && l <= index[v]
    requires e in E && e.from == v && e.to in index' && index[v] < index'[e.to]
    requires Grown(index, index') && LowOk(E, index', stack, stack', e.to, lw)
    ensures Attained(E, index', stack', v, Min(l, lw))
  {
    hide Cross;
    if l <= lw {
      var y :| y in stack && y in index && index[y] == l && Reach(E, v, y);
      assert y in stack' && index'[y] == l;
    } else {
      var y :| y in stack && y in index' && index'[y] == lw && Reach(E, e.to, y);
      EdgeReach(E, e, y);
      assert y in stack';
    }
  }

  lemma TreeEdge(E: set<Edge>, index: map<string, int>, stack: seq<string>, next: int, k: nat, v: string,
                 es: seq<Edge>, l: int, index': map<string, int>, stack': seq<string>, e: Edge, lw: int)
    requires Ordered(index, stack, next) && Mid(E, index, stack, k, v, es, l)
    requires e in E && e.from == v && e.to !in index && e.to in index' && next <= index'[e.to]
    requires Grown(index, index') && LowOk(E, index', stack, stack', e.to, lw)
    ensures Mid(E, index', stack', k, v, es + [e], Min(l, lw))
  {
    hide Attained, Reach;
    TreeLow(E, index, stack, v, l, index', stack', e, lw);
    assert stack'[..k] == stack[..k] && stack'[k + 1..] == stack[k + 1..] + stack'[|stack|..];
    assert forall x :: x in stack[..k] ==> x in stack && x in stack'[..|stack|];
    assert forall x :: x in stack ==> x in index;
  }

  lemma BackEdge(E: set<Edge>, index: map<string, int>, stack: seq<string>, k: nat, v: string, es: seq<Edge>,
                 l: int, e: Edge)
    requires Mid(E, index, stack, k, v, es, l)
    requires e in E && e.from == v && e.to in index && e.to in stack
    ensures Mid(E, index, stack, k, v, es + [e], Min(l, index[e.to]))
  {
    Single(E, e);
  }

  lemma PoppedEdge(E: set<Edge>, index: map<string, int>, stack: seq<string>, k: nat, v: string, es: seq<Edge>,
                   l: int, e: Edge)
    requires Mid(E, index, stack, k, v, es, l)
    requires e.to in index && e.to !in stack
    ensures Mid(E, index, stack, k, v, es + [e], l)
  {
  }

  lemma StackGrows(E: set<Edge>, index: map<string, int>, before: seq<string>, stack: seq<string>, v: string, l: int)
    requires LowOk(E, index, before, stack, v, l)
    ensures before <= stack
  {
  }

  lemma MidDone(E: set<Edge>, index: map<string, int>, stack: seq<string>, k: nat, v: string, es: seq<Edge>, l: int)
    requires Mid(E, index, stack, k, v, es, l)
    requires forall e :: e in E && e.from == v ==> e in es
    ensures Cross(E, index, stack, k, l) && v in index && l <= index[v] && Attained(E, index, stack, v, l)
    ensures forall e :: e in E && e.from == v ==> e.to in index
  {
    assert stack[k..] == [v] + stack[k + 1..];
  }

  lemma PopOut(E: set<Edge>, index: map<string, int>, stack: seq<string>, next: int, k: nat,
               out: seq<seq<string>>, scc: seq<string>, report: bool)
    requires Ordered(index, stack, next) && OutOk(E, index, stack, out) && k < |stack|
    requires NoDup(scc) && Elems(scc) == Elems(stack[k..]) && IsScc(E, Elems(scc))
    requires forall u :: u in scc ==> (report <==> ReachPlus(E, u, u))
    ensures OutOk(E, index, stack[..k], if report then out + [scc] else out)
  {
    hide IsScc, ReachPlus, Listed;
    var rest := stack[..k];
    StackSplit(index, stack, next, k);
    assert forall v :: v in scc <==> v in Elems(scc);
    forall v | v in index && v !in rest && ReachPlus(E, v, v) ensures v in scc || Listed(out, v) {
      if v !in stack { assert Listed(out, v); }
    }
    if report { Extend(E, index, rest, out, scc); }
  }

  lemma Extend(E: set<Edge>, index: map<string, int>, rest: seq<string>, out: seq<seq<string>>, scc: seq<string>)
    requires NoDup(scc) && IsScc(E, Elems(scc))
    requires forall v :: v in scc ==> ReachPlus(E, v, v) && v in index && v !in rest
    requires forall i, v :: 0 <= i < |out| && v in out[i] ==>
      v !in scc && v !in rest && v in index && ReachPlus(E, v, v)
    requires forall i :: 0 <= i < |out| ==> NoDup(out[i]) && IsScc(E, Elems(out[i]))
    requires forall i, j, v :: 0 <= i < j < |out| && v in out[i] ==> v !in out[j]
    requires forall v {:trigger Listed(out, v)} ::
      v in index && v !in rest && ReachPlus(E, v, v) ==> v in scc || Listed(out, v)
    ensures OutOk(E, index, rest, out + [scc])
  {
    hide IsScc, ReachPlus;
    var out' := out + [scc];
    forall v | v in index && v !in rest && ReachPlus(E, v, v) ensures Listed(out', v) {
      if v in scc {
        assert out'[|out|] == scc;
      } else {
        assert Listed(out, v);
        var i :| 0 <= i < |out| && v in out[i];
        assert out'[i] == out[i];
      }
    }
  }

  lemma GrayOnStack(E: set<Edge>, gray: set<string>, index: map<string, int>, stack: seq<string>)
    requires GrayOk(E, gray, index, stack)
    ensures gray <= Elems(stack)
  {
  }

  lemma LowPopped(E: set<Edge>, index: map<string, int>, stack: seq<string>, v: string)
    requires v in index
    ensures LowOk(E, index, stack, stack, v, index[v])
  {
    assert stack[|stack|..] == [];
  }

  lemma LowKept(E: set<Edge>, index: map<string, int>, before: seq<string>, stack: seq<string>, v: string, l: int)
    requires v in index && before <= stack && Cross(E, index, stack, |before|, l)
    requires l < index[v] && Attained(E, index, stack[..|before|], v, l)
    ensures LowOk(E, index, before, stack, v, l)
  {
    assert stack[..|before|] == before;
  }

  // ---- the search ---------------------------------------------------------

  class Search {
    const adj: map<string, seq<Edge>>
    ghost const E: set<Edge>
    ghost const N: set<string>
    var index: map<string, int>
    var low: map<string, int>
    var onStack: set<string>
    var stack: seq<string>
    var next: int
    var out: seq<seq<string>>

    constructor (g: Graph)
      requires g.Valid()
      ensures E == g.Edges() && N == g.nodes && Faithful(adj, E, N)
      ensures Inv({}) && index == map[] && stack == [] && out == []
    {
      adj, E, N := g.out, g.Edges(), g.nodes;
      index, low, onStack, stack, next, out := map[], map[], {}, [], 0, [];
    }

    ghost predicate Inv(gray: set<string>)
      reads this
    {
      && Ordered(index, stack, next) && GrayOk(E, gray, index, stack)
      && EdgesOk(E, gray, index, stack) && OutOk(E, index, stack, out)
      && onStack == Elems(stack) && low.Keys == index.Keys && index.Keys <= N
    }

    /** Search everything reachable from v that was not visited before. */
    method Visit(v: string, ghost gray: set<string>)
      requires Faithful(adj, E, N) && Inv(gray) && v in N && v !in index
      requires forall x :: x in gray ==> Reach(E, x, v)
      modifies this
      ensures Inv(gray) && v in index && old(next) <= index[v]
      ensures Grown(old(index), index) && Grown(old(low), low)
      ensures LowOk(E, index, old(stack), stack, v, low[v])
      decreases N - index.Keys, 0
    {
      hide GrayOk, EdgesOk, OutOk, Reach, Mid, Cross, LowOk, Ordered, Attained, Grown, GrownBut;
      ghost var index0, low0, stack0 := index, low, stack;
      GrayOnStack(E, gray, index0, stack0);
      PushStep(E, gray, index, stack, next, out, v);
      GrownNew(index, v, next);
      GrownNew(low, v, next);
      index, low := index[v := next], low[v := next];
      next := next + 1;
      stack := stack + [v];
      onStack := onStack + {v};
      MidStart(E, index, stack0, v);
      var es := At(adj, v);
      for i := 0 to |es|
        invariant Inv(gray + {v}) && v in index && index[v] == old(next)
        invariant Grown(index0, index) && Grown(low0, low)
        invariant index0.Keys <= index.Keys && stack0 + [v] <= stack
        invariant Mid(E, index, stack, |stack0|, v, es[..i], low[v])
      {
        assert es[..i + 1] == es[..i] + [es[i]];
        ghost var index1, low1 := index, low;
        Follow(v, es[i], |stack0|, es[..i], gray);
        GrownOn(index0, index1, index);
        GrownButOn(low0, low1, low, v);
      }
      assert es[..|es|] == es;
      assert stack[..|stack0|] == stack0;
      MidDone(E, index, stack, |stack0|, v, es, low[v]);
      if low[v] == index[v] {
        PopComponent(v, |stack0|, gray);
        LowPopped(E, index, stack0, v);
      } else {
        FinishKeeps(E, gray, index, stack, next, |stack0|, v, low[v]);
        LowKept(E, index, stack0, stack, v, low[v]);
      }
    }

    /** One round of the loop: follow one edge out of v. */
    method Follow(v: string, e: Edge, ghost k: nat, ghost es: seq<Edge>, ghost gray: set<string>)
      requires Faithful(adj, E, N) && Inv(gray + {v}) && v in index && e in E && e.from == v
      requires forall x :: x in gray ==> Reach(E, x, v)
      requires Mid(E, index, stack, k, v, es, low[v])
      modifies this
      ensures Inv(gray + {v}) && v in index && index[v] == old(index[v]) && old(stack) <= stack
      ensures Grown(old(index), index) && GrownBut(old(low), low, v)
      ensures Mid(E, index, stack, k, v, es + [e], low[v])
      decreases N - index.Keys, 1
    {
      hide GrayOk, EdgesOk, OutOk, Reach, Mid, Cross, LowOk, Ordered, Attained, Grown, GrownBut;
      var w := e.to;
      ghost var index0, low0, stack0, next0, l := index, low, stack, next, low[v];
      GrownRefl(index);
      GrownRefl(low);
      if w !in index {
        PathReaches(E, gray, v, e);
        Visit(w, gray + {v});
        GrownThen(index0, index, v, 0);
        GrownThen(low0, low, v, Min(l, low[w]));
        StackGrows(E, index, stack0, stack, w, low[w]);
        TreeEdge(E, index0, stack0, next0, k, v, es, l, index, stack, e, low[w]);
        low := low[v := Min(low[v], low[w])];
      } else if w in onStack {
        BackEdge(E, index, stack, k, v, es, l, e);
        GrownThen(low0, low, v, Min(l, index[w]));
        low := low[v := Min(low[v], index[w])];
      } else {
        PoppedEdge(E, index, stack, k, v, es, l, e);
        GrownThen(low0, low, v, l);
        assert low == low[v := l];
      }
    }

    /** Pop the finished component of v off the stack and report it if it holds a cycle. */
    method PopComponent(v: string, ghost k: nat, ghost gray: set<string>)
      requires Faithful(adj, E, N) && Inv(gray + {v})
      requires k < |stack| && stack[k] == v && gray <= Elems(stack[..k])
      requires forall e :: e in E && e.from == v ==> e.to in index
      requires Cross(E, index, stack, k, index[v])
      modifies this`stack, this`onStack, this`out
      ensures Inv(gray) && stack == old(stack)[..k]
    {
      hide GrayOk, EdgesOk, OutOk, IsScc, Cross, Reach, ReachPlus, Ordered;
      ghost var full := stack;
      PopKeepsGray(E, gray, index, full, next, k, v);
      PopKeepsEdges(E, gray, index, full, next, k, v);
      PopIsScc(E, gray, index, full, next, k, v);
      var scc;
      stack, onStack, scc := PopUntil(stack, onStack, v, k, index, next);
      Report(E, Elems(full[k..]), scc, v);
      var loop := HasSelfLoop(At(adj, v), v);
      assert loop <==> exists e :: e in E && e.from == v && e.to == v;
      PopOut(E, index, full, next, k, out, scc, |scc| > 1 || loop);
      if |scc| > 1 || loop { out := out + [scc]; }
    }
  }

  ghost predicate Faithful(adj: map<string, seq<Edge>>, E: set<Edge>, N: set<string>) {
    EndpointsIn(E, N) && forall n, e :: e in At(adj, n) <==> e in E && e.from == n
  }

  /** Pop down to and including v. */
  method PopUntil(stack: seq<string>, onStack: set<string>, v: string, ghost k: nat,
                  ghost index: map<string, int>, ghost next: int)
    returns (rest: seq<string>, onRest: set<string>, scc: seq<string>)
    requires Ordered(index, stack, next) && k < |stack| && stack[k] == v && onStack == Elems(stack)
    ensures rest == stack[..k] && onRest == Elems(rest)
    ensures NoDup(scc) && Elems(scc) == Elems(stack[k..]) && v in Elems(scc)
  {
    rest, onRest, scc := stack, onStack, [];
    while true
      invariant k < |rest| && rest == stack[..|rest|]
      invariant onRest == Elems(rest) && NoDup(scc) && Elems(scc) == Elems(stack[|rest|..])
      decreases |rest|
    {
      var w := rest[|rest| - 1];
      PopTop(index, stack, next, |rest| - 1);
      assert w !in Elems(scc);
      Snoc(scc, w);
      rest, onRest, scc := rest[..|rest| - 1], onRest - {w}, scc + [w];
      if w == v { break; }
    }
    assert index[stack[|rest|]] == index[stack[k]];
  }

  lemma Snoc(s: seq<string>, w: string)
    requires NoDup(s) && w !in Elems(s)
    ensures NoDup(s + [w]) && Elems(s + [w]) == Elems(s) + {w}
  {
  }

  lemma PopTop(index: map<string, int>, full: seq<string>, next: int, m: nat)
    requires Ordered(index, full, next) && m < |full|
    ensures Elems(full[..m + 1]) - {full[m]} == Elems(full[..m])
    ensures Elems(full[m + 1..]) + {full[m]} == Elems(full[m..])
    ensures full[m] !in full[m + 1..]
    ensures full[..m + 1][..m] == full[..m]
  {
    assert full[..m + 1] == full[..m] + [full[m]];
    assert full[m..] == [full[m]] + full[m + 1..];
    assert forall i :: 0 <= i < |full| && i != m ==> index[full[i]] != index[full[m]];
    assert full[m] !in full[..m];
  }

  lemma Report(E: set<Edge>, C: set<string>, scc: seq<string>, v: string)
    requires IsScc(E, C) && Elems(scc) == C && NoDup(scc) && v in C
    ensures forall u :: u in scc ==>
      (ReachPlus(E, u, u) <==> |scc| > 1 || exists e :: e in E && e.from == v && e.to == v)
  {
    hide ReachPlus, IsScc;
    CycleTest(E, C, v);
    assert forall u :: u in scc <==> u in C;
    if |scc| > 1 {
      var u := if scc[0] == v then scc[1] else scc[0];
      assert u in C && u != v;
    } else {
      assert forall u :: u in C ==> u == scc[0];
    }
  }

  lemma PathReaches(E: set<Edge>, gray: set<string>, v: string, e: Edge)
    requires e in E && e.from == v && forall x :: x in gray ==> Reach(E, x, v)
    ensures forall x :: x in gray + {v} ==> Reach(E, x, e.to)
  {
    Single(E, e);
    forall x | x in gray ensures Reach(E, x, e.to) { ReachTrans(E, x, v, e.to); }
  }

  lemma NothingOpen(E: set<Edge>, index: map<string, int>, stack: seq<string>)
    requires GrayOk(E, {}, index, stack)
    ensures stack == []
  {
    assert stack != [] ==> Climbs(E, {}, index, stack[0]);
  }

  lemma AllSearched(E: set<Edge>, N: set<string>, index: map<string, int>, out: seq<seq<string>>)
    requires EndpointsIn(E, N) && index.Keys == N && OutOk(E, index, [], out)
    ensures CyclicComponents(E, out)
    ensures |out| == 0 <==> Acyclic(E)
  {
    hide IsScc;
    forall v {:trigger Listed(out, v)} | ReachPlus(E, v, v) ensures Listed(out, v) {
      var p :| p != [] && Walk(E, v, p, v);
      WalkEndpoints(E, N, v, p, v);
    }
    if !Acyclic(E) {
      var v :| ReachPlus(E, v, v);
      assert Listed(out, v);
    }
    if |out| > 0 {
      NonEmpty(E, out[0]);
      var v := out[0][0];
      assert v in out[0] && ReachPlus(E, v, v);
    }
  }

  lemma NonEmpty(E: set<Edge>, c: seq<string>)
    requires IsScc(E, Elems(c))
    ensures |c| > 0
  {
  }

  /** The strongly connected components that contain a cycle, and no others. */
  method Cycles(g: Graph) returns (comps: seq<seq<string>>)
    requires g.Valid()
    ensures CyclicComponents(g.Edges(), comps)
    ensures |comps| == 0 <==> Acyclic(g.Edges())
  {
    hide CyclicComponents, OutOk, EdgesOk, GrayOk, Acyclic, Ordered, Grown, LowOk, Faithful;
    var s := new Search(g);
    NothingOpen(s.E, s.index, s.stack);
    for i := 0 to |g.order|
      invariant fresh(s) && s.Inv({}) && Faithful(s.adj, s.E, s.N)
      invariant forall j :: 0 <= j < i ==> g.order[j] in s.index
    {
      if g.order[i] !in s.index {
        ghost var before := s.index;
        s.Visit(g.order[i], {});
        GrownKeys(before, s.index);
      }
    }
    NothingOpen(s.E, s.index, s.stack);
    assert s.index.Keys == g.nodes;
    AllSearched(s.E, s.N, s.index, s.out);
    comps := s.out;
  }

  lemma GrownKeys(a: map<string, int>, b: map<string, int>)
    requires Grown(a, b)
    ensures a.Keys <= b.Keys
  {
  }
}
