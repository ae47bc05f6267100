/** Level-by-level discovery of the component tree. Rendering is a parameter:
    what a component applies may depend on everything found so far. */
module Discovery {
  import opened Options
  import opened Digraph
  import opened Components

  /** The components that component i applies, given all components so far. */
  type Renderer = (seq<Component>, nat) -> seq<Component>

  /** What a parent applied, as a component of the tree: nothing else changes. */
  function Adopt(c: Component, parent: nat): (a: Component)
    ensures !a.isRoot && a.parent == Some(parent)
    ensures a.(isRoot := c.isRoot, parent := c.parent) == c
  {
    c.(isRoot := false, parent := Some(parent))
  }

  /** How far below the root component i was found: the level that it belongs to. */
  ghost function Depth(cs: seq<Component>, i: nat): nat
    requires i < |cs|
    decreases i
  {
    if cs[i].parent.Some? && cs[i].parent.value < i then 1 + Depth(cs, cs[i].parent.value) else 0
  }

  /** Component i is rendered when the first n components are known: those of its own level and of the levels above. */
  ghost predicate RenderedAt(cs: seq<Component>, n: nat, i: nat) {
    i < n <= |cs| && forall j :: 0 <= j < |cs| ==> (j < n <==> Depth(cs, j) <= Depth(cs, i))
  }

  lemma OneMoment(cs: seq<Component>, m: nat, n: nat, i: nat)
    requires RenderedAt(cs, m, i) && RenderedAt(cs, n, i)
    ensures m == n
  {
    hide Depth;
    assert m < |cs| ==> Depth(cs, m) > Depth(cs, i);
    assert n < |cs| ==> Depth(cs, n) > Depth(cs, i);
  }

  lemma {:induction false} DepthStays(cs: seq<Component>, more: seq<Component>, i: nat)
    requires i < |cs|
    ensures Depth(cs + more, i) == Depth(cs, i)
    decreases i
  {
    if cs[i].parent.Some? && cs[i].parent.value < i { DepthStays(cs, more, cs[i].parent.value); }
  }

  /** The components of more lie deeper than all of cs. */
  ghost predicate Deeper(cs: seq<Component>, more: seq<Component>) {
    forall i, j :: 0 <= i < |cs| <= j < |cs + more| ==> Depth(cs, i) < Depth(cs + more, j)
  }

  lemma MomentStays(cs: seq<Component>, more: seq<Component>, n: nat, i: nat)
    requires RenderedAt(cs, n, i) && Deeper(cs, more)
    ensures RenderedAt(cs + more, n, i) && (cs + more)[..n] == cs[..n]
  {
    hide Depth;
    forall j: nat | j < |cs| ensures Depth(cs + more, j) == Depth(cs, j) { DepthStays(cs, more, j); }
  }

  /** all lists the components found so far, those of the level being built last;
      byKey finds all but the root, and the root's own object is not among its children. */
  ghost predicate SoFar(root: Component, all: seq<Component>, byKey: map<string, nat>) {
    && |all| > 0 && all[0] == root
    && (forall i :: 0 < i < |all| ==> !all[i].isRoot && all[i].parent.Some? && all[i].parent.value < i)
    && (forall i :: 0 < i < |all| && all[i].parent == Some(0) ==> all[i].Key() != root.Key())
    && (forall i :: 0 < i < |all| ==> all[i].Key() in byKey && byKey[all[i].Key()] == i)
    && (forall k :: k in byKey ==> 0 < byKey[k] < |all| && all[byKey[k]].Key() == k)
  }

  lemma Found(root: Component, all: seq<Component>, byKey: map<string, nat>, child: Component)
    requires SoFar(root, all, byKey) && child.Key() !in byKey
    requires !child.isRoot && child.parent.Some? && child.parent.value < |all|
    requires child.parent.value == 0 ==> child.Key() != root.Key()
    ensures SoFar(root, all + [child], byKey[child.Key() := |all|])
  {
    hide KeyFor;
  }

  /** Everything in the list is to be found under one of the keys, the root's own object among its children apart. */
  ghost predicate Taken(root: Component, children: seq<Component>, i: nat, keys: set<string>) {
    forall c :: c in children ==> c.Key() in keys || (i == 0 && c.Key() == root.Key())
  }

  /** The keys of the components below the root that the first components, up to i, applied. */
  ghost function KeysUpTo(all: seq<Component>, i: nat): set<string> {
    set j | 0 < j < |all| && all[j].parent.Some? && all[j].parent.value <= i :: all[j].Key()
  }

  /** What component i applied when it was rendered is to be found in all, as
      something that i itself or an earlier component applied. */
  ghost predicate Expanded(root: Component, render: Renderer, cs: seq<Component>, all: seq<Component>, i: nat) {
    exists n: nat :: RenderedAt(cs, n, i) && Taken(root, render(cs[..n], i), i, KeysUpTo(all, i))
  }

  /** x is the first in the list with its key. */
  ghost predicate IsChild(children: seq<Component>, i: nat, x: Component) {
    exists m :: 0 <= m < |children| && x == Adopt(children[m], i) && FirstOfKey(children, m)
  }

  ghost predicate FirstOfKey(children: seq<Component>, m: nat)
    requires m < |children|
  {
    forall k :: 0 <= k < m ==> children[k].Key() != children[m].Key()
  }

  /** Every component below the root was applied by one of the first n. */
  ghost predicate ParentsBelow(all: seq<Component>, n: nat) {
    forall j :: 0 < j < |all| ==> all[j].parent.Some? && all[j].parent.value < n
  }

  lemma KeysAreUpTo(root: Component, all: seq<Component>, byKey: map<string, nat>, i: nat)
    requires SoFar(root, all, byKey) && ParentsBelow(all, i + 1)
    ensures byKey.Keys == KeysUpTo(all, i)
  {
    hide KeyFor;
    forall k | k in byKey ensures k in KeysUpTo(all, i) { assert all[byKey[k]].Key() == k; }
  }

  lemma MoreKeys(all: seq<Component>, more: seq<Component>, i: nat)
    ensures KeysUpTo(all, i) <= KeysUpTo(all + more, i)
  {
    hide KeyFor;
    forall k | k in KeysUpTo(all, i) ensures k in KeysUpTo(all + more, i) {
      var j :| 0 < j < |all| && all[j].parent.Some? && all[j].parent.value <= i && all[j].Key() == k;
      assert (all + more)[j] == all[j];
    }
  }

  /** x is something that its parent applied when it was rendered. */
  ghost predicate Applied(render: Renderer, cs: seq<Component>, x: Component) {
    x.parent.Some? && exists n: nat ::
      RenderedAt(cs, n, x.parent.value) && IsChild(render(cs[..n], x.parent.value), x.parent.value, x)
  }

  lemma Longer(root: Component, render: Renderer, cs: seq<Component>, more: seq<Component>, all: seq<Component>)
    requires Deeper(cs, more)
    ensures forall i: nat :: Expanded(root, render, cs, all, i) ==> Expanded(root, render, cs + more, all, i)
    ensures forall x :: Applied(render, cs, x) ==> Applied(render, cs + more, x)
  {
    hide Deeper, Depth, Taken, IsChild, KeysUpTo;
    forall i: nat | Expanded(root, render, cs, all, i) ensures Expanded(root, render, cs + more, all, i) {
      var n: nat :| RenderedAt(cs, n, i) && Taken(root, render(cs[..n], i), i, KeysUpTo(all, i));
      MomentStays(cs, more, n, i);
    }
    forall x | Applied(render, cs, x) ensures Applied(render, cs + more, x) {
      var p := x.parent.value;
      var n: nat :| RenderedAt(cs, n, p) && IsChild(render(cs[..n], p), p, x);
      MomentStays(cs, more, n, p);
    }
  }

  lemma MoreFound(root: Component, render: Renderer, cs: seq<Component>, all: seq<Component>, all': seq<Component>)
    requires all <= all'
    ensures forall i: nat :: Expanded(root, render, cs, all, i) ==> Expanded(root, render, cs, all', i)
  {
    hide Depth, KeysUpTo;
    var more := all'[|all|..];
    assert all' == all + more;
    forall i: nat | Expanded(root, render, cs, all, i) ensures Expanded(root, render, cs, all', i) {
      var n: nat :| RenderedAt(cs, n, i) && Taken(root, render(cs[..n], i), i, KeysUpTo(all, i));
      MoreKeys(all, more, i);
      assert Taken(root, render(cs[..n], i), i, KeysUpTo(all', i));
    }
  }

  /** The level being rendered starts at start and is the last one. */
  ghost predicate LastLevel(cs: seq<Component>, start: nat, d: nat) {
    && start <= |cs|
    && (forall i :: 0 <= i < start ==> Depth(cs, i) < d)
    && (forall i :: start <= i < |cs| ==> Depth(cs, i) == d)
  }

  /** Component i of the last level has just been rendered and its children taken in. */
  lemma JustRendered(root: Component, render: Renderer, cs: seq<Component>, start: nat, d: nat,
                     byKey: map<string, nat>, level: seq<Component>, next: seq<Component>, i: nat)
    requires LastLevel(cs, start, d) && start <= i < |cs| && Taken(root, render(cs, i), i, byKey.Keys)
    requires SoFar(root, cs + next, byKey) && ParentsBelow(cs + next, i + 1)
    requires forall x :: x in level ==> Applied(render, cs, x)
    requires forall x :: x in next ==> x in level || IsChild(render(cs, i), i, x)
    ensures Expanded(root, render, cs, cs + next, i)
    ensures forall x :: x in next ==> Applied(render, cs, x)
  {
    hide Depth, Taken, SoFar, KeysUpTo, FirstOfKey;
    KeysAreUpTo(root, cs + next, byKey, i);
    assert RenderedAt(cs, |cs|, i) && cs[..|cs|] == cs;
  }

  /** A complete discovery: a tree with the root first and parents before
      children, whose keys below the root are distinct and found under byKey
      unless the root's own key hides them. No child of the root has the root's
      key. Every component below the root was applied by its parent when that
      was rendered, as the first of its list with its key, and all that any
      component applied then is in the tree below itself or an earlier one, the
      root's own object among its children apart: so the first to apply a key has it. */
  ghost predicate Discovered(root: Component, render: Renderer, cs: seq<Component>, byKey: map<string, nat>) {
    && Rooted(cs) && cs[0] == root && WellFormed(Tree(cs, byKey))
    && root.Key() in byKey && byKey[root.Key()] == 0
    && (forall i :: 0 < i < |cs| && cs[i].Key() != root.Key() ==> cs[i].Key() in byKey && byKey[cs[i].Key()] == i)
    && (forall k :: k in byKey ==> cs[byKey[k]].Key() == k)
    && (forall i :: 0 < i < |cs| && cs[i].parent == Some(0) ==> cs[i].Key() != root.Key())
    && (forall i :: 0 <= i < |cs| ==> Expanded(root, render, cs, cs, i))
    && (forall i :: 0 < i < |cs| ==> Applied(render, cs, cs[i]))
  }

  /** The state between levels: cs is rendered, level, at depth d, is found but not yet rendered. */
  ghost predicate Between(root: Component, render: Renderer, cs: seq<Component>, level: seq<Component>,
                          byKey: map<string, nat>, d: nat) {
    && SoFar(root, cs + level, byKey) && LastLevel(cs + level, |cs|, d) && ParentsBelow(cs + level, |cs|)
    && (forall i :: 0 <= i < |cs| ==> Expanded(root, render, cs, cs + level, i))
    && (forall i :: 0 < i < |cs| ==> Applied(render, cs, cs[i]))
    && (if cs == [] then level == [root] else forall x :: x in level ==> Applied(render, cs, x))
  }

  lemma Begun(root: Component, render: Renderer)
    requires root.parent.None?
    ensures Between(root, render, [], [root], map[], 0)
  {
    assert [] + [root] == [root];
  }

  /** Children of the last level make up the next one. */
  lemma NextDepth(cs: seq<Component>, start: nat, d: nat, level: seq<Component>)
    requires LastLevel(cs, start, d)
    requires forall x :: x in level ==> x.parent.Some? && start <= x.parent.value < |cs|
    ensures LastLevel(cs + level, |cs|, d + 1)
  {
    forall i: nat | i < |cs| ensures Depth(cs + level, i) == Depth(cs, i) { DepthStays(cs, level, i); }
    forall i | |cs| <= i < |cs + level| ensures Depth(cs + level, i) == d + 1 {
      assert (cs + level)[i] in level;
    }
  }

  lemma NextLevel(root: Component, render: Renderer, cs: seq<Component>, start: nat, d: nat, level: seq<Component>,
                  byKey: map<string, nat>)
    requires SoFar(root, cs + level, byKey) && cs != [] && LastLevel(cs, start, d) && ParentsBelow(cs + level, |cs|)
    requires forall i :: 0 <= i < |cs| ==> Expanded(root, render, cs, cs + level, i)
    requires forall i :: 0 < i < |cs| ==> Applied(render, cs, cs[i])
    requires forall x :: x in level ==> Applied(render, cs, x)
    requires forall x :: x in level ==> x.parent.Some? && start <= x.parent.value < |cs|
    ensures Between(root, render, cs, level, byKey, d + 1)
  {
    hide SoFar, Expanded, Applied, LastLevel, ParentsBelow;
    NextDepth(cs, start, d, level);
  }

  lemma LastIsDeeper(cs: seq<Component>, level: seq<Component>, d: nat)
    requires LastLevel(cs + level, |cs|, d)
    ensures Deeper(cs, level)
  {
    forall i: nat | i < |cs| ensures Depth(cs + level, i) == Depth(cs, i) { DepthStays(cs, level, i); }
  }

  lemma Shift(root: Component, render: Renderer, cs: seq<Component>, level: seq<Component>, byKey: map<string, nat>,
              d: nat)
    requires Between(root, render, cs, level, byKey, d)
    ensures SoFar(root, cs + level, byKey) && LastLevel(cs + level, |cs|, d) && ParentsBelow(cs + level, |cs|)
    ensures forall i :: 0 <= i < |cs| ==> Expanded(root, render, cs + level, cs + level, i)
    ensures forall i :: 0 < i < |cs + level| ==> Applied(render, cs + level, (cs + level)[i])
  {
    hide KeyFor, SoFar, Expanded, Applied, LastLevel, Deeper, ParentsBelow;
    LastIsDeeper(cs, level, d);
    Longer(root, render, cs, level, cs + level);
  }

  lemma Finished(root: Component, render: Renderer, cs: seq<Component>, byKey: map<string, nat>, d: nat)
    requires Between(root, render, cs, [], byKey, d) && root.isRoot && root.parent.None?
    ensures Discovered(root, render, cs, byKey[root.Key() := 0])
  {
    hide KeyFor, Expanded, Applied, LastLevel;
    assert cs + [] == cs;
  }

  /** Component i applies, when it is rendered, something under the root's key. */
  ghost predicate AppliesRootKey(root: Component, render: Renderer, cs: seq<Component>, i: nat) {
    exists n: nat, c :: RenderedAt(cs, n, i) && c in render(cs[..n], i) && c.Key() == root.Key()
  }

  /** The first to apply a key has it: nothing that an earlier component applied has the key of a later one's child. */
  lemma FirstWins(root: Component, render: Renderer, cs: seq<Component>, byKey: map<string, nat>, i: nat, n: nat,
                  c: Component, j: nat)
    requires Discovered(root, render, cs, byKey) && 0 < j < |cs| && i < cs[j].parent.value
    requires RenderedAt(cs, n, i) && c in render(cs[..n], i) && (i != 0 || c.Key() != root.Key())
    ensures c.Key() != cs[j].Key()
  {
    hide KeyFor, Depth, WellFormed, Applied;
    assert Expanded(root, render, cs, cs, i);
    var m: nat :| RenderedAt(cs, m, i) && Taken(root, render(cs[..m], i), i, KeysUpTo(cs, i));
    OneMoment(cs, m, n, i);
    assert c.Key() in KeysUpTo(cs, i);
    var k :| 0 < k < |cs| && cs[k].parent.Some? && cs[k].parent.value <= i && cs[k].Key() == c.Key();
  }

  /** Whatever a component below the root applies is found as a component below the root. */
  lemma AppliedIsFound(root: Component, render: Renderer, cs: seq<Component>, byKey: map<string, nat>, i: nat)
    returns (j: nat)
    requires Discovered(root, render, cs, byKey) && 0 < i < |cs| && AppliesRootKey(root, render, cs, i)
    ensures 0 < j < |cs| && cs[j].Key() == root.Key()
  {
    hide KeyFor, Depth, Rooted, WellFormed, Applied;
    var m: nat, c :| RenderedAt(cs, m, i) && c in render(cs[..m], i) && c.Key() == root.Key();
    assert Expanded(root, render, cs, cs, i);
    var n: nat :| RenderedAt(cs, n, i) && Taken(root, render(cs[..n], i), i, KeysUpTo(cs, i));
    OneMoment(cs, m, n, i);
    j :| 0 < j < |cs| && cs[j].parent.Some? && cs[j].parent.value <= i && cs[j].Key() == root.Key();
  }

  /** Whatever has the root's key was applied by a component below the root. */
  lemma FoundIsApplied(root: Component, render: Renderer, cs: seq<Component>, byKey: map<string, nat>, j: nat)
    returns (p: nat)
    requires Discovered(root, render, cs, byKey) && 0 < j < |cs| && cs[j].Key() == root.Key()
    ensures 0 < p < |cs| && AppliesRootKey(root, render, cs, p)
  {
    hide KeyFor, Depth, WellFormed, Expanded;
    assert Applied(render, cs, cs[j]);
    p := cs[j].parent.value;
    var n: nat :| RenderedAt(cs, n, p) && IsChild(render(cs[..n], p), p, cs[j]);
    var m :| 0 <= m < |render(cs[..n], p)| && cs[j] == Adopt(render(cs[..n], p)[m], p);
    assert render(cs[..n], p)[m].Key() == cs[j].Key();
  }

  /** Lookup by key is exact if and only if nothing but the root itself applies
      something under the root's key: only there is the root's own object skipped. */
  lemma KeysUniqueExact(root: Component, render: Renderer, cs: seq<Component>, byKey: map<string, nat>)
    requires Discovered(root, render, cs, byKey)
    ensures UniqueKeys(Tree(cs, byKey)) <==> forall i :: 0 < i < |cs| ==> !AppliesRootKey(root, render, cs, i)
  {
    hide KeyFor, Expanded, Applied, AppliesRootKey;
    if i :| 0 < i < |cs| && AppliesRootKey(root, render, cs, i) {
      var j := AppliedIsFound(root, render, cs, byKey, i);
      assert byKey[cs[j].Key()] == 0;
    }
    if j :| 0 < j < |cs| && cs[j].Key() == root.Key() {
      var p := FoundIsApplied(root, render, cs, byKey, j);
    }
  }

  // An example: the root applies "n/c", and that applies something under the root's key "n/r".
  const TOP := Component("", "n", "r", true, None, [], false, false, 0, 0, false, 0)
  const CHILD := TOP.(name := "c", isRoot := false, parent := Some(0))
  const AGAIN := TOP.(isRoot := false, parent := Some(1))
  const NESTED: Renderer := (cs, i) => if i == 0 then [CHILD] else if i == 1 then [AGAIN] else []

  lemma NestedMoments()
    ensures var cs := [TOP, CHILD, AGAIN]; RenderedAt(cs, 1, 0) && RenderedAt(cs, 2, 1) && RenderedAt(cs, 3, 2)
  {
    var cs := [TOP, CHILD, AGAIN];
    assert Depth(cs, 0) == 0;
    assert Depth(cs, 1) == 1;
    assert Depth(cs, 2) == 2;
  }

  lemma NestedRelations()
    ensures var cs := [TOP, CHILD, AGAIN];
      && (forall i :: 0 <= i < 3 ==> Expanded(TOP, NESTED, cs, cs, i))
      && Applied(NESTED, cs, CHILD) && Applied(NESTED, cs, AGAIN)
  {
    hide RenderedAt;
    var cs := [TOP, CHILD, AGAIN];
    NestedMoments();
    assert CHILD.Key() == "n/c" && AGAIN.Key() == "n/r";
    assert cs[1].Key() in KeysUpTo(cs, 0) && cs[2].Key() in KeysUpTo(cs, 1);
    assert NESTED(cs[..1], 0)[0] == CHILD && NESTED(cs[..2], 1)[0] == AGAIN;
    assert CHILD == Adopt(CHILD, 0) && AGAIN == Adopt(AGAIN, 1);
    assert IsChild(NESTED(cs[..1], 0), 0, CHILD) && IsChild(NESTED(cs[..2], 1), 1, AGAIN);
    forall i | 0 <= i < 3 ensures Expanded(TOP, NESTED, cs, cs, i) {
      assert Taken(TOP, NESTED(cs[..i + 1], i), i, KeysUpTo(cs, i));
    }
  }

  /** Below the first level the root's key is not skipped: the component enters
      the tree, and a lookup under its key finds the root instead. */
  lemma RootKeyAgain()
    ensures var cs, byKey := [TOP, CHILD, AGAIN], map["n/r" := 0, "n/c" := 1];
      Discovered(TOP, NESTED, cs, byKey) && byKey[cs[2].Key()] == 0 && !UniqueKeys(Tree(cs, byKey))
  {
    hide Expanded, Applied;
    var cs := [TOP, CHILD, AGAIN];
    NestedRelations();
    assert TOP.Key() == "n/r" && CHILD.Key() == "n/c" && AGAIN.Key() == "n/r" && "n/r"[2] != "n/c"[2];
    assert cs[1] == CHILD && cs[2] == AGAIN;
  }

  /** What is not taken in yet is the first of its key. */
  lemma FirstHere(root: Component, children: seq<Component>, m: nat, i: nat, keys: set<string>)
    requires m < |children| && Taken(root, children[..m], i, keys)
    requires children[m].Key() !in keys && !(i == 0 && children[m].Key() == root.Key())
    ensures IsChild(children, i, Adopt(children[m], i))
  {
    hide KeyFor;
    forall k | 0 <= k < m ensures children[k].Key() != children[m].Key() {
      assert children[..m][k] in children[..m];
    }
    assert FirstOfKey(children, m);
  }

  class TreeBuilder {
    var components: seq<Component>
    var byKey: map<string, nat>

    constructor ()
      ensures components == [] && byKey == map[]
    {
      components, byKey := [], map[];
    }

    /** Take in what component i applies, but not the root again under the root itself, and no key twice. */
    method AddChildren(root: Component, children: seq<Component>, i: nat, level: seq<Component>,
                       ghost keys: set<string>)
      returns (next: seq<Component>)
      requires SoFar(root, components + level, byKey) && i < |components| && byKey.Keys <= keys
      requires forall c :: c in children ==> c.Key() in keys
      modifies this`byKey
      ensures SoFar(root, components + next, byKey) && old(byKey.Keys) <= byKey.Keys <= keys
      ensures byKey.Keys == old(byKey.Keys) ==> next == level
      ensures level <= next && forall x :: x in next ==> x in level || IsChild(children, i, x)
      ensures Taken(root, children, i, byKey.Keys)
    {
      hide KeyFor, SoFar;
      next := level;
      for j := 0 to |children|
        invariant SoFar(root, components + next, byKey) && old(byKey.Keys) <= byKey.Keys <= keys
        invariant byKey.Keys == old(byKey.Keys) ==> next == level
        invariant level <= next && forall x :: x in next ==> x in level || IsChild(children, i, x)
        invariant Taken(root, children[..j], i, byKey.Keys)
      {
        var child := Adopt(children[j], i);
        assert children[j] in children && child.Key() == children[j].Key();
        assert children[..j + 1] == children[..j] + [children[j]];
        if (i == 0 && child.Key() == root.Key()) || child.Key() in byKey {
          continue;
        }
        FirstHere(root, children, j, i, byKey.Keys);
        Found(root, components + next, byKey, child);
        byKey := byKey[child.Key() := |components| + |next|];
        assert components + next + [child] == components + (next + [child]);
        next := next + [child];
      }
      assert children[..|children|] == children;
    }

    /** Render every component from position start on, which are the last level, and collect the next one. */
    method RenderFrom(root: Component, render: Renderer, start: nat, ghost d: nat, ghost keys: set<string>)
      returns (level: seq<Component>)
      requires SoFar(root, components, byKey) && byKey.Keys <= keys
      requires forall cs, i, c :: c in render(cs, i) ==> c.Key() in keys
      requires LastLevel(components, start, d)
      requires ParentsBelow(components, start)
      requires forall j :: 0 <= j < start ==> Expanded(root, render, components, components, j)
      modifies this`byKey
      ensures SoFar(root, components + level, byKey) && old(byKey.Keys) <= byKey.Keys <= keys
      ensures byKey.Keys == old(byKey.Keys) ==> level == []
      ensures ParentsBelow(components + level, |components|)
      ensures forall j :: 0 <= j < |components| ==> Expanded(root, render, components, components + level, j)
      ensures forall x :: x in level ==> Applied(render, components, x)
      ensures forall x :: x in level ==> x.parent.Some? && start <= x.parent.value < |components|
    {
      hide KeyFor, SoFar, Expanded, Applied, LastLevel, Taken, IsChild;
      level := [];
      assert components + [] == components;
      assert start <= |components| by { StartInside(components, start, d); }
      for i := start to |components|
        invariant SoFar(root, components + level, byKey) && old(byKey.Keys) <= byKey.Keys <= keys
        invariant byKey.Keys == old(byKey.Keys) ==> level == []
        invariant ParentsBelow(components + level, i)
        invariant forall j :: 0 <= j < i ==> Expanded(root, render, components, components + level, j)
        invariant forall x :: x in level ==> Applied(render, components, x)
        invariant forall x :: x in level ==> x.parent.Some? && start <= x.parent.value < |components|
      {
        ghost var level0 := level;
        level := AddChildren(root, render(components, i), i, level, keys);
        ParentsNext(components, level0, level, render(components, i), i);
        MoreFound(root, render, components, components + level0, components + level);
        JustRendered(root, render, components, start, d, byKey, level0, level, i);
      }
    }

    /** Everything reachable from the root. It ends whenever only finitely many keys can occur. */
    method Discover(root: Component, render: Renderer, ghost keys: set<string>)
      requires root.isRoot && root.parent.None?
      requires forall cs, i, c :: c in render(cs, i) ==> c.Key() in keys
      requires components == [] && byKey == map[]
      modifies this
      ensures Discovered(root, render, components, byKey)
    {
      hide KeyFor, SoFar, Expanded, Applied, Discovered, Between, LastLevel, ParentsBelow;
      var level := [root];
      ghost var d := 0;
      Begun(root, render);
      while level != []
        invariant Between(root, render, components, level, byKey, d) && byKey.Keys <= keys
        decreases |keys - byKey.Keys|, |level|
      {
        ghost var before := byKey.Keys;
        var start := |components|;
        Shift(root, render, components, level, byKey, d);
        components := components + level;
        level := RenderFrom(root, render, start, d, keys);
        NextLevel(root, render, components, start, d, level, byKey);
        d := d + 1;
        if byKey.Keys != before { SmallerRest(keys, before, byKey.Keys); }
      }
      Finished(root, render, components, byKey, d);
      byKey := byKey[root.Key() := 0];
    }
  }

  lemma ParentsNext(cs: seq<Component>, level: seq<Component>, next: seq<Component>, children: seq<Component>, i: nat)
    requires ParentsBelow(cs + level, i) && cs != []
    requires forall x :: x in next ==> x in level || IsChild(children, i, x)
    ensures ParentsBelow(cs + next, i + 1)
    ensures forall x :: x in next && x !in level ==> x.parent == Some(i)
  {
    forall j | 0 < j < |cs + next| ensures (cs + next)[j].parent.Some? && (cs + next)[j].parent.value < i + 1 {
      var x := (cs + next)[j];
      if j < |cs| {
        assert (cs + level)[j] == x;
      } else {
        assert x in next;
        if x in level {
          var k :| 0 <= k < |level| && level[k] == x;
          assert (cs + level)[|cs| + k] == x;
        }
      }
    }
  }

  lemma StartInside(cs: seq<Component>, start: nat, d: nat)
    requires LastLevel(cs, start, d)
    ensures start <= |cs|
  {
  }
}
