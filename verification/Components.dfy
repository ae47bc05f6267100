/** Components, their keys and names, and the tree they form. A component is
    identified by its position in the tree's list. */
module Components {
  import opened Options

  datatype Ref = Ref(kind: string, namespace: string, name: string)

  const HELM_RELEASE := "HelmRelease"

  function KeyFor(kind: string, namespace: string, name: string): string {
    if kind == HELM_RELEASE then HELM_RELEASE + "/" + namespace + "/" + name
    else namespace + "/" + name
  }

  lemma SplitAtSlash(a: string, ra: string, b: string, rb: string)
    requires '/' !in a && '/' !in b && a + "/" + ra == b + "/" + rb
    ensures a == b && ra == rb
  {
    var s := a + "/" + ra;
    assert forall i :: 0 <= i < |a| ==> s[i] == a[i];
    assert forall i :: 0 <= i < |b| ==> s[i] == b[i];
    assert s[|a|] == '/' && s[|b|] == '/';
    assert |a| == |b|;
    assert a == s[..|a|] && b == s[..|b|] && ra == s[|a| + 1..] && rb == s[|b| + 1..];
  }

  /** Keys tell components apart: a release from a Kustomization of the same
      name, and any two namespaces or names, none of which may hold a slash. */
  lemma KeysIdentify(kind1: string, ns1: string, name1: string, kind2: string, ns2: string, name2: string)
    requires '/' !in ns1 && '/' !in name1 && '/' !in ns2 && '/' !in name2
    requires KeyFor(kind1, ns1, name1) == KeyFor(kind2, ns2, name2)
    ensures ns1 == ns2 && name1 == name2 && (kind1 == HELM_RELEASE <==> kind2 == HELM_RELEASE)
  {
    var h := HELM_RELEASE;
    assert '/' !in h;
    var r1, r2 := ns1 + "/" + name1, ns2 + "/" + name2;
    assert r1[|ns1|] == '/' && r2[|ns2|] == '/';
    assert h + "/" + ns1 + "/" + name1 == h + "/" + r1;
    assert h + "/" + ns2 + "/" + name2 == h + "/" + r2;
    if kind1 == h && kind2 == h {
      SplitAtSlash(h, r1, h, r2);
      SplitAtSlash(ns1, name1, ns2, name2);
    } else if kind1 == h {
      SplitAtSlash(h, r1, ns2, name2);
    } else if kind2 == h {
      SplitAtSlash(ns1, name1, h, r2);
    } else {
      SplitAtSlash(ns1, name1, ns2, name2);
    }
  }

  datatype Component = Component(
    kind: string, namespace: string, name: string, isRoot: bool, parent: Option<nat>,
    dependsOn: seq<Ref>, wait: bool, health: bool,
    interval: int, timeout: int, hasTimeout: bool, retries: int)
  {
    function Key(): string { KeyFor(kind, namespace, name) }
    function DepKey(d: Ref): string { KeyFor(kind, d.namespace, d.name) }
    predicate IsHelmRelease() { kind == HELM_RELEASE }
    function String(): string { if isRoot then name else Key() }
    predicate BlocksOnHealth() { wait || health }
  }

  /** A dependency's key is the key of just the component of the depending one's
      own kind that has that namespace and name, where none of them holds a slash. */
  lemma DepKeyFinds(c: Component, d: Ref, x: Component)
    requires '/' !in d.namespace && '/' !in d.name && '/' !in x.namespace && '/' !in x.name
    ensures x.Key() == c.DepKey(d)
       <==> x.namespace == d.namespace && x.name == d.name && (x.kind == HELM_RELEASE <==> c.kind == HELM_RELEASE)
  {
    if x.Key() == c.DepKey(d) { KeysIdentify(x.kind, x.namespace, x.name, c.kind, d.namespace, d.name); }
  }

  datatype Tree = Tree(components: seq<Component>, byKey: map<string, nat>)

  /** Parents come before their children and lookups stay inside the list. */
  ghost predicate WellFormed(t: Tree) {
    && ParentsFirst(t.components)
    && (forall k :: k in t.byKey ==> t.byKey[k] < |t.components|)
  }

  ghost predicate ParentsFirst(cs: seq<Component>) {
    forall i :: 0 <= i < |cs| && cs[i].parent.Some? ==> cs[i].parent.value < i
  }

  /** Every component is found under its own key, and under no other. */
  ghost predicate UniqueKeys(t: Tree) {
    && (forall i :: 0 <= i < |t.components| ==> t.components[i].Key() in t.byKey && t.byKey[t.components[i].Key()] == i)
    && (forall k :: k in t.byKey ==> t.byKey[k] < |t.components| && t.components[t.byKey[k]].Key() == k)
  }

  /** What discovery produces: one root, which is first, and below it components with distinct keys. */
  ghost predicate Rooted(cs: seq<Component>) {
    && |cs| > 0 && ParentsFirst(cs)
    && (forall i :: 0 <= i < |cs| ==> (cs[i].isRoot <==> i == 0) && (cs[i].parent.None? <==> i == 0))
    && (forall i, j :: 0 < i < j < |cs| ==> cs[i].Key() != cs[j].Key())
  }

  /** root is x, its parent, its grandparent, ... */
  ghost predicate Above(cs: seq<Component>, root: nat, x: nat)
    requires ParentsFirst(cs) && x < |cs|
    decreases x
  {
    x == root || (cs[x].parent.Some? && Above(cs, root, cs[x].parent.value))
  }

  /** The walk up the parents: it ends, and it finds exactly the ancestors and x itself. */
  method Within(cs: seq<Component>, c: nat, root: nat) returns (r: bool)
    requires ParentsFirst(cs) && c < |cs|
    ensures r <==> Above(cs, root, c)
  {
    var x: Option<nat> := Some(c);
    while x.Some?
      invariant x.Some? ==> x.value < |cs| && (Above(cs, root, c) <==> Above(cs, root, x.value))
      invariant x.None? ==> !Above(cs, root, c)
      decreases if x.Some? then x.value + 1 else 0
    {
      if x.value == root { return true; }
      x := cs[x.value].parent;
    }
    return false;
  }

  /** Containment is a partial order. */
  lemma {:induction false} AboveIsOrder(cs: seq<Component>, a: nat, b: nat, c: nat)
    requires ParentsFirst(cs) && b < |cs| && c < |cs|
    ensures Above(cs, c, c)
    ensures Above(cs, a, b) && Above(cs, b, c) ==> Above(cs, a, c)
    ensures Above(cs, b, c) && Above(cs, c, b) ==> b == c
    ensures Above(cs, b, c) ==> b <= c
    decreases c
  {
    if c != b && cs[c].parent.Some? { AboveIsOrder(cs, a, b, cs[c].parent.value); }
    if Above(cs, c, b) { AboveBelow(cs, c, b); }
  }

  lemma {:induction false} AboveBelow(cs: seq<Component>, root: nat, x: nat)
    requires ParentsFirst(cs) && x < |cs| && Above(cs, root, x)
    ensures root <= x
    decreases x
  {
    if x != root { AboveBelow(cs, root, cs[x].parent.value); }
  }

  lemma {:induction false} RootAboveAll(cs: seq<Component>, x: nat)
    requires Rooted(cs) && x < |cs|
    ensures Above(cs, 0, x)
    decreases x
  {
    if x != 0 { RootAboveAll(cs, cs[x].parent.value); }
  }
}
