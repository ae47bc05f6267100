/** Label selectors and admission webhooks evaluated on what Git knows: a label
    that Git does not set may still be set at runtime, so the answer has three values. */
module Selectors {
  import opened Options

  type Labels = map<string, string>

  datatype Requirement = Requirement(key: string, op: string, values: seq<string>)

  datatype Selector = Selector(matchLabels: map<string, string>, matchExpressions: seq<Requirement>)

  function Lookup(l: Labels, k: string): Option<string> {
    if k in l then Some(l[k]) else None
  }

  function OrEmpty(o: Option<string>): string {
    if o.Some? then o.value else ""
  }

  /** One requirement on one key, given the label's value or its absence. An operator it does not know holds. */
  predicate HoldsAt(e: Requirement, o: Option<string>) {
    if e.op == "In" then o.Some? && o.value in e.values
    else if e.op == "NotIn" then o.None? || o.value !in e.values
    else if e.op == "Exists" then o.Some?
    else if e.op == "DoesNotExist" then o.None?
    else true
  }

  /** The selector as the code evaluates it: an absent label reads as "". */
  ghost predicate Holds(s: Selector, l: Labels) {
    && (forall k :: k in s.matchLabels ==> OrEmpty(Lookup(l, k)) == s.matchLabels[k])
    && (forall i :: 0 <= i < |s.matchExpressions| ==>
          HoldsAt(s.matchExpressions[i], Lookup(l, s.matchExpressions[i].key)))
  }

  /** The selector as the API defines it: a matchLabels entry asks for the label to be there. */
  ghost predicate ApiHolds(s: Selector, l: Labels) {
    && (forall k :: k in s.matchLabels ==> Lookup(l, k) == Some(s.matchLabels[k]))
    && (forall i :: 0 <= i < |s.matchExpressions| ==>
          HoldsAt(s.matchExpressions[i], Lookup(l, s.matchExpressions[i].key)))
  }

  /** The selector in the API's reading or in the code's. */
  ghost predicate Matches(api: bool, s: Selector, l: Labels) {
    if api then ApiHolds(s, l) else Holds(s, l)
  }

  method SelectorMatches(s: Selector, l: Labels) returns (r: bool)
    ensures r <==> Holds(s, l)
  {
    var left := s.matchLabels.Keys;
    while left != {}
      invariant left <= s.matchLabels.Keys
      invariant forall k :: k in s.matchLabels.Keys - left ==> OrEmpty(Lookup(l, k)) == s.matchLabels[k]
      decreases left
    {
      var k :| k in left;
      left := left - {k};
      if OrEmpty(Lookup(l, k)) != s.matchLabels[k] { return false; }
    }
    for i := 0 to |s.matchExpressions|
      invariant forall j :: 0 <= j < i ==> HoldsAt(s.matchExpressions[j], Lookup(l, s.matchExpressions[j].key))
    {
      var e := s.matchExpressions[i];
      var val := Lookup(l, e.key);
      var hit := false;
      for j := 0 to |e.values|
        invariant hit <==> OrEmpty(val) in e.values[..j]
      {
        assert e.values[..j + 1] == e.values[..j] + [e.values[j]];
        hit := hit || e.values[j] == OrEmpty(val);
      }
      assert e.values[..|e.values|] == e.values;
      if e.op == "In" {
        if val.None? || !hit { return false; }
      } else if e.op == "NotIn" {
        if val.Some? && hit { return false; }
      } else if e.op == "Exists" {
        if val.None? { return false; }
      } else if e.op == "DoesNotExist" {
        if val.Some? { return false; }
      }
    }
    return true;
  }

  /** Every label that the selector asks to be empty is there. */
  predicate EmptiesSet(s: Selector, l: Labels) {
    forall k :: k in s.matchLabels && s.matchLabels[k] == "" ==> k in l
  }

  /** The code and the API disagree exactly where the code says yes although
      matchLabels asks for an empty value under a key that is not there. */
  lemma ApiDifference(s: Selector, l: Labels)
    ensures ApiHolds(s, l) <==> Holds(s, l) && EmptiesSet(s, l)
  {
    if Holds(s, l) && EmptiesSet(s, l) {
      forall k | k in s.matchLabels ensures Lookup(l, k) == Some(s.matchLabels[k]) {
        assert OrEmpty(Lookup(l, k)) == s.matchLabels[k];
      }
    }
  }

  /** An empty value is asked for and the label is not there: the code says yes, the API no. */
  lemma EmptyValueDiffers()
    ensures var s := Selector(map["k" := ""], []); Holds(s, map[]) && !ApiHolds(s, map[])
  {
    assert "k" in map["k" := ""];
  }

  // ---- three values -----------------------------------------------------------------

  datatype Verdict = Passes | Maybe | Intercepts

  function Least(a: Verdict, b: Verdict): Verdict {
    if a.Passes? || b.Passes? then Passes else if a.Maybe? || b.Maybe? then Maybe else Intercepts
  }

  predicate Unknowable(e: Requirement, l: Labels) {
    e.key !in l && (e.op == "In" || e.op == "Exists")
  }

  function Knowable(es: seq<Requirement>, l: Labels): seq<Requirement> {
    if es == [] then []
    else Knowable(es[..|es| - 1], l) + if Unknowable(es[|es| - 1], l) then [] else [es[|es| - 1]]
  }

  /** What is left of a selector without the requirements that Git cannot decide. */
  function Known(s: Selector, l: Labels): Selector {
    Selector(map k | k in s.matchLabels && k in l :: s.matchLabels[k], Knowable(s.matchExpressions, l))
  }

  method Selects(s: Selector, l: Labels) returns (v: Verdict)
    ensures v.Intercepts? <==> Holds(s, l)
    ensures v.Passes? <==> !Holds(s, l) && !Holds(Known(s, l), l)
  {
    hide Holds;
    var now := SelectorMatches(s, l);
    if now { return Intercepts; }
    var exprs: seq<Requirement> := [];
    for i := 0 to |s.matchExpressions|
      invariant exprs == Knowable(s.matchExpressions[..i], l)
    {
      var e := s.matchExpressions[i];
      assert s.matchExpressions[..i + 1][..i] == s.matchExpressions[..i];
      if !Unknowable(e, l) { exprs := exprs + [e]; }
    }
    assert s.matchExpressions[..|s.matchExpressions|] == s.matchExpressions;
    var known := SelectorMatches(Selector(map k | k in s.matchLabels && k in l :: s.matchLabels[k], exprs), l);
    return if known then Maybe else Passes;
  }

  /** l' keeps every label of l; keys that l leaves unset are free. */
  ghost predicate Extends(l: Labels, l': Labels) {
    forall k :: k in l ==> k in l' && l'[k] == l[k]
  }

  lemma {:induction false} KnowableExact(es: seq<Requirement>, l: Labels, e: Requirement)
    ensures e in Knowable(es, l) <==> e in es && !Unknowable(e, l)
  {
    if es != [] {
      KnowableExact(es[..|es| - 1], l, e);
      assert es == es[..|es| - 1] + [es[|es| - 1]];
    }
  }

  /** Whatever holds of some extension, its decidable part holds of Git's labels. */
  lemma KnownIsNecessary(s: Selector, l: Labels, l': Labels)
    requires Extends(l, l') && Holds(s, l')
    ensures Holds(Known(s, l), l)
  {
    var known := Known(s, l);
    forall i | 0 <= i < |known.matchExpressions|
      ensures HoldsAt(known.matchExpressions[i], Lookup(l, known.matchExpressions[i].key))
    {
      var e := known.matchExpressions[i];
      KnowableExact(s.matchExpressions, l, e);
      assert e in known.matchExpressions;
      var j :| 0 <= j < |s.matchExpressions| && s.matchExpressions[j] == e;
      assert HoldsAt(e, Lookup(l', e.key));
    }
    forall k | k in known.matchLabels ensures OrEmpty(Lookup(l, k)) == known.matchLabels[k] {
      assert OrEmpty(Lookup(l', k)) == s.matchLabels[k];
    }
  }

  /** All that the selector asks of one key. */
  predicate KeyHolds(s: Selector, k: string, o: Option<string>) {
    && (k in s.matchLabels ==> OrEmpty(o) == s.matchLabels[k])
    && (forall i :: 0 <= i < |s.matchExpressions| && s.matchExpressions[i].key == k ==>
          HoldsAt(s.matchExpressions[i], o))
  }

  /** What the selector asks of one key can be met, by some value or by absence. */
  ghost predicate KeyPossible(s: Selector, k: string) {
    exists o :: KeyHolds(s, k, o)
  }

  /** The values listed for a key. */
  function Listed(s: Selector, k: string): set<string> {
    (if k in s.matchLabels then {s.matchLabels[k]} else {}) +
    set i, v | 0 <= i < |s.matchExpressions| && s.matchExpressions[i].key == k && s.matchExpressions[i].op == "In" &&
               v in s.matchExpressions[i].values :: v
  }

  /** Any value will do that no requirement excludes by name. */
  predicate Unbound(s: Selector, k: string) {
    k !in s.matchLabels && forall i :: 0 <= i < |s.matchExpressions| && s.matchExpressions[i].key == k ==>
      s.matchExpressions[i].op != "In" && s.matchExpressions[i].op != "DoesNotExist"
  }

  /** The same as KeyPossible, read off the selector: absence, a listed value, or a value that is not listed. */
  predicate KeySatisfiable(s: Selector, k: string) {
    KeyHolds(s, k, None) || (exists v :: v in Listed(s, k) && KeyHolds(s, k, Some(v))) || Unbound(s, k)
  }

  function Longest(values: seq<string>): nat {
    if values == [] then 0
    else
      var n := Longest(values[..|values| - 1]);
      if |values[|values| - 1]| > n then |values[|values| - 1]| else n
  }

  function LongestOf(es: seq<Requirement>): nat {
    if es == [] then 0
    else
      var n, m := LongestOf(es[..|es| - 1]), Longest(es[|es| - 1].values);
      if m > n then m else n
  }

  lemma {:induction false} LongestBounds(values: seq<string>, v: string)
    requires v in values
    ensures |v| <= Longest(values)
  {
    if v != values[|values| - 1] { LongestBounds(values[..|values| - 1], v); }
  }

  lemma {:induction false} LongestOfBounds(es: seq<Requirement>, e: Requirement, v: string)
    requires e in es && v in e.values
    ensures |v| <= LongestOf(es)
  {
    if e == es[|es| - 1] { LongestBounds(e.values, v); } else { LongestOfBounds(es[..|es| - 1], e, v); }
  }

  /** Whether a key can be met is decided by finitely many values. */
  lemma KeyPossibleExact(s: Selector, k: string)
    ensures KeyPossible(s, k) <==> KeySatisfiable(s, k)
  {
    if o :| KeyHolds(s, k, o) && o.Some? && o.value !in Listed(s, k) {
      forall i | 0 <= i < |s.matchExpressions| && s.matchExpressions[i].key == k
        ensures s.matchExpressions[i].op != "In" && s.matchExpressions[i].op != "DoesNotExist"
      {
        assert HoldsAt(s.matchExpressions[i], o);
      }
      assert Unbound(s, k);
    }
    if Unbound(s, k) {
      var v := seq(LongestOf(s.matchExpressions) + 1, _ => 'x');
      forall i | 0 <= i < |s.matchExpressions| && s.matchExpressions[i].key == k
        ensures HoldsAt(s.matchExpressions[i], Some(v))
      {
        var e := s.matchExpressions[i];
        if v in e.values { LongestOfBounds(s.matchExpressions, e, v); }
      }
      assert KeyHolds(s, k, Some(v));
    }
  }

  ghost function Choice(s: Selector, k: string): (o: Option<string>)
    requires KeyPossible(s, k)
    ensures KeyHolds(s, k, o)
  {
    var o :| KeyHolds(s, k, o); o
  }

  function KeysOf(s: Selector): set<string> {
    s.matchLabels.Keys + set i | 0 <= i < |s.matchExpressions| :: s.matchExpressions[i].key
  }

  /** Give every unset key a value (or none) that meets what is asked of it. */
  lemma Filled(s: Selector, l: Labels) returns (l': Labels)
    requires Holds(Known(s, l), l) && forall k :: k in KeysOf(s) && k !in l ==> KeyPossible(s, k)
    ensures Extends(l, l') && Holds(s, l')
  {
    hide KeyPossible;
    l' := l + map k | k in KeysOf(s) && k !in l && Choice(s, k).Some? :: Choice(s, k).value;
    forall k | k in KeysOf(s) && k !in l ensures Lookup(l', k) == Choice(s, k) {}
    forall k | k in s.matchLabels ensures OrEmpty(Lookup(l', k)) == s.matchLabels[k] {
      assert k in KeysOf(s);
      if k in l { assert Known(s, l).matchLabels[k] == s.matchLabels[k]; }
    }
    forall i | 0 <= i < |s.matchExpressions|
      ensures HoldsAt(s.matchExpressions[i], Lookup(l', s.matchExpressions[i].key))
    {
      var e := s.matchExpressions[i];
      assert e.key in KeysOf(s);
      if e.key in l {
        KnowableExact(s.matchExpressions, l, e);
        var j :| 0 <= j < |Known(s, l).matchExpressions| && Known(s, l).matchExpressions[j] == e;
        assert HoldsAt(e, Lookup(l, e.key));
      }
    }
  }

  /** Some runtime labels make the selector match exactly when it is not
      decided against by Git and what it asks of each unset key can be met. */
  lemma ExtensionExact(s: Selector, l: Labels)
    ensures (exists l' :: Extends(l, l') && Holds(s, l'))
       <==> Holds(Known(s, l), l) && forall k :: k in KeysOf(s) && k !in l ==> KeySatisfiable(s, k)
  {
    hide KeySatisfiable;
    forall k ensures KeyPossible(s, k) <==> KeySatisfiable(s, k) { KeyPossibleExact(s, k); }
    if l' :| Extends(l, l') && Holds(s, l') {
      KnownIsNecessary(s, l, l');
      forall k | k in KeysOf(s) && k !in l ensures KeyPossible(s, k) {
        assert KeyHolds(s, k, Lookup(l', k));
      }
    }
    if Holds(Known(s, l), l) && forall k :: k in KeysOf(s) && k !in l ==> KeySatisfiable(s, k) {
      var l' := Filled(s, l);
    }
  }

  /** The key is asked for only once, and not for membership of an empty list. */
  ghost predicate AskedOnce(s: Selector, k: string) {
    && (forall i, j :: 0 <= i < j < |s.matchExpressions| && s.matchExpressions[i].key == k ==>
          s.matchExpressions[j].key != k)
    && (forall i :: 0 <= i < |s.matchExpressions| && s.matchExpressions[i].key == k ==>
          k !in s.matchLabels && (s.matchExpressions[i].op == "In" ==> s.matchExpressions[i].values != []))
  }

  lemma AskedOnceIsPossible(s: Selector, k: string)
    requires AskedOnce(s, k)
    ensures KeyPossible(s, k)
  {
    if k in s.matchLabels {
      assert KeyHolds(s, k, Some(s.matchLabels[k]));
    } else if i :| 0 <= i < |s.matchExpressions| && s.matchExpressions[i].key == k {
      var e := s.matchExpressions[i];
      var o := if e.op == "In" then Some(e.values[0]) else if e.op == "Exists" then Some("") else None;
      forall j | 0 <= j < |s.matchExpressions| && s.matchExpressions[j].key == k ensures j == i {}
      assert HoldsAt(e, o);
      assert KeyHolds(s, k, o);
    } else {
      assert KeyHolds(s, k, None);
    }
  }

  /** When every unset key is asked for once, Maybe keeps its promise: the
      selector does not match now, and some runtime labels make it match. */
  lemma MaybeIsPossible(s: Selector, l: Labels)
    requires !Holds(s, l) && Holds(Known(s, l), l)
    requires forall k :: k in KeysOf(s) && k !in l ==> AskedOnce(s, k)
    ensures exists l' :: Extends(l, l') && Holds(s, l') && l' != l
  {
    hide AskedOnce, Holds, KeySatisfiable, KeyPossible;
    forall k | k in KeysOf(s) && k !in l ensures KeySatisfiable(s, k) {
      AskedOnceIsPossible(s, k);
      KeyPossibleExact(s, k);
    }
    ExtensionExact(s, l);
  }

  /** Asked twice, a key can make Maybe wrong: no runtime label helps here. */
  lemma AskedTwiceCanFail()
    ensures var s := Selector(map[], [Requirement("k", "Exists", []), Requirement("k", "DoesNotExist", [])]);
      !Holds(s, map[]) && Holds(Known(s, map[]), map[]) && forall l' :: Extends(map[], l') ==> !Holds(s, l')
  {
    var es := [Requirement("k", "Exists", []), Requirement("k", "DoesNotExist", [])];
    var s := Selector(map[], es);
    assert es[..1] == [es[0]] && es[..1][..0] == [];
    assert Knowable(es[..1], map[]) == [];
    assert Knowable(es, map[]) == [es[1]];
    forall l' ensures !Holds(s, l') {
      assert s.matchExpressions[0] == es[0] && s.matchExpressions[1] == es[1];
    }
  }

  // ---- admission webhooks --------------------------------------------------------------

  datatype Rule = Rule(operations: seq<string>, apiGroups: seq<string>, apiVersions: seq<string>,
                       resources: seq<string>, scope: string)

  /** The kinds that a synthesised registration matches, each part possibly with wildcards. */
  datatype KindPattern = KindPattern(group: string, version: string, kind: string)

  /** Does a pattern with wildcards match a string? */
  type Glob = (string, string) -> bool

  datatype Gate = Gate(conditions: bool, kinds: seq<KindPattern>, rules: seq<Rule>,
                       objectSelector: Option<Selector>, namespaceSelector: Option<Selector>)

  datatype Obj = Obj(group: string, version: string, kind: string, namespace: string, name: string, labels: Labels)

  predicate AnyOf(list: seq<string>, want: seq<string>) {
    exists v :: v in list && v in want
  }

  predicate RuleMatches(r: Rule, o: Obj, resource: string) {
    && AnyOf(r.operations, ["*", "CREATE", "UPDATE"])
    && AnyOf(r.apiGroups, ["*", o.group])
    && (|r.apiVersions| > 0 ==> AnyOf(r.apiVersions, ["*", o.version]))
    && AnyOf(r.resources, ["*", "*/*", resource])
    && !(r.scope == "Namespaced" && o.namespace == "") && !(r.scope == "Cluster" && o.namespace != "")
  }

  /** Field by field: the rule asks for creation or update, for the object's
      group, for its version unless none is listed, for its resource, and for an
      object with or without a namespace if it has a scope. */
  lemma RuleMatchesExact(r: Rule, o: Obj, resource: string)
    ensures RuleMatches(r, o, resource) <==>
      && ("*" in r.operations || "CREATE" in r.operations || "UPDATE" in r.operations)
      && ("*" in r.apiGroups || o.group in r.apiGroups)
      && (r.apiVersions == [] || "*" in r.apiVersions || o.version in r.apiVersions)
      && ("*" in r.resources || "*/*" in r.resources || resource in r.resources)
      && (r.scope == "Namespaced" ==> o.namespace != "") && (r.scope == "Cluster" ==> o.namespace == "")
  {
    hide AnyOf;
    AnyOfThree(r.operations, "*", "CREATE", "UPDATE");
    AnyOfThree(r.apiGroups, "*", o.group, o.group);
    AnyOfThree(r.apiVersions, "*", o.version, o.version);
    AnyOfThree(r.resources, "*", "*/*", resource);
  }

  lemma AnyOfThree(list: seq<string>, a: string, b: string, c: string)
    ensures AnyOf(list, [a, b, c]) <==> a in list || b in list || c in list
    ensures b == c ==> (AnyOf(list, [a, b]) <==> a in list || b in list)
  {
    if a in list { assert a in [a, b, c] && a in [a, b]; }
    if b in list { assert b in [a, b, c] && b in [a, b]; }
    if c in list { assert c in [a, b, c]; }
  }

  predicate KindMatches(glob: Glob, k: KindPattern, o: Obj) {
    glob(k.kind, o.kind) && glob(k.version, o.version) && glob(k.group, o.group)
  }

  ghost predicate Registered(g: Gate, glob: Glob, o: Obj, resource: string) {
    || (exists i :: 0 <= i < |g.kinds| && glob(g.kinds[i].kind, o.kind) && glob(g.kinds[i].version, o.version) &&
                    glob(g.kinds[i].group, o.group))
    || (exists i :: 0 <= i < |g.rules| && RuleMatches(g.rules[i], o, resource))
  }

  /** A namespace is always labelled with its own name. */
  function WithNameLabel(l: Labels, name: string): Labels {
    l["kubernetes.io/metadata.name" := name]
  }

  predicate IsNamespace(o: Obj) { o.kind == "Namespace" && o.group == "" }

  /** The labels a namespace selector is applied to, if it applies at all. */
  function SelectedLabels(o: Obj, namespaces: map<string, Labels>): Option<Labels> {
    if IsNamespace(o) then Some(WithNameLabel(o.labels, o.name))
    else if o.namespace != "" then
      Some(WithNameLabel(if o.namespace in namespaces then namespaces[o.namespace] else map[], o.namespace))
    else None
  }

  /** Which labels a namespace selector sees: a Namespace's own, those of the
      namespace an object is in, or none; the key that holds a namespace's name
      always reads as that name, and every other label as Git has it. */
  lemma SelectedLabelsExact(o: Obj, namespaces: map<string, Labels>)
    ensures var own := o.kind == "Namespace" && o.group == "";
      var name := if own then o.name else o.namespace;
      var git := if own then o.labels else if name in namespaces then namespaces[name] else map[];
      var ns := SelectedLabels(o, namespaces);
      && (ns.None? <==> !own && o.namespace == "")
      && (ns.Some? ==> Lookup(ns.value, "kubernetes.io/metadata.name") == Some(name))
      && (ns.Some? ==> forall k :: k != "kubernetes.io/metadata.name" ==> Lookup(ns.value, k) == Lookup(git, k))
  {
  }

  /** The webhook is called, if these are the labels of the object and of its
      namespace: by the API server if api, otherwise by the code's reading of selectors. */
  ghost predicate Called(api: bool, g: Gate, glob: Glob, o: Obj, resource: string, objLabels: Labels,
                         nsLabels: Option<Labels>)
  {
    && Registered(g, glob, o, resource)
    && (g.objectSelector.Some? ==> Matches(api, g.objectSelector.value, objLabels))
    && (g.namespaceSelector.Some? && g.namespaceSelector.value != Selector(map[], []) && nsLabels.Some? ==>
          Matches(api, g.namespaceSelector.value, nsLabels.value))
  }

  /** A selector in use does not match whatever Git leaves unset: its decidable part fails. */
  ghost predicate RuledOut(g: Gate, objLabels: Labels, nsLabels: Option<Labels>) {
    || (g.objectSelector.Some? && !Holds(Known(g.objectSelector.value, objLabels), objLabels))
    || (g.namespaceSelector.Some? && g.namespaceSelector.value != Selector(map[], []) && nsLabels.Some? &&
        !Holds(Known(g.namespaceSelector.value, nsLabels.value), nsLabels.value))
  }

  /** What each selector in use asks of the keys that Git leaves unset can be met. */
  predicate Satisfiable(g: Gate, objLabels: Labels, nsLabels: Option<Labels>) {
    && (g.objectSelector.Some? ==> UnsetSatisfiable(g.objectSelector.value, objLabels))
    && (g.namespaceSelector.Some? && g.namespaceSelector.value != Selector(map[], []) && nsLabels.Some? ==>
          UnsetSatisfiable(g.namespaceSelector.value, nsLabels.value))
  }

  predicate UnsetSatisfiable(s: Selector, l: Labels) {
    forall k :: k in KeysOf(s) && k !in l ==> KeySatisfiable(s, k)
  }

  lemma UnsetAskedOnce(s: Selector, l: Labels)
    requires forall k :: k in KeysOf(s) && k !in l ==> AskedOnce(s, k)
    ensures UnsetSatisfiable(s, l)
  {
    hide AskedOnce, KeySatisfiable, KeyPossible, KeysOf;
    forall k | k in KeysOf(s) && k !in l ensures KeySatisfiable(s, k) {
      AskedOnceIsPossible(s, k);
      KeyPossibleExact(s, k);
    }
  }

  /** Some labels of the object and of its namespace that keep Git's make the code's reading call the webhook. */
  ghost predicate Callable(g: Gate, glob: Glob, o: Obj, resource: string, objLabels: Labels, nsLabels: Option<Labels>) {
    exists lo, ln :: Extends(objLabels, lo) && ExtendsSelected(nsLabels, ln) &&
                     Called(false, g, glob, o, resource, lo, ln)
  }

  lemma Extended(s: Selector, l: Labels) returns (l': Labels)
    requires Holds(Known(s, l), l) && UnsetSatisfiable(s, l)
    ensures Extends(l, l') && Holds(s, l')
  {
    hide KeySatisfiable, KeysOf, Holds;
    ExtensionExact(s, l);
    l' :| Extends(l, l') && Holds(s, l');
  }

  /** Where what is asked of unset keys can be met, some labels lead to a call
      exactly when kind or rule matches and no selector is ruled out. */
  lemma CallableExact(g: Gate, glob: Glob, o: Obj, resource: string, objLabels: Labels, nsLabels: Option<Labels>)
    requires Satisfiable(g, objLabels, nsLabels)
    ensures Callable(g, glob, o, resource, objLabels, nsLabels)
       <==> Registered(g, glob, o, resource) && !RuledOut(g, objLabels, nsLabels)
  {
    hide Holds, ApiHolds, Registered, UnsetSatisfiable, KeysOf, Known;
    if lo, ln :| Extends(objLabels, lo) && ExtendsSelected(nsLabels, ln) &&
                 Called(false, g, glob, o, resource, lo, ln) {
      if g.objectSelector.Some? { KnownIsNecessary(g.objectSelector.value, objLabels, lo); }
      if g.namespaceSelector.Some? && g.namespaceSelector.value != Selector(map[], []) && nsLabels.Some? {
        KnownIsNecessary(g.namespaceSelector.value, nsLabels.value, ln.value);
      }
    }
    if Registered(g, glob, o, resource) && !RuledOut(g, objLabels, nsLabels) {
      var lo, ln := objLabels, nsLabels;
      if g.objectSelector.Some? { lo := Extended(g.objectSelector.value, objLabels); }
      if g.namespaceSelector.Some? && g.namespaceSelector.value != Selector(map[], []) && nsLabels.Some? {
        var l := Extended(g.namespaceSelector.value, nsLabels.value);
        ln := Some(l);
      }
      assert Called(false, g, glob, o, resource, lo, ln);
    }
  }

  /** Every label that a selector in use asks to be empty is there. */
  predicate GateEmptiesSet(g: Gate, objLabels: Labels, nsLabels: Option<Labels>) {
    && (g.objectSelector.Some? ==> EmptiesSet(g.objectSelector.value, objLabels))
    && (g.namespaceSelector.Some? && g.namespaceSelector.value != Selector(map[], []) && nsLabels.Some? ==>
          EmptiesSet(g.namespaceSelector.value, nsLabels.value))
  }

  /** The API server calls the webhook exactly when the code says so and no
      selector in use asks for an empty value under a key that is not there. */
  lemma CalledDifference(g: Gate, glob: Glob, o: Obj, resource: string, objLabels: Labels, nsLabels: Option<Labels>)
    ensures Called(true, g, glob, o, resource, objLabels, nsLabels)
       <==> Called(false, g, glob, o, resource, objLabels, nsLabels) && GateEmptiesSet(g, objLabels, nsLabels)
  {
    hide Holds, ApiHolds, EmptiesSet, Registered;
    if g.objectSelector.Some? { ApiDifference(g.objectSelector.value, objLabels); }
    if g.namespaceSelector.Some? && nsLabels.Some? { ApiDifference(g.namespaceSelector.value, nsLabels.value); }
  }

  /** Three values for the question whether the API server calls the webhook:
      what Git's labels say, which is right about the API server unless a
      selector asks for an empty value under an unset key, and no only if no
      labels set at runtime can change it, in either reading. */
  method Admits(g: Gate, glob: Glob, o: Obj, resource: string, namespaces: map<string, Labels>) returns (v: Verdict)
    ensures var ns := SelectedLabels(o, namespaces);
      v.Passes? <==> g.conditions || !Registered(g, glob, o, resource) || RuledOut(g, o.labels, ns)
    ensures var ns := SelectedLabels(o, namespaces);
      !g.conditions && Satisfiable(g, o.labels, ns) ==> (v.Passes? <==> !Callable(g, glob, o, resource, o.labels, ns))
    ensures var ns := SelectedLabels(o, namespaces);
      !g.conditions ==>
      && (v.Intercepts? <==> Called(false, g, glob, o, resource, o.labels, ns))
      && (GateEmptiesSet(g, o.labels, ns) ==> (v.Intercepts? <==> Called(true, g, glob, o, resource, o.labels, ns)))
      && (!GateEmptiesSet(g, o.labels, ns) ==> !Called(true, g, glob, o, resource, o.labels, ns))
    ensures !g.conditions && v.Passes? ==> forall api, lo, ln ::
      Extends(o.labels, lo) && ExtendsSelected(SelectedLabels(o, namespaces), ln) ==>
        !Called(api, g, glob, o, resource, lo, ln)
  {
    hide Holds, ApiHolds, EmptiesSet, RuleMatches, Satisfiable, Callable, Known;
    var ns := SelectedLabels(o, namespaces);
    CalledDifference(g, glob, o, resource, o.labels, ns);
    if Satisfiable(g, o.labels, ns) { CallableExact(g, glob, o, resource, o.labels, ns); }
    if g.conditions { return Passes; }
    var matched := false;
    for i := 0 to |g.kinds|
      invariant matched <==> exists j :: 0 <= j < i && KindMatches(glob, g.kinds[j], o)
    {
      matched := matched || KindMatches(glob, g.kinds[i], o);
    }
    ghost var byKind := matched;
    for i := 0 to |g.rules|
      invariant matched <==> byKind || exists j :: 0 <= j < i && RuleMatches(g.rules[j], o, resource)
    {
      if RuleMatches(g.rules[i], o, resource) { matched := true; }
    }
    assert matched <==> Registered(g, glob, o, resource);
    if !matched { return Passes; }
    hide Registered;
    v := Intercepts;
    if g.objectSelector.Some? {
      var s := g.objectSelector.value;
      v := Selects(s, o.labels);
      KnownNow(s, o.labels);
      if v == Passes {
        forall api, lo | Extends(o.labels, lo) ensures !Matches(api, s, lo) { PassesIsFinal(api, s, o.labels, lo); }
        return;
      }
    }
    if g.namespaceSelector.Some? && g.namespaceSelector.value != Selector(map[], []) && ns.Some? {
      var s := g.namespaceSelector.value;
      var w := Selects(s, ns.value);
      KnownNow(s, ns.value);
      if w == Passes {
        forall api, ln | Extends(ns.value, ln) ensures !Matches(api, s, ln) { PassesIsFinal(api, s, ns.value, ln); }
      }
      v := Least(v, w);
    }
  }

  ghost predicate ExtendsSelected(l: Option<Labels>, l': Option<Labels>) {
    if l.None? then l'.None? else l'.Some? && Extends(l.value, l'.value)
  }

  lemma KnownNow(s: Selector, l: Labels)
    ensures Holds(s, l) ==> Holds(Known(s, l), l)
  {
    if Holds(s, l) { KnownIsNecessary(s, l, l); }
  }

  lemma PassesIsFinal(api: bool, s: Selector, l: Labels, l': Labels)
    requires Extends(l, l') && !Holds(Known(s, l), l)
    ensures !Matches(api, s, l')
  {
    ApiDifference(s, l');
    if Holds(s, l') { KnownIsNecessary(s, l, l'); }
  }
}
