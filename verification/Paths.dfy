/** Absolute paths as lists of names, paths relative to a root, and directory
    listings folded into one string. */
module Paths {
  type Path = seq<string>

  const UP := ".."

  /** No step up is left in an absolute path. */
  ghost predicate Clean(p: Path) {
    forall i :: 0 <= i < |p| ==> p[i] != UP
  }

  function Ups(n: nat): Path {
    if n == 0 then [] else [UP] + Ups(n - 1)
  }

  /** The way from root to p: steps up first where p lies outside. */
  function Rel(root: Path, p: Path): Path {
    if root == [] then p
    else if p != [] && p[0] == root[0] then Rel(root[1..], p[1..])
    else Ups(|root|) + p
  }

  function Join(root: Path, rel: Path): Path
    decreases |rel|
  {
    if rel == [] then root
    else if rel[0] == UP then Join(if root == [] then [] else root[..|root| - 1], rel[1..])
    else Join(root + [rel[0]], rel[1..])
  }

  predicate Escapes(rel: Path) {
    rel != [] && rel[0] == UP
  }

  /** A path is inside the root exactly when the way to it does not start with a step up. */
  lemma {:induction false} RelInside(root: Path, p: Path)
    requires Clean(root) && Clean(p)
    ensures root <= p <==> !Escapes(Rel(root, p))
    ensures root <= p ==> Rel(root, p) == p[|root|..]
    decreases |root|
  {
    if root != [] && p != [] && p[0] == root[0] {
      RelInside(root[1..], p[1..]);
      assert root == [root[0]] + root[1..] && p == [p[0]] + p[1..];
    }
  }

  lemma {:induction false} JoinClean(root: Path, rel: Path)
    requires Clean(rel)
    ensures Join(root, rel) == root + rel
    decreases |rel|
  {
    if rel == [] {
      assert root + rel == root;
    } else {
      JoinClean(root + [rel[0]], rel[1..]);
      assert root + [rel[0]] + rel[1..] == root + rel;
    }
  }

  lemma {:induction false} JoinUps(root: Path, n: nat, p: Path)
    requires n <= |root| && Clean(p)
    ensures Join(root, Ups(n) + p) == root[..|root| - n] + p
    decreases n
  {
    if n == 0 {
      assert Ups(0) + p == p && root[..|root|] == root;
      JoinClean(root, p);
    } else {
      assert (Ups(n) + p)[1..] == Ups(n - 1) + p;
      JoinUps(root[..|root| - 1], n - 1, p);
      assert root[..|root| - 1][..|root| - 1 - (n - 1)] == root[..|root| - n];
    }
  }

  /** Round trip: following the way from root to p leads to p. */
  lemma {:induction false} JoinRel(pre: Path, root: Path, p: Path)
    requires Clean(pre) && Clean(root) && Clean(p)
    ensures Join(pre + root, Rel(root, p)) == pre + p
    decreases |root|
  {
    if root == [] {
      assert pre + root == pre;
      JoinClean(pre, p);
    } else if p != [] && p[0] == root[0] {
      JoinRel(pre + [p[0]], root[1..], p[1..]);
      assert pre + [p[0]] + root[1..] == pre + root && pre + [p[0]] + p[1..] == pre + p;
    } else {
      JoinUps(pre + root, |root|, p);
      assert (pre + root)[..|pre|] == pre;
    }
  }

  // ---- directory listings ------------------------------------------------------

  const NUL := '\0'

  /** The names of a listing, separated by NUL. */
  function JoinNames(names: seq<string>): string {
    if names == [] then ""
    else if |names| == 1 then names[0]
    else names[0] + [NUL] + JoinNames(names[1..])
  }

  ghost predicate ProperNames(names: seq<string>) {
    forall i :: 0 <= i < |names| ==> names[i] != "" && NUL !in names[i]
  }

  lemma SameHead(a: string, ra: string, b: string, rb: string)
    requires a + ra == b + rb && NUL !in a && NUL !in b
    requires ra == "" || ra[0] == NUL
    requires rb == "" || rb[0] == NUL
    ensures a == b && ra == rb
  {
    var s := a + ra;
    assert forall i :: 0 <= i < |a| ==> s[i] == a[i] && a[i] != NUL;
    assert forall i :: 0 <= i < |b| ==> s[i] == b[i] && b[i] != NUL;
    assert |ra| > 0 ==> s[|a|] == ra[0];
    assert |rb| > 0 ==> s[|b|] == rb[0];
    assert |a| == |b|;
    assert a == s[..|a|] == b && ra == s[|a|..] == rb;
  }

  function Rest(names: seq<string>): string
    requires names != []
  {
    if |names| == 1 then "" else [NUL] + JoinNames(names[1..])
  }

  lemma NamesUnfold(names: seq<string>)
    requires names != []
    ensures JoinNames(names) == names[0] + Rest(names)
    ensures |names| > 1 ==> Rest(names) != "" && Rest(names)[0] == NUL && Rest(names)[1..] == JoinNames(names[1..])
    ensures |names| == 1 ==> Rest(names) == ""
  {
    if |names| == 1 { assert names[0] + "" == names[0]; }
    else { assert names[0] + [NUL] + JoinNames(names[1..]) == names[0] + Rest(names); }
  }

  lemma ProperHead(names: seq<string>)
    requires names != [] && ProperNames(names)
    ensures names[0] != "" && NUL !in names[0] && ProperNames(names[1..])
    ensures names == [names[0]] + names[1..]
  {
  }

  /** Different listings fold into different strings. */
  lemma {:induction false} JoinNamesInjective(a: seq<string>, b: seq<string>)
    requires ProperNames(a) && ProperNames(b) && JoinNames(a) == JoinNames(b)
    ensures a == b
    decreases |a|
  {
    hide Rest, ProperNames;
    if a != [] { NamesUnfold(a); ProperHead(a); }
    if b != [] { NamesUnfold(b); ProperHead(b); }
    if a != [] && b != [] {
      SameHead(a[0], Rest(a), b[0], Rest(b));
      if |a| > 1 && |b| > 1 {
        JoinNamesInjective(a[1..], b[1..]);
      }
    }
  }
}
