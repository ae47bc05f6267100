/** Edit distance in two rows, and the field name that was probably meant.
    A character stands for a byte. */
module Distance {
  // ---- the reference ------------------------------------------------------------

  function Min3(a: int, b: int, c: int): int {
    if a <= b && a <= c then a else if b <= c then b else c
  }

  function Cost(x: char, y: char): int { if x == y then 0 else 1 }

  /** The recurrence. That it counts the fewest edits is EditsIsLeast. */
  function Edits(a: string, b: string): (d: int)
    ensures d >= 0
    decreases |a| + |b|
  {
    if a == [] then |b|
    else if b == [] then |a|
    else
      var a', b' := a[..|a| - 1], b[..|b| - 1];
      Min3(Edits(a', b) + 1, Edits(a, b') + 1, Edits(a', b') + Cost(a[|a| - 1], b[|b| - 1]))
  }

  // ---- what it counts ---------------------------------------------------------------

  /** One step of turning one string into another, from left to right. */
  datatype Op = Keep(c: char) | Insert(c: char) | Delete(c: char) | Replace(x: char, y: char)

  function Reads(op: Op): string {
    match op
    case Keep(c) => [c]
    case Insert(_) => []
    case Delete(c) => [c]
    case Replace(x, _) => [x]
  }

  function Writes(op: Op): string {
    match op
    case Keep(c) => [c]
    case Insert(c) => [c]
    case Delete(_) => []
    case Replace(_, y) => [y]
  }

  /** The string that a script reads, the one that it writes, and how many steps are not Keep. */
  function Source(s: seq<Op>): string {
    if s == [] then [] else Source(s[..|s| - 1]) + Reads(s[|s| - 1])
  }

  function Target(s: seq<Op>): string {
    if s == [] then [] else Target(s[..|s| - 1]) + Writes(s[|s| - 1])
  }

  function Changes(s: seq<Op>): nat {
    if s == [] then 0 else Changes(s[..|s| - 1]) + if s[|s| - 1].Keep? then 0 else 1
  }

  lemma {:induction false} NoFewer(s: seq<Op>)
    ensures Edits(Source(s), Target(s)) <= Changes(s)
  {
    if s != [] {
      NoFewer(s[..|s| - 1]);
      OneMore(Source(s[..|s| - 1]), Target(s[..|s| - 1]), s[|s| - 1]);
    }
  }

  lemma OneMore(a: string, b: string, op: Op)
    ensures Edits(a + Reads(op), b + Writes(op)) <= Edits(a, b) + if op.Keep? then 0 else 1
  {
    var a', b' := a + Reads(op), b + Writes(op);
    if Reads(op) == [] { assert a' == a; } else { assert a'[..|a'| - 1] == a; }
    if Writes(op) == [] { assert b' == b; } else { assert b'[..|b'| - 1] == b; }
  }

  lemma Snoc(s: seq<Op>, op: Op)
    ensures Source(s + [op]) == Source(s) + Reads(op) && Target(s + [op]) == Target(s) + Writes(op)
    ensures Changes(s + [op]) == Changes(s) + if op.Keep? then 0 else 1
  {
    assert (s + [op])[..|s|] == s;
  }

  /** Some last step of a best script. */
  lemma LastOp(a: string, b: string) returns (a': string, b': string, op: Op)
    requires a != [] || b != []
    ensures a == a' + Reads(op) && b == b' + Writes(op) && |a'| + |b'| < |a| + |b|
    ensures Edits(a, b) == Edits(a', b') + if op.Keep? then 0 else 1
  {
    a', b' := a, b;
    if a == [] || (b != [] && Edits(a, b) == Edits(a, b[..|b| - 1]) + 1) {
      b', op := b[..|b| - 1], Insert(b[|b| - 1]);
    } else if b == [] || Edits(a, b) == Edits(a[..|a| - 1], b) + 1 {
      a', op := a[..|a| - 1], Delete(a[|a| - 1]);
    } else {
      var x, y := a[|a| - 1], b[|b| - 1];
      a', b', op := a[..|a| - 1], b[..|b| - 1], if x == y then Keep(x) else Replace(x, y);
    }
  }

  lemma {:induction false} BestScript(a: string, b: string) returns (s: seq<Op>)
    ensures Source(s) == a && Target(s) == b && Changes(s) == Edits(a, b)
    decreases |a| + |b|
  {
    if a == [] && b == [] {
      s := [];
    } else {
      hide Edits, Source, Target, Changes, Reads, Writes;
      var a', b', op := LastOp(a, b);
      s := BestScript(a', b');
      Snoc(s, op);
      s := s + [op];
    }
  }

  ghost predicate Turns(s: seq<Op>, a: string, b: string) {
    Source(s) == a && Target(s) == b
  }

  /** The distance is attained by a script of insertions, deletions and
      replacements that turns a into b, and no such script changes less. */
  lemma EditsIsLeast(a: string, b: string)
    ensures exists s :: Turns(s, a, b) && Changes(s) == Edits(a, b)
    ensures forall s :: Turns(s, a, b) ==> Edits(a, b) <= Changes(s)
  {
    hide Edits, Source, Target, Changes;
    var best := BestScript(a, b);
    assert Turns(best, a, b);
    forall s | Turns(s, a, b) ensures Edits(a, b) <= Changes(s) { NoFewer(s); }
  }

  // ---- the two-row computation ----------------------------------------------------

  ghost predicate Row(r: array<int>, a: string, b: string, n: nat)
    reads r
  {
    r.Length == |b| + 1 && n <= r.Length && forall j :: 0 <= j < n ==> r[j] == Edits(a, b[..j])
  }

  lemma EditsStep(a: string, b: string, i: nat, j: nat)
    requires 1 <= i <= |a| && 1 <= j <= |b|
    ensures Edits(a[..i], b[..j]) ==
      Min3(Edits(a[..i - 1], b[..j]) + 1, Edits(a[..i], b[..j - 1]) + 1,
           Edits(a[..i - 1], b[..j - 1]) + Cost(a[i - 1], b[j - 1]))
  {
    assert a[..i][..i - 1] == a[..i - 1] && b[..j][..j - 1] == b[..j - 1];
  }

  lemma EditsBase(a: string, i: nat)
    requires i <= |a|
    ensures Edits(a[..i], []) == i && Edits([], a[..i]) == i
  {
  }

  /** The row of one more character of a, from the row before. */
  method FillRow(prev: array<int>, a: string, b: string, i: nat) returns (cur: array<int>)
    requires 1 <= i <= |a| && Row(prev, a[..i - 1], b, |b| + 1)
    ensures fresh(cur) && Row(cur, a[..i], b, |b| + 1)
  {
    hide Edits, Min3;
    cur := new int[|b| + 1];
    cur[0] := i;
    EditsBase(a, i);
    assert b[..0] == [];
    for j := 1 to |b| + 1
      invariant Row(cur, a[..i], b, j)
    {
      var cost := if a[i - 1] == b[j - 1] then 0 else 1;
      EditsStep(a, b, i, j);
      cur[j] := Min3(prev[j] + 1, cur[j - 1] + 1, prev[j - 1] + cost);
    }
  }

  method EditDistance(a: string, b: string) returns (d: int)
    ensures d == Edits(a, b)
  {
    hide Edits;
    var prev := new int[|b| + 1](j => j);
    forall j | 0 <= j <= |b| ensures Edits(a[..0], b[..j]) == j { EditsBase(b, j); assert a[..0] == []; }
    for i := 1 to |a| + 1
      invariant Row(prev, a[..i - 1], b, |b| + 1)
    {
      prev := FillRow(prev, a, b, i);
    }
    assert a[..|a|] == a && b[..|b|] == b;
    d := prev[|b|];
  }

  // ---- it is a metric --------------------------------------------------------------

  lemma {:induction false} Symmetric(a: string, b: string)
    ensures Edits(a, b) == Edits(b, a)
    decreases |a| + |b|
  {
    if a != [] && b != [] {
      Symmetric(a[..|a| - 1], b);
      Symmetric(a, b[..|b| - 1]);
      Symmetric(a[..|a| - 1], b[..|b| - 1]);
    }
  }

  lemma {:induction false} ZeroIffEqual(a: string, b: string)
    ensures Edits(a, b) == 0 <==> a == b
    decreases |a| + |b|
  {
    if a != [] && b != [] {
      var a', b' := a[..|a| - 1], b[..|b| - 1];
      assert a == a' + [a[|a| - 1]] && b == b' + [b[|b| - 1]];
      ZeroIffEqual(a', b');
    }
  }

  /** No fewer edits than the difference in length, no more than both lengths. */
  lemma {:induction false} Bounds(a: string, b: string)
    ensures |a| - |b| <= Edits(a, b) && |b| - |a| <= Edits(a, b) <= |a| + |b|
    decreases |a| + |b|
  {
    if a != [] && b != [] {
      Bounds(a[..|a| - 1], b);
      Bounds(a, b[..|b| - 1]);
      Bounds(a[..|a| - 1], b[..|b| - 1]);
    }
  }

  lemma LastStep(a: string, b: string)
    requires a != [] && b != []
    ensures Edits(a, b) <= Edits(a[..|a| - 1], b) + 1 && Edits(a, b) <= Edits(a, b[..|b| - 1]) + 1
    ensures Edits(a, b) <= Edits(a[..|a| - 1], b[..|b| - 1]) + Cost(a[|a| - 1], b[|b| - 1])
    ensures || Edits(a, b) == Edits(a[..|a| - 1], b) + 1
            || Edits(a, b) == Edits(a, b[..|b| - 1]) + 1
            || Edits(a, b) == Edits(a[..|a| - 1], b[..|b| - 1]) + Cost(a[|a| - 1], b[|b| - 1])
  {
  }

  lemma {:induction false} Triangle(a: string, b: string, c: string)
    ensures Edits(a, c) <= Edits(a, b) + Edits(b, c)
    decreases |a| + |b| + |c|
  {
    if a == [] || b == [] || c == [] {
      Bounds(a, b);
      Bounds(b, c);
      Bounds(a, c);
    } else {
      hide Edits, Min3;
      LastStep(a, b);
      LastStep(b, c);
      LastStep(a, c);
      var a', b', c' := a[..|a| - 1], b[..|b| - 1], c[..|c| - 1];
      if Edits(a, b) == Edits(a', b) + 1 {
        Triangle(a', b, c);
      } else if Edits(b, c) == Edits(b, c') + 1 {
        Triangle(a, b, c');
      } else if Edits(a, b) == Edits(a, b') + 1 {
        if Edits(b, c) == Edits(b', c) + 1 { Triangle(a, b', c); } else { Triangle(a, b', c'); }
      } else {
        if Edits(b, c) == Edits(b', c) + 1 { Triangle(a', b', c); } else { Triangle(a', b', c'); }
      }
    }
  }

  // ---- the suggestion ----------------------------------------------------------------

  /** Byte-wise lexicographic order. */
  predicate Before(a: string, b: string) {
    if b == [] then false
    else if a == [] then true
    else a[0] < b[0] || (a[0] == b[0] && Before(a[1..], b[1..]))
  }

  /** At position k the strings differ for the first time, and a has the smaller byte. */
  ghost predicate SmallerAt(a: string, b: string, k: nat) {
    k < |a| && k < |b| && a[..k] == b[..k] && a[k] < b[k]
  }

  lemma SmallerHead(a: string, b: string, k: nat)
    requires a != [] && b != []
    ensures SmallerAt(a, b, k) && a[0] != b[0] ==> k == 0
  {
    if SmallerAt(a, b, k) && k > 0 { assert a[0] == a[..k][0] && b[0] == b[..k][0]; }
  }

  /** a comes before b iff it is a proper prefix or smaller at the first difference. */
  lemma {:induction false} BeforeExact(a: string, b: string)
    ensures Before(a, b) <==> a < b || exists k :: SmallerAt(a, b, k)
    decreases |a|
  {
    if a != [] && b != [] && a[0] == b[0] {
      BeforeExact(a[1..], b[1..]);
      assert a == [a[0]] + a[1..] && b == [b[0]] + b[1..];
      if k: nat :| SmallerAt(a, b, k) {
        assert k > 0 && a[1..][..k - 1] == a[..k][1..] && b[1..][..k - 1] == b[..k][1..];
        assert SmallerAt(a[1..], b[1..], k - 1);
      }
      if k: nat :| SmallerAt(a[1..], b[1..], k) {
        assert a[..k + 1] == [a[0]] + a[1..][..k] && b[..k + 1] == [b[0]] + b[1..][..k];
        assert SmallerAt(a, b, k + 1);
      }
    } else if a != [] && b != [] {
      forall k: nat ensures SmallerAt(a, b, k) ==> k == 0 { SmallerHead(a, b, k); }
      assert a[0] < b[0] ==> SmallerAt(a, b, 0);
    }
  }

  lemma {:induction false} BeforeIsOrder(a: string, b: string, c: string)
    ensures !Before(a, a)
    ensures Before(a, b) && Before(b, c) ==> Before(a, c)
    ensures a == b || Before(a, b) || Before(b, a)
    decreases |a| + |b| + |c|
  {
    if a != [] {
      BeforeIsOrder(a[1..], if b == [] then [] else b[1..], if c == [] then [] else c[1..]);
      if b != [] && a[0] == b[0] && a[1..] == b[1..] {
        assert a == [a[0]] + a[1..] && b == [b[0]] + b[1..];
      }
    }
  }

  /** (d, p) comes no later than (e, q): by distance, then by name. */
  ghost predicate AtMost(d: int, p: string, e: int, q: string) {
    d < e || (d == e && (p == q || Before(p, q)))
  }

  ghost predicate Close(lower: string -> string, k: string, props: set<string>, p: string) {
    p in props && Edits(lower(k), lower(p)) <= 2
  }

  /** Of the names within distance two, the least by distance and then by name;
      "" when there is none. The names are visited in no particular order. */
  method Suggestion(lower: string -> string, k: string, props: set<string>) returns (best: string)
    ensures (forall p :: !Close(lower, k, props, p)) ==> best == ""
    ensures forall p :: Close(lower, k, props, p) ==>
      Close(lower, k, props, best) && AtMost(Edits(lower(k), lower(best)), best, Edits(lower(k), lower(p)), p)
  {
    hide Edits;
    var bestD := 3;
    best := "";
    var left := props;
    while left != {}
      invariant left <= props
      invariant bestD == 3 ==> best == ""
      invariant bestD < 3 ==> best in props && Edits(lower(k), lower(best)) == bestD
      invariant bestD <= 3
      invariant forall p :: p in props - left && Edits(lower(k), lower(p)) <= 2 ==>
        bestD < 3 && AtMost(bestD, best, Edits(lower(k), lower(p)), p)
      decreases left
    {
      var p :| p in left;
      left := left - {p};
      var d := EditDistance(lower(k), lower(p));
      if d < bestD || (d == bestD && Before(p, best)) {
        forall q | q in props - left && Edits(lower(k), lower(q)) <= 2
          ensures AtMost(d, p, Edits(lower(k), lower(q)), q)
        {
          BeforeIsOrder(p, best, q);
        }
        best, bestD := p, d;
      } else {
        BeforeIsOrder(best, p, p);
      }
    }
    assert bestD < 3 ==> Close(lower, k, props, best);
  }

  /** The least pair is unique, so every iteration order gives the same suggestion. */
  lemma LeastIsUnique(d: int, p: string, e: int, q: string)
    requires AtMost(d, p, e, q) && AtMost(e, q, d, p)
    ensures d == e && p == q
  {
    BeforeIsOrder(p, q, p);
  }
}
