/** The build cache: a recorder notes what a build observes of the tree, and a
    build is reused where all of that is unchanged. */
module Cache {
  import opened Paths
  import opened Options

  // ---- the tree as a build sees it ----------------------------------------------

  /** A read-only file system. */
  datatype View = View(read: Path -> Option<string>, list: Path -> Option<seq<string>>,
                       isDir: Path -> bool, present: Path -> bool, other: Path -> string)

  ghost predicate Sane(v: View) {
    && (forall p :: v.isDir(p) ==> v.present(p))
    && (forall p :: v.list(p).Some? ==> ProperNames(v.list(p).value))
  }

  /** What a build can ask. Only Other, which stands for Open, Glob and Walk, is
      not captured by a probe. CleanedAbs says where a path leads: without
      symbolic links that is the path itself, as a directory or as a file in one, or nowhere. */
  datatype Kind = ReadFile | ReadDir | Exists | IsDir | CleanedAbs | Other

  datatype Answer =
    | Content(bytes: Option<string>)
    | Names(names: Option<seq<string>>)
    | Truth(b: bool)
    | Leads(dir: bool, file: bool)
    | Raw(data: string)

  function Ask(v: View, k: Kind, p: Path): Answer {
    match k
    case ReadFile => Content(v.read(p))
    case ReadDir => Names(v.list(p))
    case Exists => Truth(v.present(p))
    case IsDir => Truth(v.isDir(p))
    case CleanedAbs => Leads(v.isDir(p), !v.isDir(p) && v.present(p))
    case Other => Raw(v.other(p))
  }

  // ---- probes ---------------------------------------------------------------------

  /** What is compared: file content, directory listing, path state. */
  datatype Op = OpFile | OpDir | OpState

  function OpOf(k: Kind): Op {
    match k
    case ReadFile => OpFile
    case ReadDir => OpDir
    case Exists => OpState
    case IsDir => OpState
    case CleanedAbs => OpState
    case Other => OpState
  }

  /** A digest stands for the text it was computed from: the hash is taken to be injective. */
  datatype Sum = Absent | Digest(of: string) | StateDir | StateFile

  function Observe(v: View, op: Op, p: Path): Sum {
    match op
    case OpFile => if v.read(p).None? then Absent else Digest(v.read(p).value)
    case OpDir => if v.list(p).None? then Absent else Digest(JoinNames(v.list(p).value))
    case OpState => if v.isDir(p) then StateDir else if v.present(p) then StateFile else Absent
  }

  datatype Probe = Probe(op: Op, rel: Path, sum: Sum)

  /** Where two views observe the same, they answer the same. */
  lemma ObservationDecides(v: View, p: Path, w: View, q: Path, k: Kind)
    requires Sane(v) && Sane(w) && !k.Other?
    requires Observe(v, OpOf(k), p) == Observe(w, OpOf(k), q)
    ensures Ask(v, k, p) == Ask(w, k, q)
  {
    if k == ReadDir && v.list(p).Some? {
      JoinNamesInjective(v.list(p).value, w.list(q).value);
    }
  }

  // ---- recording ------------------------------------------------------------------

  datatype Record = Record(cacheable: bool, probes: seq<Probe>)

  ghost predicate HasProbe(probes: seq<Probe>, op: Op, rel: Path) {
    exists i :: 0 <= i < |probes| && probes[i].op == op && probes[i].rel == rel
  }

  /** The record after one more observation of an absolute path. */
  ghost function Noted(v: View, root: Path, scratch: Path, r: Record, op: Op, p: Path): Record {
    if !r.cacheable || scratch <= p then r
    else if !(root <= p) then r.(cacheable := false)
    else if HasProbe(r.probes, op, p[|root|..]) then r
    else r.(probes := r.probes + [Probe(op, p[|root|..], Observe(v, op, p))])
  }

  /** A file system that notes everything asked of it below the root. */
  class Recorder {
    const view: View
    const root: Path
    const scratch: Path
    var seen: set<(Op, Path)>
    var probes: seq<Probe>
    var cacheable: bool

    ghost predicate Valid()
      reads this
    {
      && Clean(root) && Clean(scratch)
      && (forall op, rel :: (op, rel) in seen <==> HasProbe(probes, op, rel))
    }

    ghost function State(): Record
      reads this
    {
      Record(cacheable, probes)
    }

    constructor (view: View, root: Path, scratch: Path, hasRoot: bool)
      requires Clean(root) && Clean(scratch)
      ensures Valid() && State() == Record(hasRoot, [])
      ensures this.view == view && this.root == root && this.scratch == scratch
    {
      this.view, this.root, this.scratch := view, root, scratch;
      seen, probes, cacheable := {}, [], hasRoot;
    }

    method Note(op: Op, abs: Path)
      requires Valid() && Clean(abs)
      modifies this
      ensures Valid() && State() == Noted(view, root, scratch, old(State()), op, abs)
    {
      if !cacheable || scratch <= abs { return; }
      var rel := Rel(root, abs);
      RelInside(root, abs);
      if Escapes(rel) {
        cacheable := false;
        return;
      }
      if (op, rel) !in seen {
        ghost var before := probes;
        seen := seen + {(op, rel)};
        probes := probes + [Probe(op, rel, Observe(view, op, abs))];
        assert forall i :: 0 <= i < |before| ==> probes[i] == before[i];
        assert probes[|before|].op == op && probes[|before|].rel == rel;
        assert forall o, x :: HasProbe(probes, o, x) <==> HasProbe(before, o, x) || (o == op && x == rel);
      }
    }

    /** Any question asked through the recorder: noted, then answered by the view. */
    method Answer(k: Kind, abs: Path) returns (a: Answer)
      requires Valid() && Clean(abs)
      modifies this
      ensures Valid() && a == Ask(view, k, abs)
      ensures k == ReadFile ==> a == Content(view.read(abs))
      ensures k == ReadDir ==> a == Names(view.list(abs))
      ensures k == Exists ==> a == Truth(view.present(abs))
      ensures k == IsDir ==> a == Truth(view.isDir(abs))
      ensures k == CleanedAbs ==> a == Leads(view.isDir(abs), view.present(abs) && !view.isDir(abs))
      ensures State() == Observed(view, root, scratch, old(State()), k, abs)
    {
      if k == Other {
        cacheable := false;
      } else {
        Note(OpOf(k), abs);
      }
      a := Ask(view, k, abs);
    }
  }

  ghost function Observed(v: View, root: Path, scratch: Path, r: Record, k: Kind, p: Path): Record {
    if k == Other then r.(cacheable := false) else Noted(v, root, scratch, r, OpOf(k), p)
  }

  // ---- builds ---------------------------------------------------------------------

  /** A place a build can name: among the files it wrote itself, otherwise below
      the root it is run in, or else at a fixed path anywhere. */
  datatype Loc = InRoot(rel: Path) | InScratch(rel: Path) | Elsewhere(abs: Path)

  datatype Step = Query(k: Kind, at: Loc) | Done(objs: string, origins: seq<Option<Loc>>) | Failed

  /** A deterministic build: the next question, the result or the failure is a
      function of the answers so far, and so is what it finds in the files it
      wrote itself. A path written there stands for the place that it leads to. */
  datatype Build = Build(step: seq<Answer> -> Step, own: (seq<Answer>, Kind, Path) -> Answer)

  function Place(root: Path, scratch: Path, at: Loc): Path {
    match at
    case InRoot(rel) => root + rel
    case InScratch(rel) => scratch + rel
    case Elsewhere(abs) => abs
  }

  ghost predicate ProperLoc(root: Path, scratch: Path, at: Loc) {
    match at
    case InRoot(rel) => Clean(rel) && !(scratch <= root + rel)
    case InScratch(rel) => Clean(rel)
    case Elsewhere(abs) => Clean(abs) && !(root <= abs) && !(scratch <= abs)
  }

  function Reply(b: Build, v: View, root: Path, before: seq<Answer>, k: Kind, at: Loc): Answer {
    match at
    case InRoot(rel) => Ask(v, k, root + rel)
    case InScratch(rel) => b.own(before, k, rel)
    case Elsewhere(abs) => Ask(v, k, abs)
  }

  /** The build, run in this view at this root, gets exactly these answers. */
  ghost predicate Executes(b: Build, v: View, root: Path, answers: seq<Answer>) {
    forall i :: 0 <= i < |answers| ==> Answered(b, v, root, answers[..i], answers[i])
  }

  ghost predicate Answered(b: Build, v: View, root: Path, before: seq<Answer>, a: Answer) {
    b.step(before).Query? && a == Reply(b, v, root, before, b.step(before).k, b.step(before).at)
  }

  /** Every place the run names is one the recorder can classify. */
  ghost predicate Proper(b: Build, root: Path, scratch: Path, answers: seq<Answer>) {
    forall i :: 0 <= i < |answers| && b.step(answers[..i]).Query? ==> ProperLoc(root, scratch, b.step(answers[..i]).at)
  }

  /** What the recorder holds after the run. */
  ghost function Recorded(b: Build, v: View, root: Path, scratch: Path, answers: seq<Answer>): Record
    decreases |answers|
  {
    if answers == [] then Record(true, [])
    else
      var r := Recorded(b, v, root, scratch, answers[..|answers| - 1]);
      var s := b.step(answers[..|answers| - 1]);
      if !s.Query? then r else Observed(v, root, scratch, r, s.k, Place(root, scratch, s.at))
  }

  /** The tree being built does not lie inside the build's own, newly made directory. */
  ghost predicate Apart(root: Path, scratch: Path) {
    !(scratch <= root)
  }

  /** The build observes the same in (w, other) at everything probed. */
  ghost predicate ProbesHold(probes: seq<Probe>, w: View, other: Path) {
    forall i :: 0 <= i < |probes| ==> Observe(w, probes[i].op, other + probes[i].rel) == probes[i].sum
  }

  lemma {:induction false} RecordedGrows(b: Build, v: View, root: Path, scratch: Path, answers: seq<Answer>)
    requires answers != []
    ensures var r, s := Recorded(b, v, root, scratch, answers[..|answers| - 1]), Recorded(b, v, root, scratch, answers);
      (s.cacheable ==> r.cacheable) && r.probes <= s.probes
  {
  }

  lemma {:induction false} RecordedIsFromView(b: Build, v: View, root: Path, scratch: Path, answers: seq<Answer>)
    ensures ProbesHold(Recorded(b, v, root, scratch, answers).probes, v, root)
    decreases |answers|
  {
    if answers != [] {
      var before := answers[..|answers| - 1];
      RecordedIsFromView(b, v, root, scratch, before);
      var s := b.step(before);
      if s.Query? {
        var p := Place(root, scratch, s.at);
        if root <= p { assert root + p[|root|..] == p; }
      }
    }
  }

  lemma PrefixesCompare(a: Path, b: Path, p: Path)
    requires a <= p && b <= p
    ensures a <= b || b <= a
  {
    if |a| <= |b| { assert a == p[..|a|] == b[..|a|]; }
    else { assert b == p[..|b|] == a[..|b|]; }
  }

  ghost predicate CleanProbes(probes: seq<Probe>) {
    forall i :: 0 <= i < |probes| ==> Clean(probes[i].rel)
  }

  lemma {:induction false} RecordedClean(b: Build, v: View, root: Path, scratch: Path, answers: seq<Answer>)
    requires Clean(root) && Clean(scratch) && Proper(b, root, scratch, answers)
    ensures CleanProbes(Recorded(b, v, root, scratch, answers).probes)
    decreases |answers|
  {
    if answers != [] {
      var n := |answers| - 1;
      var before := answers[..n];
      forall i | 0 <= i < n ensures before[..i] == answers[..i] {}
      RecordedClean(b, v, root, scratch, before);
      var s := b.step(before);
      if s.Query? {
        assert ProperLoc(root, scratch, s.at);
        var p := Place(root, scratch, s.at);
        assert Clean(p);
      }
    }
  }

  /** A question below the root that leaves the run cacheable has its probe. */
  lemma ProbedBelowRoot(v: View, root: Path, scratch: Path, r: Record, k: Kind, rel: Path)
    requires !(scratch <= root + rel) && Observed(v, root, scratch, r, k, root + rel).cacheable
    ensures !k.Other? && HasProbe(Observed(v, root, scratch, r, k, root + rel).probes, OpOf(k), rel)
  {
    var p := root + rel;
    assert p[|root|..] == rel;
    var r' := Observed(v, root, scratch, r, k, p);
    if !HasProbe(r.probes, OpOf(k), rel) {
      assert r'.probes[|r.probes|] == Probe(OpOf(k), rel, Observe(v, OpOf(k), p));
    }
  }

  /** Replay: a run whose recording is cacheable goes through unchanged, answer
      by answer, wherever all of its probes observe the same. */
  lemma {:induction false} Replay(b: Build, v: View, root: Path, scratch: Path, answers: seq<Answer>, w: View,
                                  other: Path)
    requires Sane(v) && Sane(w)
    requires Executes(b, v, root, answers) && Proper(b, root, scratch, answers)
    requires Recorded(b, v, root, scratch, answers).cacheable
    requires ProbesHold(Recorded(b, v, root, scratch, answers).probes, w, other)
    ensures Executes(b, w, other, answers)
    decreases |answers|
  {
    hide Sane, Observed;
    if answers != [] {
      var n := |answers| - 1;
      var before := answers[..n];
      forall i | 0 <= i < n ensures answers[..i] == before[..i] && answers[i] == before[i] {}
      RecordedGrows(b, v, root, scratch, answers);
      var r, r' := Recorded(b, v, root, scratch, before), Recorded(b, v, root, scratch, answers);
      forall i | 0 <= i < |r.probes| ensures Observe(w, r.probes[i].op, other + r.probes[i].rel) == r.probes[i].sum {
        assert r'.probes[i] == r.probes[i];
      }
      assert forall i :: 0 <= i < n ==> Answered(b, v, root, answers[..i], answers[i]);
      Replay(b, v, root, scratch, before, w, other);
      assert Answered(b, v, root, before, answers[n]);
      RecordedIsFromView(b, v, root, scratch, before);
      RecordedIsFromView(b, v, root, scratch, answers);
      var s := b.step(before);
      SameReply(b, v, root, scratch, r, before, s.k, s.at, w, other, r');
      forall i | 0 <= i < |answers| ensures Answered(b, w, other, answers[..i], answers[i]) {
        if i < n { assert Answered(b, w, other, before[..i], before[i]); }
      }
    }
  }

  lemma SameReply(b: Build, v: View, root: Path, scratch: Path, r: Record, before: seq<Answer>, k: Kind, at: Loc,
                  w: View, other: Path, r': Record)
    requires Sane(v) && Sane(w) && ProperLoc(root, scratch, at)
    requires ProbesHold(r.probes, v, root)
    requires r' == Observed(v, root, scratch, r, k, Place(root, scratch, at))
    requires r'.cacheable && ProbesHold(r'.probes, w, other) && ProbesHold(r'.probes, v, root)
    ensures Reply(b, v, root, before, k, at) == Reply(b, w, other, before, k, at)
  {
    match at
    case InRoot(rel) =>
      ProbedBelowRoot(v, root, scratch, r, k, rel);
      var i :| 0 <= i < |r'.probes| && r'.probes[i].op == OpOf(k) && r'.probes[i].rel == rel;
      ObservationDecides(v, root + rel, w, other + rel, k);
    case InScratch(_) =>
    case Elsewhere(abs) =>
  }

  // ---- what a run records, from its questions alone ---------------------------------

  /** Question i of the run. */
  ghost predicate Asks(b: Build, answers: seq<Answer>, i: nat, k: Kind, at: Loc) {
    i < |answers| && b.step(answers[..i]) == Query(k, at)
  }

  /** The run asks nothing but what a probe captures, below the root or in its own directory. */
  ghost predicate OnlyCaptured(b: Build, answers: seq<Answer>) {
    forall i, k, at :: Asks(b, answers, i, k, at) ==> k != Other && !at.Elsewhere?
  }

  /** One probe for each thing the run observed below the root, with what the view showed there. */
  ghost predicate ProbesOf(b: Build, v: View, root: Path, answers: seq<Answer>, probes: seq<Probe>) {
    && (forall i, k, rel :: Asks(b, answers, i, k, InRoot(rel)) ==> HasProbe(probes, OpOf(k), rel))
    && (forall j :: 0 <= j < |probes| ==> ObservedBelow(b, answers, probes[j].op, probes[j].rel))
    && (forall j :: 0 <= j < |probes| ==> probes[j].sum == Observe(v, probes[j].op, root + probes[j].rel))
    && (forall i, j :: 0 <= i < j < |probes| ==> probes[i].op != probes[j].op || probes[i].rel != probes[j].rel)
  }

  /** Some question of the run observed this below the root. */
  ghost predicate ObservedBelow(b: Build, answers: seq<Answer>, op: Op, rel: Path) {
    exists i, k :: Asks(b, answers, i, k, InRoot(rel)) && OpOf(k) == op
  }

  lemma AsksSnoc(b: Build, answers: seq<Answer>, a: Answer, i: nat, k: Kind, at: Loc)
    ensures Asks(b, answers + [a], i, k, at)
       <==> Asks(b, answers, i, k, at) || (i == |answers| && b.step(answers) == Query(k, at))
  {
    if i <= |answers| { assert (answers + [a])[..i] == answers[..i] && answers[..|answers|] == answers; }
  }

  lemma ObservedSnoc(b: Build, answers: seq<Answer>, a: Answer, op: Op, rel: Path)
    ensures ObservedBelow(b, answers + [a], op, rel)
       <==> || ObservedBelow(b, answers, op, rel)
            || exists k :: b.step(answers) == Query(k, InRoot(rel)) && OpOf(k) == op
  {
    hide Asks;
    forall i: nat, k ensures Asks(b, answers + [a], i, k, InRoot(rel))
        <==> Asks(b, answers, i, k, InRoot(rel)) || (i == |answers| && b.step(answers) == Query(k, InRoot(rel)))
    {
      AsksSnoc(b, answers, a, i, k, InRoot(rel));
    }
    if k :| b.step(answers) == Query(k, InRoot(rel)) && OpOf(k) == op {
      assert Asks(b, answers + [a], |answers|, k, InRoot(rel));
    }
  }

  /** A question below the root adds its probe, unless that is there. */
  lemma ProbesSnoc(b: Build, v: View, root: Path, answers: seq<Answer>, a: Answer, probes: seq<Probe>, k: Kind,
                   rel: Path)
    requires ProbesOf(b, v, root, answers, probes) && b.step(answers) == Query(k, InRoot(rel))
    ensures ProbesOf(b, v, root, answers + [a],
      if HasProbe(probes, OpOf(k), rel) then probes
      else probes + [Probe(OpOf(k), rel, Observe(v, OpOf(k), root + rel))])
  {
    hide Asks, ObservedBelow, Observe;
    var now := if HasProbe(probes, OpOf(k), rel) then probes
               else probes + [Probe(OpOf(k), rel, Observe(v, OpOf(k), root + rel))];
    forall i: nat, x, y | Asks(b, answers + [a], i, x, InRoot(y)) ensures HasProbe(now, OpOf(x), y) {
      AsksSnoc(b, answers, a, i, x, InRoot(y));
      if Asks(b, answers, i, x, InRoot(y)) {
        assert HasProbe(probes, OpOf(x), y);
        var j :| 0 <= j < |probes| && probes[j].op == OpOf(x) && probes[j].rel == y;
        assert now[j] == probes[j];
      } else if !HasProbe(probes, OpOf(k), rel) {
        assert now[|probes|] == Probe(OpOf(k), rel, Observe(v, OpOf(k), root + rel));
      }
    }
    forall j | 0 <= j < |now| ensures ObservedBelow(b, answers + [a], now[j].op, now[j].rel) {
      ObservedSnoc(b, answers, a, now[j].op, now[j].rel);
      if j < |probes| { assert now[j] == probes[j]; }
    }
  }

  /** Any other question adds none. */
  lemma ProbesStay(b: Build, v: View, root: Path, answers: seq<Answer>, a: Answer, probes: seq<Probe>)
    requires ProbesOf(b, v, root, answers, probes) && b.step(answers).Query? && !b.step(answers).at.InRoot?
    ensures ProbesOf(b, v, root, answers + [a], probes)
  {
    hide Asks, ObservedBelow, Observe;
    forall i: nat, x, y | Asks(b, answers + [a], i, x, InRoot(y)) ensures HasProbe(probes, OpOf(x), y) {
      AsksSnoc(b, answers, a, i, x, InRoot(y));
    }
    forall j | 0 <= j < |probes| ensures ObservedBelow(b, answers + [a], probes[j].op, probes[j].rel) {
      ObservedSnoc(b, answers, a, probes[j].op, probes[j].rel);
    }
  }

  /** A recording can be kept exactly if the run asks only what is captured, and
      then its probes are those of the run's questions. */
  lemma {:induction false} RecordedExact(b: Build, v: View, root: Path, scratch: Path, answers: seq<Answer>)
    requires Proper(b, root, scratch, answers) && forall i :: 0 <= i < |answers| ==> b.step(answers[..i]).Query?
    ensures var r := Recorded(b, v, root, scratch, answers);
      && (r.cacheable <==> OnlyCaptured(b, answers))
      && (r.cacheable ==> ProbesOf(b, v, root, answers, r.probes))
    decreases |answers|
  {
    hide Asks, ProbesOf, ProperLoc;
    if answers == [] {
      NoQuestions(b, v, root);
    } else {
      var n := |answers| - 1;
      var before, a := answers[..n], answers[n];
      assert answers == before + [a];
      forall i | 0 <= i < n ensures before[..i] == answers[..i] {}
      RecordedExact(b, v, root, scratch, before);
      RecordedSnoc(b, v, root, scratch, before, a);
      var s := b.step(before);
      CapturedSnoc(b, before, a);
      assert ProperLoc(root, scratch, s.at);
      NotedStep(v, root, scratch, Recorded(b, v, root, scratch, before), s.k, s.at);
      if s.k != Other && Recorded(b, v, root, scratch, before).cacheable {
        if s.at.InRoot? {
          ProbesSnoc(b, v, root, before, a, Recorded(b, v, root, scratch, before).probes, s.k, s.at.rel);
        } else {
          ProbesStay(b, v, root, before, a, Recorded(b, v, root, scratch, before).probes);
        }
      }
    }
  }

  lemma NoQuestions(b: Build, v: View, root: Path)
    ensures OnlyCaptured(b, []) && ProbesOf(b, v, root, [], [])
  {
  }

  lemma CapturedSnoc(b: Build, answers: seq<Answer>, a: Answer)
    requires b.step(answers).Query?
    ensures OnlyCaptured(b, answers + [a])
       <==> OnlyCaptured(b, answers) && b.step(answers).k != Other && !b.step(answers).at.Elsewhere?
  {
    hide Asks;
    forall i: nat, k, at ensures Asks(b, answers + [a], i, k, at)
        <==> Asks(b, answers, i, k, at) || (i == |answers| && b.step(answers) == Query(k, at))
    {
      AsksSnoc(b, answers, a, i, k, at);
    }
    assert Asks(b, answers + [a], |answers|, b.step(answers).k, b.step(answers).at);
  }

  /** What one question does to a record, by what is asked and where. */
  lemma NotedStep(v: View, root: Path, scratch: Path, r: Record, k: Kind, at: Loc)
    requires ProperLoc(root, scratch, at)
    ensures var r' := Observed(v, root, scratch, r, k, Place(root, scratch, at));
      && (r'.cacheable <==> r.cacheable && k != Other && !at.Elsewhere?)
      && (r'.cacheable && at.InScratch? ==> r' == r)
      && (r'.cacheable && at.InRoot? ==>
            r'.probes == if HasProbe(r.probes, OpOf(k), at.rel) then r.probes
                         else r.probes + [Probe(OpOf(k), at.rel, Observe(v, OpOf(k), root + at.rel))])
  {
    hide HasProbe, Observe;
    if at.InRoot? { assert (root + at.rel)[|root|..] == at.rel; }
  }

  // ---- the cache --------------------------------------------------------------------

  /** A directory relative to its root, and the overlay applied to it. */
  datatype Key = Key(dir: Path, overlay: string)

  /** A stored build; origins are relative to the root. */
  datatype Entry = Entry(probes: seq<Probe>, objs: string, origins: seq<Option<Path>>)

  datatype Result = Result(objs: string, origins: seq<Option<Path>>)

  /** The result of a run, with origins as absolute paths. */
  function Located(root: Path, scratch: Path, origins: seq<Option<Loc>>): seq<Option<Path>> {
    seq(|origins|, i requires 0 <= i < |origins| =>
      if origins[i].None? then None else Some(Place(root, scratch, origins[i].value)))
  }

  function Rerooted(root: Path, origins: seq<Option<Path>>): seq<Option<Path>> {
    seq(|origins|, i requires 0 <= i < |origins| =>
      if origins[i].None? then None else Some(Join(root, origins[i].value)))
  }

  /** The text of a relative path starts with two dots. */
  predicate DotDot(rel: Path) {
    rel != [] && UP <= rel[0]
  }

  /** The run that an entry came from. */
  datatype Origin = Origin(view: View, root: Path, scratch: Path, answers: seq<Answer>)

  /** o is a complete, replayable run of b. */
  ghost predicate IsRun(b: Build, o: Origin) {
    && Sane(o.view) && Clean(o.root) && Clean(o.scratch) && Apart(o.root, o.scratch)
    && Executes(b, o.view, o.root, o.answers) && Proper(b, o.root, o.scratch, o.answers)
    && b.step(o.answers).Done?
  }

  /** The entry holds what that run recorded and returned, origins made relative. */
  ghost predicate HoldsRun(b: Build, e: Entry, o: Origin) {
    && IsRun(b, o)
    && var r := Recorded(b, o.view, o.root, o.scratch, o.answers);
       var s := b.step(o.answers);
       r.cacheable && e.probes == r.probes && e.objs == s.objs && RelativeTo(s.origins, e.origins)
  }

  ghost predicate RelativeTo(origins: seq<Option<Loc>>, rels: seq<Option<Path>>) {
    |rels| == |origins| && forall i :: 0 <= i < |rels| ==>
      (origins[i].None? && rels[i].None?)
      || (&& origins[i].Some? && origins[i].value.InRoot? && Clean(origins[i].value.rel)
          && rels[i] == Some(origins[i].value.rel))
  }

  ghost predicate Justified(b: Build, e: Entry) {
    exists o :: HoldsRun(b, e, o)
  }

  lemma JustifiedClean(b: Build, e: Entry)
    requires Justified(b, e)
    ensures CleanProbes(e.probes)
  {
    hide Sane, Executes, Recorded;
    var o :| HoldsRun(b, e, o);
    RecordedClean(b, o.view, o.root, o.scratch, o.answers);
  }

  /** A fresh run of b in this view, at this root and with this directory of its own, that ends with this result. */
  ghost predicate FreshRun(b: Build, v: View, root: Path, scratch: Path, answers: seq<Answer>, res: Result) {
    && Executes(b, v, root, answers) && b.step(answers).Done?
    && res == Result(b.step(answers).objs, Located(root, scratch, b.step(answers).origins))
  }

  /** Building afresh would return this result. */
  ghost predicate FreshBuild(b: Build, v: View, root: Path, scratch: Path, res: Result) {
    exists answers :: FreshRun(b, v, root, scratch, answers, res)
  }

  /** Building afresh would fail. */
  ghost predicate FailedBuild(b: Build, v: View, root: Path) {
    exists answers :: Executes(b, v, root, answers) && b.step(answers).Failed?
  }

  lemma FreshRunIsFresh(b: Build, v: View, root: Path, scratch: Path, answers: seq<Answer>, res: Result)
    requires FreshRun(b, v, root, scratch, answers, res)
    ensures FreshBuild(b, v, root, scratch, res)
  {
  }

  /** A justified entry whose probes match gives exactly the result of a fresh run. */
  lemma HitIsFresh(b: Build, e: Entry, v: View, root: Path) returns (answers: seq<Answer>)
    requires Justified(b, e) && Sane(v) && ProbesHold(e.probes, v, root)
    ensures forall scratch :: FreshRun(b, v, root, scratch, answers, Result(e.objs, Rerooted(root, e.origins)))
  {
    hide Sane, Recorded, Executes, Proper;
    var o :| HoldsRun(b, e, o);
    Replay(b, o.view, o.root, o.scratch, o.answers, v, root);
    answers := o.answers;
    forall scratch ensures Located(root, scratch, b.step(answers).origins) == Rerooted(root, e.origins) {
      SameOrigins(root, scratch, b.step(answers).origins, e.origins);
    }
  }

  lemma SameOrigins(root: Path, scratch: Path, origins: seq<Option<Loc>>, rels: seq<Option<Path>>)
    requires RelativeTo(origins, rels)
    ensures Located(root, scratch, origins) == Rerooted(root, rels)
  {
    forall i | 0 <= i < |rels| ensures Located(root, scratch, origins)[i] == Rerooted(root, rels)[i] {
      if rels[i].Some? { JoinClean(root, rels[i].value); }
    }
  }

  /** A deterministic build has one run per view and root ... */
  lemma {:induction false} RunsAgree(b: Build, v: View, root: Path, a1: seq<Answer>, a2: seq<Answer>)
    requires Executes(b, v, root, a1) && Executes(b, v, root, a2)
    requires !b.step(a1).Query? && !b.step(a2).Query?
    ensures a1 == a2
  {
    PrefixAgrees(b, v, root, a1, a2, if |a1| <= |a2| then |a1| else |a2|);
    assert a1[..|a1|] == a1 && a2[..|a2|] == a2;
    if |a1| <= |a2| { NoLonger(b, v, root, a1, a2); } else { NoLonger(b, v, root, a2, a1); }
  }

  lemma NoLonger(b: Build, v: View, root: Path, a1: seq<Answer>, a2: seq<Answer>)
    requires Executes(b, v, root, a2) && a1 <= a2 && !b.step(a1).Query?
    ensures a1 == a2
  {
    assert a2[..|a1|] == a1;
    assert |a1| < |a2| ==> Answered(b, v, root, a2[..|a1|], a2[|a1|]);
  }

  lemma {:induction false} PrefixAgrees(b: Build, v: View, root: Path, a1: seq<Answer>, a2: seq<Answer>, n: nat)
    requires Executes(b, v, root, a1) && Executes(b, v, root, a2) && n <= |a1| && n <= |a2|
    ensures a1[..n] == a2[..n]
  {
    if n > 0 {
      PrefixAgrees(b, v, root, a1, a2, n - 1);
      assert Answered(b, v, root, a1[..n - 1], a1[n - 1]);
      assert Answered(b, v, root, a2[..n - 1], a2[n - 1]);
      assert a1[..n] == a1[..n - 1] + [a1[n - 1]] && a2[..n] == a2[..n - 1] + [a2[n - 1]];
    }
  }

  /** ... so building afresh has one outcome: one result, or failure. */
  lemma FreshBuildUnique(b: Build, v: View, root: Path, scratch: Path, r1: Result, r2: Result)
    requires FreshBuild(b, v, root, scratch, r1)
    ensures FreshBuild(b, v, root, scratch, r2) ==> r1 == r2
    ensures !FailedBuild(b, v, root)
  {
    hide Executes;
    var a1 :| FreshRun(b, v, root, scratch, a1, r1);
    if a2 :| FreshRun(b, v, root, scratch, a2, r2) { RunsAgree(b, v, root, a1, a2); }
    if a2 :| Executes(b, v, root, a2) && b.step(a2).Failed? { RunsAgree(b, v, root, a1, a2); }
  }

  /** Two entries of one key that both match therefore agree. */
  lemma MatchingEntriesAgree(b: Build, e1: Entry, e2: Entry, v: View, root: Path)
    requires Justified(b, e1) && Justified(b, e2) && Sane(v)
    requires ProbesHold(e1.probes, v, root) && ProbesHold(e2.probes, v, root)
    ensures e1.objs == e2.objs && Rerooted(root, e1.origins) == Rerooted(root, e2.origins)
  {
    hide Sane, Justified, ProbesHold, FreshRun, FreshBuild;
    var a1 := HitIsFresh(b, e1, v, root);
    var a2 := HitIsFresh(b, e2, v, root);
    var r1, r2 := Result(e1.objs, Rerooted(root, e1.origins)), Result(e2.objs, Rerooted(root, e2.origins));
    FreshRunIsFresh(b, v, root, [], a1, r1);
    FreshRunIsFresh(b, v, root, [], a2, r2);
    FreshBuildUnique(b, v, root, [], r1, r2);
  }

  ghost predicate NoneMatches(entries: seq<Entry>, v: View, root: Path) {
    forall i :: 0 <= i < |entries| ==> !ProbesHold(entries[i].probes, v, root)
  }

  /** Each origin is unknown or lies below the root, on a way that does not begin with two dots. */
  ghost predicate OriginsKept(origins: seq<Option<Loc>>) {
    forall i :: 0 <= i < |origins| && origins[i].Some? ==>
      origins[i].value.InRoot? && (origins[i].value.rel == [] || !(UP <= origins[i].value.rel[0]))
  }

  /** The run ends in a result that can be kept. */
  ghost predicate Keeps(b: Build, answers: seq<Answer>) {
    b.step(answers).Done? && OnlyCaptured(b, answers) && OriginsKept(b.step(answers).origins)
  }

  /** The entry is that of this run: its result, its origins as ways from the root, its probes. */
  ghost predicate EntryOf(b: Build, v: View, root: Path, answers: seq<Answer>, e: Entry) {
    b.step(answers).Done? && e.objs == b.step(answers).objs && RelativeTo(b.step(answers).origins, e.origins) &&
    ProbesOf(b, v, root, answers, e.probes)
  }

  lemma BelowExact(root: Path, scratch: Path, locs: seq<Option<Loc>>)
    requires Clean(root) && Clean(scratch) && Apart(root, scratch) && ProperOrigins(root, scratch, locs)
    ensures AllBelow(root, Located(root, scratch, locs)) <==> OriginsKept(locs)
    ensures OriginsKept(locs) ==> RelativeTo(locs, Relatives(root, Located(root, scratch, locs)))
  {
    var origins := Located(root, scratch, locs);
    forall i | 0 <= i < |locs| && locs[i].Some?
      ensures Clean(origins[i].value)
      ensures !DotDot(Rel(root, origins[i].value))
         <==> locs[i].value.InRoot? && (locs[i].value.rel == [] || !(UP <= locs[i].value.rel[0]))
      ensures locs[i].value.InRoot? ==> Clean(locs[i].value.rel) && Rel(root, origins[i].value) == locs[i].value.rel
    {
      OneBelow(root, scratch, locs[i].value);
    }
  }

  lemma OneBelow(root: Path, scratch: Path, at: Loc)
    requires Clean(root) && Clean(scratch) && Apart(root, scratch) && ProperLoc(root, scratch, at)
    requires at.InScratch? ==> !(root <= scratch)
    ensures var p := Place(root, scratch, at);
      && Clean(p)
      && (!DotDot(Rel(root, p)) <==> at.InRoot? && (at.rel == [] || !(UP <= at.rel[0])))
      && (at.InRoot? ==> Clean(at.rel) && Rel(root, p) == at.rel)
  {
    var p := Place(root, scratch, at);
    RelInside(root, p);
    match at
    case InRoot(rel) => assert p[|root|..] == rel;
    case InScratch(rel) => if root <= p { PrefixesCompare(root, scratch, p); }
    case Elsewhere(abs) =>
  }

  function EntriesAt(m: map<Key, seq<Entry>>, k: Key): seq<Entry> {
    if k in m then m[k] else []
  }

  /** One entry more, under this key, and it is the entry of this run. */
  ghost predicate Grown(before: map<Key, seq<Entry>>, after: map<Key, seq<Entry>>, k: Key, b: Build, v: View,
                        root: Path, answers: seq<Answer>)
  {
    exists e :: EntryOf(b, v, root, answers, e) && after == before[k := EntriesAt(before, k) + [e]]
  }

  lemma StoredGrows(before: map<Key, seq<Entry>>, k: Key, b: Build, v: View, root: Path, answers: seq<Answer>, e: Entry)
    ensures EntryOf(b, v, root, answers, e) ==>
      Grown(before, before[k := EntriesAt(before, k) + [e]], k, b, v, root, answers)
  {
    hide EntryOf;
  }

  class BuildCache {
    /** What a build of each key does; the key alone decides it. */
    ghost const builds: Key -> Build
    var entries: map<Key, seq<Entry>>
    var hits: nat
    var misses: nat

    /** Every entry came from a run of the build of its key. */
    ghost predicate Sound()
      reads this
    {
      forall k, i :: k in entries && 0 <= i < |entries[k]| ==> Justified(builds(k), entries[k][i])
    }

    constructor (ghost builds: Key -> Build)
      ensures Sound() && this.builds == builds && entries == map[] && hits == 0 && misses == 0
    {
      this.builds := builds;
      entries, hits, misses := map[], 0, 0;
    }

    function Entries(k: Key): seq<Entry>
      reads this
    {
      EntriesAt(entries, k)
    }

    /** The first entry of the key that matches, or none. A hit is what a fresh
        build of that tree would have returned. */
    method Lookup(root: Path, dir: Path, overlay: string, view: View) returns (res: Option<Result>)
      requires Sound() && Sane(view) && Clean(root) && Clean(dir)
      modifies this`hits
      ensures Sound() && hits == old(hits) + if res.Some? then 1 else 0
      ensures var k := Key(Rel(root, dir), overlay);
        && (res.Some? ==> forall scratch :: FreshBuild(builds(k), view, root, scratch, res.value))
        && (res.None? <==> NoneMatches(Entries(k), view, root))
    {
      hide Sane, Justified, FreshRun, FreshBuild, ProbesHold;
      var k := Key(Rel(root, dir), overlay);
      var candidates := Entries(k);
      for i := 0 to |candidates|
        invariant hits == old(hits)
        invariant forall j :: 0 <= j < i ==> !ProbesHold(candidates[j].probes, view, root)
      {
        var e := candidates[i];
        JustifiedClean(builds(k), e);
        var same := AllMatch(e.probes, view, root);
        if same {
          ghost var answers := HitIsFresh(builds(k), e, view, root);
          res := Some(Result(e.objs, Rerooted(root, e.origins)));
          forall scratch ensures FreshBuild(builds(k), view, root, scratch, res.value) {
            FreshRunIsFresh(builds(k), view, root, scratch, answers, res.value);
          }
          hits := hits + 1;
          assert !NoneMatches(candidates, view, root);
          return;
        }
      }
      return None;
    }

    /** Keep the result of a run, unless something it looked at or came from lies outside the root. */
    method Store(root: Path, dir: Path, overlay: string, rec: Recorder, objs: string,
                 origins: seq<Option<Path>>, ghost o: Origin)
      requires Sound() && Clean(root) && Clean(dir)
      requires forall i :: 0 <= i < |origins| && origins[i].Some? ==> Clean(origins[i].value)
      requires var b := builds(Key(Rel(root, dir), overlay));
        && IsRun(b, o) && o.root == root
        && rec.State() == Recorded(b, o.view, root, o.scratch, o.answers)
        && b.step(o.answers).objs == objs && origins == Located(root, o.scratch, b.step(o.answers).origins)
        && ProperOrigins(root, o.scratch, b.step(o.answers).origins)
      modifies this
      ensures Sound() && misses == old(misses) + 1 && hits == old(hits)
      ensures var k := Key(Rel(root, dir), overlay);
        if rec.cacheable && AllBelow(root, origins)
        then entries == old(entries)[k := old(Entries(k)) + [Entry(rec.probes, objs, Relatives(root, origins))]]
        else entries == old(entries)
    {
      misses := misses + 1;
      if !rec.cacheable { return; }
      var k := Key(Rel(root, dir), overlay);
      var below := BelowRoot(root, origins);
      if !below { return; }
      var e := Entry(rec.probes, objs, Relatives(root, origins));
      StoredHoldsRun(builds(k), root, o, e, origins);
      entries := entries[k := Entries(k) + [e]];
    }

    /** The build of a directory: reuse a matching entry, or else run the build
        through a recorder. Either way the result is that of a fresh build. A
        result is kept exactly when the run asks only what is captured and has
        its origins below the root, and the entry is that of the run. */
    method Build(b: Build, root: Path, dir: Path, overlay: string, view: View, scratch: Path)
      returns (res: Option<Result>)
      requires Sound() && Sane(view) && Clean(root) && Clean(dir) && Clean(scratch) && Apart(root, scratch)
      requires b == builds(Key(Rel(root, dir), overlay))
      requires exists total :: Ends(b, view, root, scratch, total)
      modifies this
      ensures Sound()
      ensures res.Some? ==> FreshBuild(b, view, root, scratch, res.value)
      ensures res.None? ==> FailedBuild(b, view, root)
      ensures !NoneMatches(old(Entries(Key(Rel(root, dir), overlay))), view, root) ==>
        res.Some? && hits == old(hits) + 1 && misses == old(misses) && entries == old(entries)
      ensures NoneMatches(old(Entries(Key(Rel(root, dir), overlay))), view, root) ==>
        && hits == old(hits) && misses == old(misses) + (if res.Some? then 1 else 0)
        && forall total :: Ends(b, view, root, scratch, total) ==>
             && (!Keeps(b, total) ==> entries == old(entries))
             && (Keeps(b, total) ==>
                   Grown(old(entries), entries, Key(Rel(root, dir), overlay), b, view, root, total))
    {
      hide Sane, Executes, Proper, Recorded, FreshRun, ProbesHold, Justified, Ends, Keeps, Grown, NoneMatches;
      res := Lookup(root, dir, overlay, view);
      if res.Some? { return; }
      ghost var total :| Ends(b, view, root, scratch, total);
      var answers, rec := Run(b, root, view, scratch, total);
      forall other | Ends(b, view, root, scratch, other) ensures other == total {
        OneEnd(b, view, root, scratch, total, other);
      }
      var s := b.step(answers);
      if s.Failed? {
        FailedKeepsNothing(b, view, root, scratch, answers);
        return None;
      }
      var located := Located(root, scratch, s.origins);
      EndFacts(b, view, root, scratch, answers);
      Store(root, dir, overlay, rec, s.objs, located, Origin(view, root, scratch, answers));
      KeptEntry(b, view, root, scratch, answers, rec.probes);
      StoredGrows(old(entries), Key(Rel(root, dir), overlay), b, view, root, answers,
                  Entry(rec.probes, s.objs, Relatives(root, located)));
      res := Some(Result(s.objs, located));
      FreshRunIsFresh(b, view, root, scratch, answers, res.value);
    }

    /** Two builds of one directory that share the cache, as when a base and a
        head are compared: where the second tree shows the same at everything
        that the first build observed, it is built from the cache, and the
        result is the same below its own root. */
    method BuildBoth(b: Build, overlay: string, root: Path, dir: Path, view: View, scratch: Path,
                     root': Path, dir': Path, view': View, scratch': Path, ghost total: seq<Answer>)
      returns (base: Option<Result>, head: Option<Result>)
      requires Sound() && Sane(view) && Clean(root) && Clean(dir) && Clean(scratch) && Apart(root, scratch)
      requires Sane(view') && Clean(root') && Clean(dir') && Clean(scratch') && Apart(root', scratch')
      requires Rel(root, dir) == Rel(root', dir') && b == builds(Key(Rel(root, dir), overlay))
      requires Ends(b, view, root, scratch, total) && exists other :: Ends(b, view', root', scratch', other)
      modifies this
      ensures Sound()
      ensures Keeps(b, total) && SameObserved(b, total, view, root, view', root') ==>
        && hits == old(hits) + (if NoneMatches(old(Entries(Key(Rel(root, dir), overlay))), view, root) then 1 else 2)
        && base == Some(Result(b.step(total).objs, Located(root, scratch, b.step(total).origins)))
        && head == Some(Result(b.step(total).objs, Located(root', scratch', b.step(total).origins)))
    {
      hide Sane, Executes, Proper, Recorded, ProbesHold, Justified, Ends, Keeps, Grown, NoneMatches, SameObserved;
      hide FreshBuild, FailedBuild, FreshRun;
      ghost var k := Key(Rel(root, dir), overlay);
      base := Build(b, root, dir, overlay, view, scratch);
      if Keeps(b, total) && SameObserved(b, total, view, root, view', root') {
        RunKnown(b, view, root, scratch, total);
        RunGives(b, view, root, scratch, total, base);
        EntriesMatchAgain(b, total, view, root, scratch, view', root', old(entries), entries, k);
      }
      head := Build(b, root', dir', overlay, view', scratch');
      if Keeps(b, total) && SameObserved(b, total, view, root, view', root') {
        SameRun(b, total, view, root, scratch, view', root');
        RunGives(b, view', root', scratch', total, head);
      }
    }
  }

  /** total is a whole run of the build, ending in a result or a failure. Its
      questions and origins can be classified, and at its own directory the view shows what it wrote. */
  ghost predicate Ends(b: Build, v: View, root: Path, scratch: Path, total: seq<Answer>) {
    && Executes(b, v, root, total) && Proper(b, root, scratch, total) && !b.step(total).Query?
    && (b.step(total).Done? ==> ProperOrigins(root, scratch, b.step(total).origins))
    && (forall i :: 0 <= i < |total| ==> ShowsOwn(b, v, scratch, total[..i]))
  }

  ghost predicate ShowsOwn(b: Build, v: View, scratch: Path, before: seq<Answer>) {
    var s := b.step(before);
    s.Query? && s.at.InScratch? ==> Ask(v, s.k, scratch + s.at.rel) == b.own(before, s.k, s.at.rel)
  }

  /** Drive the build through a recorder, question by question, until it is done or fails. */
  method Run(b: Build, root: Path, view: View, scratch: Path, ghost total: seq<Answer>)
    returns (answers: seq<Answer>, rec: Recorder)
    requires Clean(root) && Clean(scratch) && Ends(b, view, root, scratch, total)
    ensures answers == total && !b.step(answers).Query?
    ensures fresh(rec) && rec.State() == Recorded(b, view, root, scratch, total)
  {
    hide Ends, Recorded;
    rec := new Recorder(view, root, scratch, true);
    answers := [];
    Nothing(b, view, root, scratch);
    while b.step(answers).Query?
      invariant answers <= total && rec.Valid() && fresh(rec)
      invariant rec.view == view && rec.root == root && rec.scratch == scratch
      invariant rec.State() == Recorded(b, view, root, scratch, answers)
      decreases |total| - |answers|
    {
      var s := b.step(answers);
      NextAnswer(b, view, root, scratch, total, answers);
      var a := rec.Answer(s.k, Place(root, scratch, s.at));
      RecordedSnoc(b, view, root, scratch, answers, a);
      answers := answers + [a];
    }
    EndReached(b, view, root, scratch, total, answers);
  }

  lemma RunKnown(b: Build, v: View, root: Path, scratch: Path, answers: seq<Answer>)
    requires Ends(b, v, root, scratch, answers) && Keeps(b, answers)
    ensures Executes(b, v, root, answers) && b.step(answers).Done?
  {
    hide Executes, OnlyCaptured;
  }

  lemma OneEnd(b: Build, v: View, root: Path, scratch: Path, a1: seq<Answer>, a2: seq<Answer>)
    requires Ends(b, v, root, scratch, a1) && Ends(b, v, root, scratch, a2)
    ensures a1 == a2
  {
    hide Executes;
    RunsAgree(b, v, root, a1, a2);
  }

  lemma FailedKeepsNothing(b: Build, v: View, root: Path, scratch: Path, answers: seq<Answer>)
    requires Ends(b, v, root, scratch, answers) && b.step(answers).Failed?
    ensures FailedBuild(b, v, root) && !Keeps(b, answers)
  {
    hide Executes, OnlyCaptured;
  }

  lemma EndFacts(b: Build, v: View, root: Path, scratch: Path, answers: seq<Answer>)
    requires Ends(b, v, root, scratch, answers) && b.step(answers).Done?
    requires Sane(v) && Clean(root) && Clean(scratch) && Apart(root, scratch)
    ensures IsRun(b, Origin(v, root, scratch, answers)) && ProperOrigins(root, scratch, b.step(answers).origins)
    ensures var res := Result(b.step(answers).objs, Located(root, scratch, b.step(answers).origins));
      && FreshRun(b, v, root, scratch, answers, res)
      && forall i :: 0 <= i < |res.origins| && res.origins[i].Some? ==> Clean(res.origins[i].value)
  {
    hide Executes, Sane;
    var locs := b.step(answers).origins;
    forall i | 0 <= i < |locs| && locs[i].Some? ensures Clean(Place(root, scratch, locs[i].value)) {
      assert ProperLoc(root, scratch, locs[i].value);
    }
  }

  /** What decides whether a run's result is stored, and what is stored, in terms of the run. */
  lemma KeptEntry(b: Build, v: View, root: Path, scratch: Path, answers: seq<Answer>, probes: seq<Probe>)
    requires Ends(b, v, root, scratch, answers) && b.step(answers).Done?
    requires Clean(root) && Clean(scratch) && Apart(root, scratch)
    requires probes == Recorded(b, v, root, scratch, answers).probes
    ensures var s := b.step(answers); var located := Located(root, scratch, s.origins);
      && (Recorded(b, v, root, scratch, answers).cacheable && AllBelow(root, located) <==> Keeps(b, answers))
      && (Keeps(b, answers) ==> EntryOf(b, v, root, answers, Entry(probes, s.objs, Relatives(root, located))))
  {
    hide Recorded, OnlyCaptured, OriginsKept, ProbesOf, AllBelow, RelativeTo, Located, Relatives, ProperOrigins;
    AllQueries(b, v, root, answers);
    RecordedExact(b, v, root, scratch, answers);
    BelowExact(root, scratch, b.step(answers).origins);
  }

  lemma AllQueries(b: Build, v: View, root: Path, answers: seq<Answer>)
    requires Executes(b, v, root, answers)
    ensures forall i :: 0 <= i < |answers| ==> b.step(answers[..i]).Query?
  {
    forall i | 0 <= i < |answers| ensures b.step(answers[..i]).Query? {
      assert Answered(b, v, root, answers[..i], answers[i]);
    }
  }

  /** A build whose run is known can only give that run's result. */
  lemma RunGives(b: Build, v: View, root: Path, scratch: Path, answers: seq<Answer>, res: Option<Result>)
    requires Executes(b, v, root, answers) && b.step(answers).Done?
    requires res.Some? ==> FreshBuild(b, v, root, scratch, res.value)
    requires res.None? ==> FailedBuild(b, v, root)
    ensures res == Some(Result(b.step(answers).objs, Located(root, scratch, b.step(answers).origins)))
  {
    hide Executes, FreshBuild, FailedBuild;
    var r := Result(b.step(answers).objs, Located(root, scratch, b.step(answers).origins));
    FreshRunIsFresh(b, v, root, scratch, answers, r);
    FreshBuildUnique(b, v, root, scratch, r, if res.Some? then res.value else r);
  }

  /** The second view shows the same at everything that the run observed below the root. */
  ghost predicate SameObserved(b: Build, answers: seq<Answer>, v: View, root: Path, w: View, other: Path) {
    forall i, k, rel :: Asks(b, answers, i, k, InRoot(rel)) ==>
      Observe(v, OpOf(k), root + rel) == Observe(w, OpOf(k), other + rel)
  }

  lemma SameRun(b: Build, answers: seq<Answer>, v: View, root: Path, scratch: Path, w: View, other: Path)
    requires Ends(b, v, root, scratch, answers) && Keeps(b, answers) && Sane(v) && Sane(w)
    requires SameObserved(b, answers, v, root, w, other)
    ensures Executes(b, w, other, answers)
  {
    hide Sane, Observe;
    forall i | 0 <= i < |answers| ensures Answered(b, w, other, answers[..i], answers[i]) {
      assert Answered(b, v, root, answers[..i], answers[i]);
      var s := b.step(answers[..i]);
      assert Asks(b, answers, i, s.k, s.at);
      if s.at.InRoot? { ObservationDecides(v, root + s.at.rel, w, other + s.at.rel, s.k); }
    }
  }

  /** Whatever entry matches the first view matches the second one. */
  lemma MatchTransfers(b: Build, e: Entry, answers: seq<Answer>, v: View, root: Path, scratch: Path, w: View,
                       other: Path)
    requires Justified(b, e) && ProbesHold(e.probes, v, root) && Sane(v)
    requires Ends(b, v, root, scratch, answers) && SameObserved(b, answers, v, root, w, other)
    ensures ProbesHold(e.probes, w, other)
  {
    hide Sane, Executes, Recorded, Observe, OnlyCaptured, Proper;
    var o :| HoldsRun(b, e, o);
    Replay(b, o.view, o.root, o.scratch, o.answers, v, root);
    RunsAgree(b, v, root, o.answers, answers);
    AllQueries(b, o.view, o.root, o.answers);
    RecordedExact(b, o.view, o.root, o.scratch, o.answers);
    ObservedHolds(b, answers, e.probes, v, root, w, other);
  }

  lemma ObservedHolds(b: Build, answers: seq<Answer>, probes: seq<Probe>, v: View, root: Path, w: View, other: Path)
    requires ProbesHold(probes, v, root) && SameObserved(b, answers, v, root, w, other)
    requires forall j :: 0 <= j < |probes| ==> ObservedBelow(b, answers, probes[j].op, probes[j].rel)
    ensures ProbesHold(probes, w, other)
  {
    hide Asks, Observe;
    forall j | 0 <= j < |probes| ensures Observe(w, probes[j].op, other + probes[j].rel) == probes[j].sum {
      assert ObservedBelow(b, answers, probes[j].op, probes[j].rel);
      var i: nat, k :| Asks(b, answers, i, k, InRoot(probes[j].rel)) && OpOf(k) == probes[j].op;
    }
  }

  /** After a build that could be kept, something in the cache matches the second view. */
  lemma EntriesMatchAgain(b: Build, answers: seq<Answer>, v: View, root: Path, scratch: Path, w: View, other: Path,
                          before: map<Key, seq<Entry>>, after: map<Key, seq<Entry>>, k: Key)
    requires Ends(b, v, root, scratch, answers) && Sane(v) && SameObserved(b, answers, v, root, w, other)
    requires forall i :: 0 <= i < |EntriesAt(before, k)| ==> Justified(b, EntriesAt(before, k)[i])
    requires if NoneMatches(EntriesAt(before, k), v, root) then Grown(before, after, k, b, v, root, answers)
             else after == before
    ensures !NoneMatches(EntriesAt(after, k), w, other)
  {
    hide Ends, Sane, Justified, ProbesHold, SameObserved;
    if NoneMatches(EntriesAt(before, k), v, root) {
      var e :| EntryOf(b, v, root, answers, e) && after == before[k := EntriesAt(before, k) + [e]];
      EntryHolds(b, v, root, answers, e);
      ObservedHolds(b, answers, e.probes, v, root, w, other);
      assert EntriesAt(after, k)[|EntriesAt(before, k)|] == e;
    } else {
      var i :| 0 <= i < |EntriesAt(before, k)| && ProbesHold(EntriesAt(before, k)[i].probes, v, root);
      MatchTransfers(b, EntriesAt(before, k)[i], answers, v, root, scratch, w, other);
    }
  }

  lemma EntryHolds(b: Build, v: View, root: Path, answers: seq<Answer>, e: Entry)
    requires EntryOf(b, v, root, answers, e)
    ensures ProbesHold(e.probes, v, root)
    ensures forall j :: 0 <= j < |e.probes| ==> ObservedBelow(b, answers, e.probes[j].op, e.probes[j].rel)
  {
    hide ObservedBelow, Observe, Asks;
  }

  lemma Nothing(b: Build, v: View, root: Path, scratch: Path)
    ensures Recorded(b, v, root, scratch, []) == Record(true, [])
  {
  }

  lemma RecordedSnoc(b: Build, v: View, root: Path, scratch: Path, answers: seq<Answer>, a: Answer)
    requires b.step(answers).Query?
    ensures var s := b.step(answers);
      Recorded(b, v, root, scratch, answers + [a])
      == Observed(v, root, scratch, Recorded(b, v, root, scratch, answers), s.k, Place(root, scratch, s.at))
  {
    assert (answers + [a])[..|answers|] == answers;
  }

  /** While the build asks, the run goes on, and the view gives the run's next answer. */
  lemma NextAnswer(b: Build, v: View, root: Path, scratch: Path, total: seq<Answer>, answers: seq<Answer>)
    requires Clean(root) && Clean(scratch)
    requires Ends(b, v, root, scratch, total) && answers <= total && b.step(answers).Query?
    ensures var s := b.step(answers);
      Clean(Place(root, scratch, s.at)) && answers + [Ask(v, s.k, Place(root, scratch, s.at))] <= total
  {
    var n := |answers|;
    assert total[..n] == answers && total[..|total|] == total;
    assert Answered(b, v, root, total[..n], total[n]);
    assert ShowsOwn(b, v, scratch, total[..n]);
    assert ProperLoc(root, scratch, b.step(total[..n]).at);
  }

  lemma EndReached(b: Build, v: View, root: Path, scratch: Path, total: seq<Answer>, answers: seq<Answer>)
    requires Ends(b, v, root, scratch, total) && answers <= total && !b.step(answers).Query?
    ensures answers == total && Executes(b, v, root, answers) && Proper(b, root, scratch, answers)
    ensures b.step(answers).Done? ==> ProperOrigins(root, scratch, b.step(answers).origins)
  {
    NoLonger(b, v, root, answers, total);
  }

  method AllMatch(probes: seq<Probe>, v: View, root: Path) returns (same: bool)
    requires CleanProbes(probes)
    ensures same <==> ProbesHold(probes, v, root)
  {
    for i := 0 to |probes|
      invariant forall j :: 0 <= j < i ==> Observe(v, probes[j].op, root + probes[j].rel) == probes[j].sum
    {
      JoinClean(root, probes[i].rel);
      if Observe(v, probes[i].op, Join(root, probes[i].rel)) != probes[i].sum { return false; }
    }
    return true;
  }

  function Relatives(root: Path, origins: seq<Option<Path>>): seq<Option<Path>> {
    seq(|origins|, i requires 0 <= i < |origins| =>
      if origins[i].None? then None else Some(Rel(root, origins[i].value)))
  }

  ghost predicate AllBelow(root: Path, origins: seq<Option<Path>>) {
    forall i :: 0 <= i < |origins| && origins[i].Some? ==> !DotDot(Rel(root, origins[i].value))
  }

  method BelowRoot(root: Path, origins: seq<Option<Path>>) returns (r: bool)
    ensures r <==> AllBelow(root, origins)
  {
    for i := 0 to |origins|
      invariant forall j :: 0 <= j < i && origins[j].Some? ==> !DotDot(Rel(root, origins[j].value))
    {
      if origins[i].Some? && DotDot(Rel(root, origins[i].value)) { return false; }
    }
    return true;
  }

  /** Every origin is a place the recorder can classify; the build's own files are
      nothing's origin where they lie below the root. */
  ghost predicate ProperOrigins(root: Path, scratch: Path, origins: seq<Option<Loc>>) {
    forall i :: 0 <= i < |origins| && origins[i].Some? ==>
      ProperLoc(root, scratch, origins[i].value) && (origins[i].value.InScratch? ==> !(root <= scratch))
  }

  lemma StoredHoldsRun(b: Build, root: Path, o: Origin, e: Entry, origins: seq<Option<Path>>)
    requires IsRun(b, o) && o.root == root && Recorded(b, o.view, root, o.scratch, o.answers).cacheable
    requires e.probes == Recorded(b, o.view, root, o.scratch, o.answers).probes && e.objs == b.step(o.answers).objs
    requires origins == Located(root, o.scratch, b.step(o.answers).origins)
    requires ProperOrigins(root, o.scratch, b.step(o.answers).origins)
    requires AllBelow(root, origins) && e.origins == Relatives(root, origins)
    ensures Justified(b, e)
  {
    hide Recorded, Executes, Proper, Sane;
    var locs := b.step(o.answers).origins;
    forall i | 0 <= i < |locs| && locs[i].Some?
      ensures locs[i].value.InRoot? && Clean(locs[i].value.rel) && e.origins[i] == Some(locs[i].value.rel)
    {
      var p := Place(root, o.scratch, locs[i].value);
      assert ProperLoc(root, o.scratch, locs[i].value) && Clean(p);
      RelInside(root, p);
      assert origins[i] == Some(p);
      assert !DotDot(Rel(root, origins[i].value));
      assert root <= p;
      match locs[i].value
      case InRoot(rel) => assert p[|root|..] == rel;
      case InScratch(rel) => PrefixesCompare(root, o.scratch, p);
      case Elsewhere(abs) =>
    }
    assert HoldsRun(b, e, o);
  }
}
