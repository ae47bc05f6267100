# Verification of the precedence graph, the build cache and the resolver

fluxlint decides from Git alone whether a Flux repository converges from an
empty cluster, how long that can take at worst, and which declared
dependencies matter. This project models the algorithms behind those answers
in Dafny 4.11 and proves what the repository's documentation claims about them.

Run `dafny verify dfyconfig.toml` in this directory.

## What is modelled

| file | part of fluxlint |
|---|---|
| `Walks.dfy` | the vocabulary: walks, reachability, cycles, topological orders |
| `Digraph.dfy` | the multigraph, reachability with an ignored edge, edges inside a node list |
| `Tarjan.dfy` | `Cycles`: the recursive search with its mutable index, low-link, stack and output |
| `Kahn.dfy` | `topo`: in-degree counters and a queue |
| `MaxPlus.dfy` | longest walks as the reference for event times; comparing graphs edge by edge |
| `Star.dfy` | when the equations have a solution: cutting cycles out of walks |
| `Scheduling.dfy` | `Solve`, `PathTo`, `CriticalPath`, `Slack`, `MakespanWithout` |
| `Bootstrap.dfy` | every possible run of an event graph, untimed and timed |
| `Components.dfy`, `Discovery.dfy` | components, keys, containment, and level-by-level discovery of the tree |
| `Events.dfy` | the declared and the full event graph, imports and how they are resolved |
| `Deadlocks.dfy` | the deadlock rule, nesting, imports from below, implicit ordering |
| `Export.dfy` | the drawing with one node per component and its critical and cyclic marks |
| `Redundancy.dfy` | the redundant-dependency review and its consequences |
| `Timing.dfy` | the worst-case bound and the expected time |
| `Paths.dfy`, `Cache.dfy` | relative paths, the recorder, the build cache, and a build driven through them |
| `SingleFlight.dfy` | the resolver's mutex, map and done channels as interleaved steps |
| `Selectors.dfy` | label selectors and webhook admission with three values |
| `Distance.dfy` | two-row edit distance, the edit scripts it counts, and the field suggestion |

Conventions:

- Durations are mathematical integers; a missing map key reads as zero, as in Go.
- Edges are compared as values. `Graph.Edges()` is the set of edges; parallel
  equal edges keep their multiplicity in the adjacency lists, where Kahn's
  counters need it.
- A component is a value and is identified by its position in the tree's list;
  nothing after discovery changes one. The root is what it is after adopting its
  bootstrap Kustomization, if it has one.
- A digest in the cache stands for the text it was computed from, which is the
  assumption that the hash is injective.
- Rendering, a kustomize build and a resolution are parameters. A build is a
  deterministic function from the answers it got so far to its next question,
  its result or its failure. What it finds in its own temporary directory is a
  function of those answers too: a path written into the wrapper stands for the
  place it leads to, so scratch content does not depend on where the root is.
  A path is classified as scratch first, then as below the root, then as
  elsewhere; the root may contain the temporary directory. A file system has no
  symbolic links, its directories exist, and its listings hold non-empty names
  without NUL.

## Where the code and its documentation differ

- `docs/design.md:142-143` says that A* exists iff no cycle has positive weight.
  That is true of the equations (`StarExistsIff`), but `Solve` refuses every
  cycle, whatever its weight. `RefusalExact` says when the two agree: iff the
  graph is acyclic or has a cycle of positive weight. `ZeroLoopIsRefused` is the
  smallest graph that is solvable and refused; the tree of `RootNameCanCollide`
  produces such a zero-weight loop from manifests.
- `End == ""` means "no node yet" in `Solve`, so a node named `""` can be
  overwritten and the makespan come out too small (`EmptyNameCanFail`).
  `EmptyNameExact` says exactly when. Event names are never empty, and the
  results about the makespan say that they need this.
- The recorded predecessor of a node is the binding one only when the first
  incoming edge offers a non-negative time or some edge a positive one
  (`PredOk`, part of what `Solve` promises; `NegativeOfferIsRecorded` is a case
  where it is not). With non-negative weights it always is.
- Nesting and waiting alone can close a cycle: the root is displayed by its bare
  name, which may equal the key of a component below it (`RootNameCanCollide`).
  `NestingAcyclicExact` shows that this is the only way.
- The root is entered under its key after discovery and may hide a component
  below it with the same key (`RootKeyAgain`): only the root itself skips what it
  applies under its own key. `KeysUniqueExact` shows that lookups are exact iff
  no component below the root applies something under that key.
- `selectorMatches` says it implements `metav1.LabelSelector`, but a
  `matchLabels` entry with an empty value matches an absent label
  (`EmptyValueDiffers`). `ApiDifference` gives the exact difference, and
  `CalledDifference` what it means for the question whether a webhook is called.
- `maybe` is meant to say that some runtime label makes the selector match. That
  is so iff each unset key can be satisfied by absence, by a value that the
  selector lists for it, or by any unlisted value (`ExtensionExact`);
  `AskedTwiceCanFail` is a selector where it is not.

## Model

| member | source | states |
|---|---|---|
| Digraph.Graph.AddNode | pkg/graph/graph.go:30-35 | a node is appended to the order once; edges do not change |
| Digraph.Graph.AddEdge | pkg/graph/graph.go:37-42 | the edge joins both adjacency lists at their ends, its endpoints join the nodes, and out and in lists keep describing one multigraph |
| Digraph.Graph.EdgesWithin | pkg/graph/graph.go:105-120 | exactly the edges with both ends in the list |
| Digraph.HasSelfLoop | pkg/graph/graph.go:96-103 | true iff some outgoing edge leads back to the node |
| Digraph.Graph.Reachable | pkg/graph/graph.go:122-144 | true iff a walk of one or more edges exists in the graph without the edges that have both ends and the reason of the ignored one, whatever they weigh, or in the whole graph when none is ignored |
| Tarjan.Search.Visit | pkg/graph/graph.go:56-87 | one call of the recursive search keeps the whole invariant (indices ordered along the stack, every stack node climbs back to the current path, popped nodes closed under edges, reported components exact) and leaves a valid low-link |
| Tarjan.PopIsScc | pkg/graph/graph.go:70-82 | what is popped when low-link and index agree is one whole class of mutually reachable nodes |
| Tarjan.Cycles | pkg/graph/graph.go:48-94 | the result lists exactly the strongly connected components that contain a cycle, each once, disjoint and without repetition; it is empty iff the graph is acyclic |
| Kahn.InDegrees | pkg/graph/graph.go:218-224 | the counters start as in-degrees that count parallel edges |
| Kahn.Settle | pkg/graph/graph.go:235-239 | taking out one node's edges keeps every counter equal to the number of edges from unfinished nodes and enqueues a node exactly when its last predecessor is finished |
| Kahn.Topo | pkg/graph/graph.go:217-242 | succeeds iff the graph is acyclic, and then lists every node once with every edge pointing forward; with Tarjan.Cycles this makes the two algorithms agree on every multigraph |
| MaxPlus.EarliestIsHeaviest | pkg/graph/graph.go:178-184 | a solution of the earliest-time equations is, at every node, the weight of the heaviest walk into it, the empty walk included, for weights of any sign |
| MaxPlus.LatestIsHeaviest | pkg/graph/graph.go:189-195 | a solution of the latest-time equations is, at every node, the makespan less the heaviest walk out of it |
| Star.StarExistsIff | docs/design.md:142-143 | for weights of any sign: some times respect every edge, and the equations have a solution, and every node has a heaviest walk into it, each iff no closed walk has positive weight |
| Star.RefusalExact | pkg/graph/graph.go:170-176 | "a schedule is made iff the equations have a solution" holds iff the graph is acyclic or has a cycle of positive weight; every acyclic graph has a solution |
| Star.ZeroLoopIsRefused | docs/design.md:142-143 | one node with a zero-weight loop solves the equations and is not acyclic |
| Scheduling.Relax | pkg/graph/graph.go:179-184 | one node's earliest time is the maximum of zero and its incoming offers; the recorded predecessor is the first to offer the most and binds exactly when the first offer is non-negative or some offer positive, and is just the first edge otherwise |
| Scheduling.Solve | pkg/graph/graph.go:170-197 | a schedule exists iff the graph is acyclic, cycles of weight zero included; it solves the earliest and latest equations, records predecessors and picks makespan and end along the order |
| Scheduling.ScheduleIsLeast | pkg/graph/graph.go:146-154 | the earliest times respect every edge and are the least non-negative assignment that does |
| Scheduling.ScheduleIsUnique | pkg/graph/graph.go:172-197 | when no node is named "", earliest and latest times and makespan depend only on the set of edges, not on insertion order or repetition |
| Scheduling.MakespanIsHeaviest | pkg/graph/graph.go:185-187 | when no node is named "", the makespan is the weight of the heaviest walk in the graph, and the end node attains it |
| Scheduling.EmptyNameExact | pkg/graph/graph.go:185-187 | the makespan of a schedule with a node named "" is the weight of the heaviest walk iff that node comes last in the order or the heaviest walk into some other node is as heavy as that into "" |
| Scheduling.EmptyNameCanFail | pkg/graph/graph.go:185-187 | a schedule along a topological order whose makespan is 0 although "" is reached at 5, and whose slack at "" is negative |
| Scheduling.NegativeOfferIsRecorded | pkg/graph/graph.go:179-184 | a schedule whose chain to a node weighs less than the node's earliest time, because its only incoming edge offers a negative time |
| Scheduling.SlackNonNegative | pkg/graph/graph.go:155-156 | slack is never negative |
| Scheduling.SlackExact | pkg/graph/graph.go:155-156 | releasing a node later than its earliest time by any amount leaves the makespan of the re-solved graph unchanged iff the amount is at most the slack |
| Scheduling.PathTo | pkg/graph/graph.go:161-168 | the walk back over predecessors ends; the result is a contiguous chain of recorded predecessors from an event at time zero without one to the node; for weights of any sign it weighs at most the node's earliest time, and exactly that iff each of its edges fixes the time at its head, as all do where no weight is negative |
| Scheduling.CriticalPath | pkg/graph/graph.go:158-159 | with non-negative weights the critical path weighs the makespan and every node on it has slack zero |
| Scheduling.MakespanWithout | pkg/graph/graph.go:199-215 | succeeds on every solvable graph, drops all edges equal to the given one, is never greater than the makespan, and is smaller iff every heaviest walk uses that edge |
| MaxPlus.RemovalEffect | pkg/lint/rules_timing.go:277-284 | removing an edge lowers the bound exactly when it lies on all heaviest walks |
| Bootstrap.MaximalRunFires | docs/design.md:95-101 | whatever order events fire in, a run that cannot go on has fired exactly the events that are neither in nor behind a reported component |
| Bootstrap.ConvergesIffNoComponent | docs/design.md:95-97 | everything converges iff no component is reported |
| Bootstrap.RunExtends | docs/design.md:95-97 | every run can be continued to one that cannot go on, within as many steps as there are events |
| Bootstrap.EveryRunWithinBound | pkg/lint/rules_timing.go:15-17 | if every delay lies between zero and its edge's weight and events fire as soon as enabled, no event is later than its earliest time and none later than the bound; full delays attain it |
| Components.KeysIdentify | pkg/model/model.go:200-211 | namespaces and names without a slash and the two kinds can be read back from a key, so keys tell components apart |
| Components.DepKeyFinds | pkg/model/model.go:213-215 | a dependency's key is the key of just the component of the depending one's own kind with that namespace and name, where none holds a slash |
| Components.Within | pkg/model/model.go:239-247 | the walk up the parents ends and finds exactly the component itself and its ancestors |
| Components.AboveIsOrder | pkg/model/model.go:239-247 | containment is a partial order |
| Discovery.TreeBuilder.AddChildren | pkg/render/tree.go:158-177 | a child joins the next level iff its key is new and it is the first of its list with it; among the children of the root only, the root itself is left out |
| Discovery.TreeBuilder.Discover | pkg/render/tree.go:53-181 | over a finite set of keys the level loop ends, and the result is a tree: parents first, keys below the root distinct, no child of the root under the root's key; every component below the root was applied by its parent when that was rendered, with exactly its own level and those above known, keeping every field but the root flag and the parent; and all that was applied then is found as applied by the same or an earlier component, the root's own object apart |
| Discovery.FirstWins | pkg/render/tree.go:168-177 | where several components apply a key, the first of them has it |
| Discovery.KeysUniqueExact | pkg/render/tree.go:168-181 | lookup by key is exact iff no component below the root applies, when it is rendered, something under the root's key |
| Discovery.RootKeyAgain | pkg/render/tree.go:168-181 | a complete discovery of three levels whose last component has the root's key and is hidden by it |
| Events.EventNamesInjective | pkg/lint/events.go:10-12 | event names differ whenever component names or events differ, and are never empty |
| Events.DeclaredGraph | pkg/lint/events.go:30-50 | the graph's edges are exactly those the manifests state, its nodes exactly the two events of each component |
| Events.FullGraph | pkg/lint/events.go:52-97 | the edges are the declared ones plus, for each import, the edge it implies, and no new nodes: nothing for an API, start to ready for something at run time iff the consumer waits, checks health or is a release, ready to start for a CRD, start to ready for the source of a release, start to start otherwise, each without delay |
| Events.Index.AddNeed | pkg/lint/index.go:197-207 | an import is recorded with its first provider, unless some provider is the consumer or one of its ancestors |
| Deadlocks.NestingAcyclicExact | pkg/lint/events.go:35-42 | for trees of any depth and any wait flags, the declared graph without dependsOn is acyclic iff the root's name is not the key of a component below it |
| Deadlocks.RootNameCanCollide | pkg/lint/events.go:35-42 | a tree without dependsOn whose declared graph is cyclic, although firing all its events at once respects every edge |
| Deadlocks.BelowIsNotSatisfied | pkg/lint/index.go:197-207 | providers that all lie below the consumer never satisfy the import |
| Deadlocks.ImportFromBelowDeadlocks | pkg/lint/events.go:52-73 | importing a namespace, CRD or source from something only the consumer creates always yields one reported component that holds both starts |
| Deadlocks.LateImportsNeverDeadlock | pkg/lint/events.go:59-69 | imports at run time, of APIs, and of the sources of releases never close a cycle with nesting and waiting, wherever their providers are |
| Deadlocks.DeadlockRule | pkg/lint/rules_graph.go:101-127 | one finding per component with a cycle, with exactly its inner edges other than apply-to-ready; a run that cannot go on has fired exactly the events not behind a finding, so there is none iff everything converges; every import of a namespace, a CRD or, by a Kustomization, a source from properly below its consumer has a finding that lists both starts |
| Deadlocks.EdgeOnCycle | pkg/lint/export.go:33-39 | an edge lies on a cycle iff both its ends are in one reported component |
| Export.CyclicPairs | pkg/lint/export.go:33-39 | the pairs marked cyclic are exactly the ends of the edges on a cycle of the full graph |
| Export.CriticalPairs | pkg/lint/export.go:27-32 | the pairs marked critical are the ends of a contiguous path, which is heaviest in an acyclic declared graph without negative weights and empty in a cyclic one |
| Export.ComponentGraph | pkg/lint/export.go:44-75 | every nesting, every existing dependsOn entry and every import that matters, up to its names and kind, is drawn, and drawn once; a drawn edge is critical iff it collapses a critical pair, and in a cycle iff one of the event edges it collapses, for "parent+wait" either of two, lies on a cycle of the full graph |
| Export.NamesShowKindExact | pkg/model/model.go:203-225 | where namespaces and names below the root hold no slash, display names show the kind of a component iff the root's name, slashes allowed, is not the key of a component of another kind |
| Export.PathNamesShowKind | pkg/render/tree.go:30-36 | so they do for a root that is a Kustomization named by a path, unless that path starts with "HelmRelease/" |
| Export.DrawingShowsDeadlock | pkg/lint/export.go:44-75 | if display names show the kind, some drawn edge is marked cyclic iff the full graph has a cycle, so no deadlock is lost by collapsing |
| Deadlocks.OrderingRules | pkg/lint/rules_timing.go:139-155 | reports exactly the imports that are not runtime needs and order two events of which the declared graph reaches neither from the other |
| Deadlocks.NoNeedFallsThrough | pkg/lint/rules_timing.go:144-147 | any two events that such an import orders are ordered by what is declared, or lie inside a reported deadlock, or the import is reported, whatever the graph |
| Redundancy.RedundantDepends | pkg/lint/rules_timing.go:255-273 | flags exactly the entries whose target exists and stays reachable from the component in the dependsOn graph less the entry's own edge |
| Redundancy.RedundantIffBypassed | pkg/lint/rules_timing.go:270 | on an acyclic dependsOn graph an entry is redundant exactly when its target exists and a dependsOn walk of two or more edges leads to it |
| Redundancy.ReductionKeepsReach | docs/design.md:175-176 | in an acyclic graph, deleting any set of implied edges at once keeps every connection |
| Redundancy.DependsAcyclic | pkg/lint/rules_timing.go:257-263 | an acyclic declared graph has an acyclic dependsOn graph |
| Redundancy.RedundantIsHarmless | docs/design.md:175-176 | deleting at once any flagged entries leaves a tree whose dependsOn graph has the same reachability, removes declared edges only, and leaves the heaviest walk into every event unchanged |
| Redundancy.RedundantMovesNothing | docs/design.md:175-176 | every earliest time and the makespan of the two schedules agree |
| Timing.ComponentOfEvent | pkg/lint/rules_timing.go:225-232 | the first component one of whose events has that name |
| Timing.ExpectedGraph | pkg/lint/rules_timing.go:54-71 | every edge of the declared graph reweighted, and nothing else |
| Timing.ExpectedCovered | pkg/lint/rules_timing.go:58-68 | if observations respect the timeouts, each reweighted edge is matched by a declared edge between the same events that weighs at least as much |
| Timing.TimingBounds | pkg/lint/rules_timing.go:37-83 | bound and expected time exist exactly when they should and are heaviest walks; observations within the timeouts never push the expected time past the bound |
| Timing.BoundCoversEach | pkg/lint/events.go:14-28 | the bound is at least what any one component is granted: a release its timeout and once more per retry, a Kustomization that waits or checks health its timeout or else its interval |
| Timing.AloneExact | pkg/lint/events.go:14-28 | a tree of one component is bounded by exactly what it is granted and expected to take exactly what was observed of it, or nothing |
| Timing.ReweighedWeights | pkg/lint/rules_timing.go:56-69 | the expected graph changes weights only; a dependsOn edge weighs half a requeue, rounded down, and edges of nesting and waiting stay as they are |
| Timing.ExpectedCoversEach | pkg/lint/rules_timing.go:56-69 | where names differ, the expected time covers each observation, and along each dependsOn entry both observations and half a requeue |
| Paths.RelInside | pkg/render/buildcache.go:176-180 | a path lies inside the root iff the way to it does not start with a step up |
| Paths.JoinRel | pkg/render/buildcache.go:60-81 | following the way from the root to a path leads to that path |
| Paths.JoinNamesInjective | pkg/render/buildcache.go:130-136 | different directory listings fold into different texts |
| Cache.ObservationDecides | pkg/render/buildcache.go:120-146 | where two trees observe the same at a path, they answer every captured question about it the same |
| Cache.Recorder.Note | pkg/render/buildcache.go:164-185 | a path under the root is probed once per kind, the build's own files are skipped, anything else ends cacheability |
| Cache.Recorder.Answer | pkg/render/buildcache.go:187-219 | a question is noted and answered by the view, kind by kind; the ones a probe cannot capture end cacheability |
| Cache.RecordedExact | pkg/render/buildcache.go:164-185 | a recording is cacheable exactly when the run asks only what a probe captures, below the root or in its own directory, and then holds one probe per thing asked below the root, with what the view showed |
| Cache.Replay | pkg/render/buildcache.go:16-21 | a cacheable run goes through unchanged, answer by answer, in any tree and at any root where its probes observe the same |
| Cache.HitIsFresh | pkg/render/buildcache.go:59-90 | a matching entry holds exactly the result of building that tree afresh, origins re-rooted |
| Cache.FreshBuildUnique | pkg/render/buildcache.go:16-21 | building afresh has one outcome: it cannot return two results, nor both return and fail |
| Cache.MatchingEntriesAgree | pkg/render/buildcache.go:68-88 | two entries of one key that both match agree on objects and origins |
| Cache.BuildCache.Lookup | pkg/render/buildcache.go:59-90 | misses exactly when no entry of the key matches; a hit is what a fresh build returns; the counter moves on hits only |
| Cache.BuildCache.Store | pkg/render/buildcache.go:92-118 | appends the run's probes, objects and relative origins under the key iff it is cacheable and no origin leads out of the root; every entry keeps coming from a run of its key |
| Cache.BuildCache.Build | pkg/render/build.go:85-146 | a matching entry is returned and counted as a hit; otherwise the build is driven, question by question, through a recorder, and its result counted as a miss and kept, as the entry of that run and nothing else, exactly when it asks only what is captured and its origins lie below the root on ways that do not begin with two dots; a failing build keeps nothing; the result is always that of a fresh build |
| Cache.BuildCache.BuildBoth | cmd/fluxlint/main.go:196-197 | after a build that can be kept, building a tree that shows the same at everything the first run observed hits the cache and gives the same objects, with origins below its own root |
| SingleFlight.StepKeepsInv | pkg/source/source.go:139-152 | every move of any caller keeps: one mutex holder, keys and calls one to one, one leader per call, results written before the channel closes, each key resolved once and its call holding what the resolution returned |
| SingleFlight.SingleFlightSafe | pkg/source/source.go:65-66 | under every interleaving at most one move resolves a key, every returning caller of a key gets the outcome that the schedule gave to that move of a caller about to resolve, and nobody passes the channel before it is closed |
| SingleFlight.LogIsResolutions | pkg/source/source.go:150-152 | what has been resolved is exactly what the schedule gave to callers of a key about to resolve |
| SingleFlight.ResultIsFinal | pkg/source/source.go:150-152 | a written result never changes |
| SingleFlight.NeverStuck | pkg/source/source.go:139-152 | while a caller is outstanding some caller can move |
| SingleFlight.EveryMoveCounts | pkg/source/source.go:139-152 | every move uses up one of at most six per caller, so no run goes on for ever |
| SingleFlight.EveryoneReturns | pkg/source/source.go:139-152 | from any reachable state, moving whoever can move brings every caller back |
| Selectors.SelectorMatches | pkg/lint/wiring.go:165-201 | true iff every requirement holds, an absent label reading as "" under matchLabels |
| Selectors.ApiDifference | pkg/lint/wiring.go:165-173 | the API's meaning holds iff the code's does and no matchLabels entry asks for "" under an absent key |
| Selectors.EmptyValueDiffers | pkg/lint/wiring.go:165-173 | a selector that asks for an empty value matches empty labels in the code and not in the API |
| Selectors.Selects | pkg/lint/rules_reconcile.go:74-104 | intercepts iff the selector holds of Git's labels; passes iff even its decidable part does not |
| Selectors.KnownIsNecessary | pkg/lint/rules_reconcile.go:74-104 | if any runtime extension of the labels matches, the decidable part holds now |
| Selectors.KeyPossibleExact | pkg/lint/wiring.go:176-198 | some value or absence meets what a selector asks of a key iff absence does, or one of the values listed for it, or no requirement binds it |
| Selectors.ExtensionExact | pkg/lint/rules_reconcile.go:66-72 | some runtime extension matches iff the decidable part holds and each unset key passes that finite test |
| Selectors.AskedOnceIsPossible | pkg/lint/rules_reconcile.go:92-98 | a key required once, not for membership of an empty list, can be satisfied |
| Selectors.UnsetAskedOnce | pkg/lint/rules_reconcile.go:92-98 | if every unset key is asked for once, what is asked of unset keys can be met |
| Selectors.MaybeIsPossible | pkg/lint/rules_reconcile.go:66-72 | when every unset key is required once, maybe means that the selector does not match now and some runtime labels make it match |
| Selectors.AskedTwiceCanFail | pkg/lint/rules_reconcile.go:92-103 | a selector that evaluates to maybe and that no runtime label makes match |
| Selectors.CalledDifference | pkg/lint/rules_reconcile.go:106-158 | the API server calls a webhook iff the code's reading says so and no selector in use asks for "" under an absent key |
| Selectors.RuleMatchesExact | pkg/lint/rules_reconcile.go:115-132 | what each field of a rule and its scope decide |
| Selectors.SelectedLabelsExact | pkg/lint/rules_reconcile.go:143-166 | a namespace selector sees a Namespace's own labels, or those of the namespace an object is in, or is not applied; the key that holds a namespace's name always reads as that name |
| Selectors.CallableExact | pkg/lint/rules_reconcile.go:106-158 | where what is asked of unset keys can be met, some labels lead to a call iff kind or rule matches and no selector's decidable part fails |
| Selectors.Admits | pkg/lint/rules_reconcile.go:106-158 | passes iff there are match conditions, or no kind or rule matches, or the decidable part of a selector in use fails; where what is asked of unset keys can be met, and no conditions, that is iff no runtime labels of object and namespace lead to a call; intercepts, without conditions, iff kind or rule matches and the selectors do on Git's labels, which agrees with the API server unless a selector in use asks for "" under an absent key, and then the API server does not call; what passes is not called in either reading |
| Distance.EditDistance | pkg/kubeschema/kubeschema.go:230-248 | the two-row computation equals the recursive edit distance |
| Distance.EditsIsLeast | pkg/kubeschema/kubeschema.go:230-248 | some script of insertions, deletions and replacements that turns one string into the other has exactly that many changes, and none has fewer |
| Distance.ZeroIffEqual | pkg/kubeschema/kubeschema.go:230-248 | the distance is zero iff the strings are equal |
| Distance.Symmetric | pkg/kubeschema/kubeschema.go:230-248 | the distance is symmetric |
| Distance.Triangle | pkg/kubeschema/kubeschema.go:230-248 | the distance satisfies the triangle inequality |
| Distance.Suggestion | pkg/kubeschema/kubeschema.go:216-228 | of the names within distance two, the least by distance and then by name, whatever order they are visited in |
| Distance.BeforeExact | pkg/kubeschema/kubeschema.go:222-225 | the order on names: a proper prefix, or the smaller byte at the first difference |
| Distance.LeastIsUnique | pkg/kubeschema/kubeschema.go:216-228 | two least pairs are equal, so the visiting order cannot matter |

## Left out

- Tarjan.Cycles: the alphabetical sort of each reported component and of finding details, which no property depends on.
- Discovery.TreeBuilder.Discover: what makes a component opaque, and concurrency within a level; a component that is not rendered applies nothing.
- Timing.TimingBounds: the rendered path steps, dominant delays and budget findings that are read off the schedule.
- Redundancy.RedundantDepends: the unjustified-dependency finding next to it, whose question is answered by `MakespanWithout`.
- Cache.Recorder.Answer: symbolic links, with which `CleanedAbs` returns more than the path state its probe records; and direct file-system reads that bypass the recorder (`hasKustomization`, the entry kinds seen by `generateResources`).
- Cache.BuildCache.Store: the mutex around the maps, and failing JSON encoding.
- Cache.BuildCache.Build: every question goes through the recorder, while the code also reads the disk directly when it looks for kustomization files and lists resources; the build's own directory is already in the view when the cache is asked; symbolic links, the serialising mutex and builds without a cache are not modelled.
- Export.ComponentGraph: pairs and import keys are texts joined by `>` in the code and tuples here; the final sort of the drawn edges is not modelled.
- Distance.Suggestion: lower-casing is a parameter; the sentence around the name is not modelled.
- Selectors.Admits: the labels of an object and those that a namespace selector sees are extended independently, also for an object that is itself a Namespace; JSON values that are not strings are left out; wildcard matching of one text is a parameter.
- Component: a value with a position instead of a shared object, so aliasing and in-place changes during rendering are not modelled.
- Kustomize, Helm, variable substitution, CEL, Pod Security and policy engines: foreign engines, one abstract build in the cache model.
- Git, OCI, HTTP and registry access, the on-disk cache, timeouts, and how the resolver derives its keys.
- The chart cache: correct only by the assumption that upstream charts are immutable.
- Index building other than `addNeed`: a long lookup over object kinds.
- Stale substitution, retry cliffs, timeout inversion, report formats, locations and command-line handling.
- Overflow of 64-bit durations.
