# Verified kernels of the repository map

A Dafny model of the parts of the code base whose correctness is a statement
about every input or every run: the module-cycle kernel, the package roll-up,
the boundary-interaction emitter with its socket-role tracking, the HTTP
linker and the C extractor's symbol keys.

`dafny verify dfyconfig.toml` checks the whole project.

## What is modelled

**Cycle kernel.** `Graphs` fixes walks, reachability and cycles.
`Scc` is the iterative Tarjan search with its call stack, phases, lowlinks and
component stack. `DepthFirst` and `CycleWalk` are the explicit-stack search
that draws a cycle walk, the edge selection before it and the start order.
`CycleTypeOnly` decides whether a cycle survives erasing `import type` edges
and which cycles carry that verdict. `CycleComposition` is the memoised
test/production classification.

**Package roll-up.** `PackageNames` has common prefixes, display names and
distinguishing suffixes; `PackageGroups` the keyed fold, renaming in place and
the final sort; `PackageUniqueness` says when the resulting names are unique;
`PackageMeaning` says what comes back, read off the directories.

**Boundary emitter.** `Surface` holds kinds, directions and printed uids,
`BindingTable` the table loader, `Emitter` the emitter object and its run
invariants, `Commutation` which operations commute, `SocketLineage` the
descriptor registry, `Refinement` the direction updates, `SocketPass` the
per-function loop that joins emitter and registry, and `FilePass` the loop over
the functions of a file and what holds over a whole program. `EmissionMeaning`,
`SocketMeaning` and `FileMeaning` say what is stored, read off the table, the
callsites and the names of the calls.

**Two smaller pieces.** `HttpLink` links consumers to providers, and `LinkMeaning`
says which; `StableKeys` numbers duplicate symbol keys.

`Text` (strings, splitting, decimal numerals) and `Ordering` (sorting, sets as
ascending lists, permutations, sums) are shared.

Methods follow the loops and fields of the Rust code. Each is proved equal to a
function of its inputs or of its old state, and the properties are lemmas about
that function.

## How Rust values appear

- A string is a `seq<char>` of Unicode scalar values. Byte order of UTF-8 text
  is code-point order, so `LexLe` is the order of `str`; `len()` is `ByteLen`.
- `BTreeSet` and `BTreeMap` are ascending lists, `HashMap` and `HashSet` maps
  and sets. An unspecified iteration order is an arbitrary choice.
- The standard sorts are a stable insertion sort. Line and column numbers are
  signed and pass through `x.max(0) as u32`, which truncates (`ToU32`).
- Counters are unbounded naturals.

## Where the code and its documentation differ

- `rust/crates/agent/src/package_groups.rs:111-115` says that two groups never
  render the same name. `RollupNamesCanCollide` is a roll-up of four directories
  that returns one name twice; `RollupNamesDistinctIff` is the exact condition on
  the merge keys, and `ManifestGroupsDistinct` a common case that always meets it.
- `HasRuntimeEdges` reads as "the cycle exists at run time". For arbitrary edges
  that is false (`AcyclicRuntimeEdges`); `SccVerdictExact` and
  `ReportedCycleVerdict` say that it is right for every report on a cycle the
  component search found, and `VerdictExactness` when it is right in general.
- The dual-projection list is meant to name the stored surfaces that need a
  second projection. The indexer keeps it exact, since it turns sockets only
  (`FunctionDualExact`, `RunAllExact`). Through the public interface alone it can
  go stale: a surface is listed again at every emission but an update renames only
  the first listing (`RepeatedEmitThenTurn`, a run no caller makes;
  `UpdateDualExactIff` is the exact condition).
- Turning a surface stores it under its new uid even if another surface is there
  (`OccupiedIsOverwritten`, `OverwriteExample`). `NothingLostIff` says exactly when
  no surface is lost; `FunctionLosesNothing` and `ProgramLosesNothing` that the
  indexer loses none as long as its calls sit at different positions.
- The hash maps of `compose.rs` leave the order of functions and of drained
  sockets open. `FileForgetsOrder` shows that neither reaches the surfaces and
  channels of a file; `DrainOrderFreeIff` says when the second could.
- `classify_module` and `path_in_module` are both "is the path inside the
  module", but only the latter reads the empty module as the repository root.
  Both are kept as written (`Owns`, `PathInModule`).

## Model

| member | source | states |
|---|---|---|
| `DepthFirst.DfsFindCycle` | rust/crates/agent/src/cycle_walk.rs:123-155 | the explicit-stack loop returns what the recursive reference search returns, visits each node at most once, and takes at most one iteration per neighbour of an explored node plus one per explored node |
| `DepthFirst.RingIsCycle` | rust/crates/agent/src/cycle_walk.rs:134-147 | any ring the search reports consists of pairwise distinct known nodes joined by edges, last to first included |
| `DepthFirst.ExhaustedIsAcyclic` | rust/crates/agent/src/cycle_walk.rs:123-155 | a search that ends without a ring leaves the visited set closed under successors and free of cycles, so later starts may skip it |
| `DepthFirst.RingIsTrail` | rust/crates/agent/src/cycle_walk.rs:123-155 | a reported ring is the end of a simple walk that extends the one searched from, and every step of the walk, its closing step included, skips only successors from which no cycle can be reached |
| `CycleWalk.IntraCycleEdges` | rust/crates/agent/src/cycle_walk.rs:57-74 | the kept edges are the ascending, duplicate-free list of the snapshot's non-self edges between members, cut at the cap and flagged as cut; uncut, they are all of them |
| `CycleWalk.CarriedMeaning` | rust/crates/agent/src/cycle_walk.rs:57-74 | the carried edges are the first 200, by importing and then imported node, of the non-self edges between members; the flag is set if and only if there are more |
| `CycleWalk.BuildAdjacency` | rust/crates/agent/src/cycle_walk.rs:85-103 | each member's list holds the targets of its edges inside the member set, sorted, with their multiplicities |
| `CycleWalk.FindCycleWalk` | rust/crates/agent/src/cycle_walk.rs:85-118 | computes the walk specification within as many loop iterations as there are member-to-member edges plus members |
| `CycleWalk.SearchStarts` | rust/crates/agent/src/cycle_walk.rs:104-117 | the loop over the starts returns the first ring of the reference search, within the budget |
| `CycleWalk.WalkIsRealCycle` | rust/crates/agent/src/cycle_walk.rs:85-155 | a returned walk is the display image of a cycle of supplied edges through distinct members |
| `CycleWalk.WalkMissingIffAcyclic` | rust/crates/agent/src/cycle_walk.rs:85-155 | no walk is returned if and only if the edges between members hold no directed cycle, self-loops included |
| `CycleWalk.WalkIsLeast` | rust/crates/agent/src/cycle_walk.rs:85-155 | which walk is drawn: it starts at the member displayed first (ids decide between equal displays) from which a cycle can be reached, goes on to the least successor from which one can, until a node comes up again, and shows the nodes from there on under the names listed for them |
| `CycleWalk.SccDrawsWalk` | rust/crates/agent/src/cycle_walk.rs:57-118 | the uncut selection for a genuine component of two or more members always yields a walk |
| `CycleWalk.WalkForgetsOrder` | rust/crates/agent/src/cycle_walk.rs:85-118 | for distinct ids the walk is the same for every permutation of members and of edges |
| `CycleWalk.SelectionForgetsOrder` | rust/crates/agent/src/cycle_walk.rs:57-118 | selection followed by search does not see the order or duplication of snapshot edges, truncated or not |
| `CycleWalk.WorkBound` | rust/crates/agent/src/cycle_walk.rs:104-117 | iterations summed over all starts are bounded by member-to-member edges plus members |
| `Scc.TarjanVisit` | rust/crates/graph-algorithms/src/scc.rs:243-378 | one start keeps the search invariant (stack, lowlinks, settled nodes, emitted components), indexes the explored nodes once each, and takes one iteration per neighbour and three per explored node |
| `Scc.PopComponent` | rust/crates/graph-algorithms/src/scc.rs:356-369 | popping takes the stack segment from the root on, in stack order |
| `Scc.BuildGraph` | rust/crates/graph-algorithms/src/scc.rs:159-182 | the adjacency lists represent exactly the edges, with their multiplicities, and the starts are the edges' nodes in ascending order |
| `Scc.ReadNeighbor` | rust/crates/graph-algorithms/src/scc.rs:305-335 | reading one neighbour keeps the search invariant and pays for exactly one owed iteration |
| `Scc.FinishNode` | rust/crates/graph-algorithms/src/scc.rs:336-371 | leaving a node, with its parent's lowlink and perhaps a component, keeps the search invariant and pays for its last iteration |
| `Scc.FindSccs` | rust/crates/graph-algorithms/src/scc.rs:139-233 | the components are disjoint maximal strongly connected sets covering exactly the edges' nodes, no edge leads from an earlier one to a later one; the reported cycles are those of size two or more, and there is one if and only if a closed walk visits two distinct nodes; the counts are exact and all visits together take edges plus three times nodes iterations |
| `Scc.PopResult` | rust/crates/graph-algorithms/src/scc.rs:353-371 | at a root the popped segment is a whole component and comes after everything its edges lead to |
| `Scc.SegmentIsScc` | rust/crates/graph-algorithms/src/scc.rs:353-371 | the graph half: a mutually reachable set whose edges leave only into what is finished is a whole component |
| `Scc.SearchAll` | rust/crates/graph-algorithms/src/scc.rs:196-218 | visiting every start not yet indexed indexes all nodes, each once, and keeps the search invariant |
| `CycleTypeOnly.RuntimeSubgraphIsCyclic` | rust/crates/agent/src/cycle_type_only.rs:231-241 | true if and only if the runtime edges hold a closed walk through two distinct nodes |
| `CycleTypeOnly.ClassifyCycleTypeOnly` | rust/crates/agent/src/cycle_type_only.rs:187-225 | the verdict is the one stated on the graph: unknown reasons first, then type-only, runtime or breaking, with exact counts |
| `CycleTypeOnly.UnknownMeaning` | rust/crates/agent/src/cycle_type_only.rs:187-206 | the verdict is unknown if and only if there is no edge or some fact is absent or unreadable, with the reason that fits, unreadable before absent |
| `CycleTypeOnly.KnownMeaning` | rust/crates/agent/src/cycle_type_only.rs:207-225 | with all facts known: type-only if and only if every edge is, breaking if and only if both kinds occur and no two distinct nodes reach each other over the runtime edges, otherwise runtime; both runtime verdicts carry the exact counts |
| `CycleTypeOnly.SccVerdictExact` | rust/crates/agent/src/cycle_type_only.rs:187-241 | for a strongly connected edge set on at least two nodes, without self-imports and all known, the verdict says exactly whether a runtime cycle remains |
| `CycleTypeOnly.InnerVerdictExact` | rust/crates/agent/src/cycle_type_only.rs:187-241 | for members that form a component of the snapshot, the verdict on their inner edges is exact |
| `CycleTypeOnly.FoundCycle` | rust/crates/graph-algorithms/src/scc.rs:219-225 | the nontrivial components the search returns are disjoint genuine components of two or more nodes |
| `CycleTypeOnly.ReportedCycleVerdict` | rust/crates/agent/src/cycle_type_only.rs:254-308 | end to end: for the cycles the component search finds, a report with known facts says exactly whether a runtime cycle remains, and is missing exactly without a TS/JS member |
| `CycleTypeOnly.VerdictExactness` | rust/crates/agent/src/cycle_type_only.rs:187-225 | with all facts known, "has runtime edges" coincides with "a runtime cycle remains" if and only if some edge is type-only or the edges hold a cycle through two nodes |
| `CycleTypeOnly.AcyclicRuntimeEdges` | rust/crates/agent/src/cycle_type_only.rs:210-214 | one runtime edge and no cycle still give "has runtime edges" |
| `CycleTypeOnly.RelabellingNeverRevives` | rust/crates/agent/src/cycle_type_only.rs:187-225 | turning runtime facts into type-only facts never brings back "has runtime edges" |
| `CycleTypeOnly.VerdictForgetsOrder` | rust/crates/agent/src/cycle_type_only.rs:187-241 | the verdict is the same for every permutation of the edges |
| `CycleTypeOnly.ContainingDirsNest` | rust/crates/agent/src/cycle_type_only.rs:120-122 | directories that contain one path contain each other by length |
| `CycleTypeOnly.DeepestOwnerUnique` | rust/crates/agent/src/cycle_type_only.rs:136-160 | so the longest containing directory is unique |
| `CycleTypeOnly.DeepestDir` | rust/crates/agent/src/cycle_type_only.rs:149-152 | the chosen directory contains the path and none longer does; none is chosen only if none contains it |
| `CycleTypeOnly.TsJsCycleMemberDirs` | rust/crates/agent/src/cycle_type_only.rs:136-160 | exactly the member directories that deepest-own a TS/JS file, as a function of sets and hence of no order |
| `CycleTypeOnly.CollectMembers` | rust/crates/agent/src/cycle_type_only.rs:260-275 | the owner map sends a node to the last cycle listing it |
| `CycleTypeOnly.FillBuckets` | rust/crates/agent/src/cycle_type_only.rs:276-293 | each bucket is the input-order filter of non-self edges whose two ends have that owner |
| `CycleTypeOnly.BucketIsInnerEdges` | rust/crates/agent/src/cycle_type_only.rs:276-293 | for disjoint cycles the bucket is the plain filter by membership |
| `CycleTypeOnly.InnerCounts` | rust/crates/agent/src/cycle_type_only.rs:276-293 | a cycle's edges are the non-self edges between two of its members, each as often as the snapshot lists it |
| `CycleTypeOnly.ReportIsVerdict` | rust/crates/agent/src/cycle_type_only.rs:276-308 | a report is the verdict on exactly those edges, whatever their order |
| `CycleTypeOnly.ClassifyCyclesTypeOnly` | rust/crates/agent/src/cycle_type_only.rs:254-308 | each cycle gets its bucket's verdict, and none if and only if no member directory deepest-owns a TS/JS file |
| `CycleTypeOnly.GateMeaning` | rust/crates/agent/src/cycle_type_only.rs:114-160 | a cycle has a report if and only if some member directory is the longest of all module directories that hold some TypeScript or JavaScript file, a directory holding itself and what continues it after a slash |
| `CycleComposition.ClassifyModule` | rust/crates/agent/src/cycle_composition.rs:71-87 | production, test-only or fileless, as a statement on the set of owned files |
| `CycleComposition.ClassifyOne` | rust/crates/agent/src/cycle_composition.rs:116-156 | with a sound memo the result is the memo-free classification, and the memo stays sound and only grows |
| `CycleComposition.ClassifyCycles` | rust/crates/agent/src/cycle_composition.rs:96-106 | sharing the memo changes no cycle's result |
| `CycleComposition.CycleMeaning` | rust/crates/agent/src/cycle_composition.rs:108-156 | production if and only if a member owns a non-test file; test-only if and only if there are members and each owns files, all of them tests |
| `CycleComposition.OwnsMeaning` | rust/crates/agent/src/cycle_composition.rs:71-75 | a module owns its own path and what continues it after a slash, and nothing else |
| `CycleComposition.ReasonMeaning` | rust/crates/agent/src/cycle_composition.rs:122-156 | an unprovable cycle names its first member without a path or without files |
| `CycleComposition.KindForgetsOrder` | rust/crates/agent/src/cycle_composition.rs:116-156 | reordering members never changes the kind of the result |
| `CycleComposition.PartitionCounts` | rust/crates/agent/src/cycle_composition.rs:183-204 | production and test-only counts add up to the number of cycles, unknowns are counted exactly and inside production |
| `PackageGroups.NearestManifestRoot` | rust/crates/agent/src/package_groups.rs:311-326 | a covering root that no covering root exceeds in length, none only if nothing covers |
| `PackageGroups.ClassifyForgetsOrder` | rust/crates/agent/src/package_groups.rs:269-326 | the merge key depends on the set of manifest roots alone |
| `PackageGroups.Accumulate` | rust/crates/agent/src/package_groups.rs:155-166 | the fold holds, for exactly the merge keys, the summed counts of the directories merging there and whether a manifest gave the key |
| `PackageNames.CommonSegmentPrefix` | rust/crates/agent/src/package_groups.rs:337-355 | the loop with its early exit computes the common prefix |
| `PackageNames.CommonPrefixMeaning` | rust/crates/agent/src/package_groups.rs:333-355 | a segment run leads every key if and only if it leads the common prefix |
| `PackageNames.ShortestDistinguishingSuffix` | rust/crates/agent/src/package_groups.rs:402-423 | computes the distinguishing suffix specification |
| `PackageNames.DistinguishingMeaning` | rust/crates/agent/src/package_groups.rs:398-423 | the name is the shortest segment suffix not shared at equal length by another colliding key, or the whole key |
| `PackageNames.DistinguishingIsInjective` | rust/crates/agent/src/package_groups.rs:398-423 | names of one colliding set are pairwise distinct, across suffix lengths and whole-key fallbacks |
| `PackageGroups.Disambiguate` | rust/crates/agent/src/package_groups.rs:383-397 | rewriting names in place gives every colliding entry its distinguishing suffix and leaves the others alone |
| `PackageGroups.GroupByDisplay` | rust/crates/agent/src/package_groups.rs:384-387 | every display name is mapped to exactly the positions that carry it, ascending |
| `PackageGroups.RenameSet` | rust/crates/agent/src/package_groups.rs:388-396 | one set of positions is renamed by its own keys alone; a set of one keeps its name |
| `PackageGroups.CollidingNamesApart` | rust/crates/agent/src/package_groups.rs:374-397 | entries that first rendered alike end up with different names |
| `PackageUniqueness.RollupRenders` | rust/crates/agent/src/package_groups.rs:171-193 | a rendered name without a slash is its key's last segment, and a name with a slash belongs to one key only |
| `PackageUniqueness.RollupNamesDistinctIff` | rust/crates/agent/src/package_groups.rs:135-213 | the returned groups have different names if and only if no directory key consists of the collapsed prefix followed by the segments, two or more, that a colliding key keeps |
| `PackageUniqueness.ManifestGroupsDistinct` | rust/crates/agent/src/package_groups.rs:135-213 | a roll-up whose directories all lie under manifest roots never returns one name twice |
| `PackageUniqueness.RollupNamesCanCollide` | rust/crates/agent/src/package_groups.rs:135-213 | four directories and two crates whose returned groups show one name twice |
| `PackageGroups.RollupPackageGroups` | rust/crates/agent/src/package_groups.rs:135-213 | the whole pipeline computes the roll-up specification, sorted by size, then name |
| `PackageMeaning.ClassifyMeaning` | rust/crates/agent/src/package_groups.rs:269-326 | a directory merges into the longest manifest root that holds it, `.` holding everything only without nested roots; without one it keeps its path, less a leading `src/main/` or `src/test/` |
| `PackageUniqueness.CommonMeaning` | rust/crates/agent/src/package_groups.rs:171-176 | a run of segments leads what is collapsed if and only if it leads every directory key, manifest keys having no say |
| `PackageMeaning.RollupMeaning` | rust/crates/agent/src/package_groups.rs:135-213 | one group for each merge key, with the files and test files of exactly the directories merging into it; it is named by the key's label (the last segment of a manifest key, what follows the shared run in a directory key) or, if another key has the label, by the fewest last segments that tell it apart |
| `PackageMeaning.RollupOrder` | rust/crates/agent/src/package_groups.rs:204-212 | bigger groups come first, groups of one size by name |
| `PackageGroups.RollupForgetsOrder` | rust/crates/agent/src/package_groups.rs:135-213 | the output list is identical for every permutation of directories and of manifest roots |
| `PackageGroups.RollupConserves` | rust/crates/agent/src/package_groups.rs:135-213 | file counts and test-file counts over groups equal those over directories |
| `Surface.UidInjective` | rust/crates/boundary-interaction/src/surface.rs:142-159 | for one repository the printed uid determines file, line, column, kind and direction, even when the path contains colons |
| `Surface.Utf8Meaning` | rust/crates/boundary-interaction/src/channel.rs:129-133 | the hashed bytes are the shortest UTF-8 form of each character |
| `BindingTable.LoadEntries` | rust/crates/boundary-interaction/src/table.rs:261-338 | accepts exactly the faultless entry lists, unchanged, and otherwise reports the first faulty entry with its first fault |
| `BindingTable.AcceptedMeaning` | rust/crates/boundary-interaction/src/table.rs:261-338 | acceptance is valid fields plus unique (language, function, kind), whatever the order |
| `BindingTable.FaultMeaning` | rust/crates/boundary-interaction/src/table.rs:261-338 | the fault of an entry, first check first: blank family, blank function, fixed scope missing, notes over 200 bytes, or the same language, function and kind as an earlier entry, the first such being named |
| `BindingTable.KindsNeverClash` | rust/crates/boundary-interaction/src/table.rs:320-338 | entries that differ in kind are accepted together |
| `BindingTable.FindByFunctionOrder` | rust/crates/boundary-interaction/src/table.rs:371-376 | the candidates are exactly the entries of that language and function, each once and in declaration order |
| `Emitter.SelectionIsFirst` | rust/crates/boundary-interaction-extractor/src/emit.rs:242-276 | the selected binding is the first entry, in declaration order, that passes lookup, family filter and guard; nothing is selected only if nothing passes |
| `Emitter.SocketCallKind` | rust/crates/boundary-interaction-extractor/src/emit.rs:323-413 | with bindings of all three socket kinds, a `socket` call is Unix, TCP or UDP exactly by family and type, and otherwise nothing |
| `EmissionMeaning.AppliesIff` | rust/crates/boundary-interaction-extractor/src/emit.rs:242-460 | lookup, family filter and guard pass an entry if and only if language, function and family agree and the callsite shows what the kind asks for, kind by kind |
| `Emitter.SelectionOrderFreeIff` | rust/crates/boundary-interaction-extractor/src/emit.rs:251-276 | table order is immaterial for a callsite if and only if at most one entry passes |
| `Emitter.SocketSelectionOrderFree` | rust/crates/boundary-interaction-extractor/src/emit.rs:251-276 | for an accepted table and socket-only candidates the selection is the same under any permutation of the table |
| `Emitter.BoundaryInteractionEmitter.constructor` | rust/crates/boundary-interaction-extractor/src/emit.rs:210-218 | a new emitter holds nothing and satisfies the invariant |
| `Emitter.BoundaryInteractionEmitter.TryEmit` | rust/crates/boundary-interaction-extractor/src/emit.rs:238-310 | never fails; the whole new state is the insert-if-absent of surface and channel plus one listing, and the invariant is kept |
| `EmissionMeaning.EmitMeaning` | rust/crates/boundary-interaction-extractor/src/emit.rs:238-310 | a call is emitted if and only if some entry applies, as the first such entry says: the surface faces Consumer for receivers and consumers, Provider for senders and providers and both ways otherwise, with the entry's kind and scope, the callsite's function and narrowed positions, the uid that prints them, and the channel |
| `EmissionMeaning.SurfaceShows` | rust/crates/boundary-interaction-extractor/src/emit.rs:556-625 | every field of the built surface, from the entry and the callsite |
| `EmissionMeaning.ChannelShows` | rust/crates/boundary-interaction-extractor/src/emit.rs:627-670 | the channel is identified by the argument, or else by file and line, and its uid ends in sixteen digits for the identity's hash |
| `EmissionMeaning.WrappedOnce` | rust/crates/boundary-interaction/src/channel.rs:131-133 | wrapping at every byte gives the polynomial in 31 over the bytes, modulo 2^64 |
| `EmissionMeaning.SendExample` | rust/crates/boundary-interaction/src/table.rs:98-109 | an `mq_send` call of the embedded table is a provider under the uid printed for it |
| `EmissionMeaning.EmissionStored` | rust/crates/boundary-interaction-extractor/src/emit.rs:288-303 | after an emission exactly one surface and one channel may be new, what was there stays, and one listing is added for shared memory alone |
| `Emitter.BoundaryInteractionEmitter.Store` | rust/crates/boundary-interaction-extractor/src/emit.rs:288-303 | what is there already is kept, what is missing is inserted, what needs dual projection is listed |
| `Emitter.BoundaryInteractionEmitter.UpdateSurfaceDirection` | rust/crates/boundary-interaction-extractor/src/emit.rs:725-787 | the whole new state and the answer: the uid the surface now has, or that it is not stored; the invariant is kept |
| `EmissionMeaning.UpdateMeaning` | rust/crates/boundary-interaction-extractor/src/emit.rs:725-787 | an update moves a surface that faces another way, otherwise unchanged, to the uid printed for the new direction and answers with it; a missing uid is an error and a surface that faces the way already stays |
| `EmissionMeaning.UpdateFollows` | rust/crates/boundary-interaction-extractor/src/emit.rs:754-783 | the surface's channels point at the new uid, its first listing is renamed, and other channels and listings stay |
| `Emitter.BoundaryInteractionEmitter.Rekey` | rust/crates/boundary-interaction-extractor/src/emit.rs:746-786 | the surface goes back under its new uid, its channels follow, and its first listing is renamed |
| `Emitter.BoundaryInteractionEmitter.RepointChannels` | rust/crates/boundary-interaction-extractor/src/emit.rs:757-774 | all channels of the old uid and no others are repointed, whatever the map order |
| `Emitter.BoundaryInteractionEmitter.Clear` | rust/crates/boundary-interaction-extractor/src/emit.rs:699-703 | back to the empty state |
| `Emitter.RunWellKeyed` | rust/crates/boundary-interaction-extractor/src/emit.rs:191-787 | over every run of emissions, updates and clears each surface sits under its own printed uid and every channel names a stored surface |
| `Emitter.UpdateDualExactIff` | rust/crates/boundary-interaction-extractor/src/emit.rs:776-783 | an update keeps the dual-projection list exact if and only if the surface needs none, has the direction already or is listed once |
| `Emitter.RunDualExact` | rust/crates/boundary-interaction-extractor/src/emit.rs:288-294 | over every run whose updates meet that condition the list names exactly the stored surfaces that need dual projection |
| `Emitter.PlainRunDualExact` | rust/crates/boundary-interaction-extractor/src/emit.rs:776-783 | in particular over every run that updates only kinds without dual projection |
| `Emitter.RepeatedEmitThenTurn` | rust/crates/boundary-interaction-extractor/src/emit.rs:776-783 | one `shm_open` call emitted twice and turned by hand leaves a stale uid listed |
| `SocketLineage.TrackedMeaning` | rust/crates/boundary-interaction-extractor/src/socket_lineage.rs:144-195 | after any trace an entry belongs to the latest registration and its evidence is exactly what was recorded since |
| `SocketLineage.RefinedMeaning` | rust/crates/boundary-interaction-extractor/src/socket_lineage.rs:70-96 | exactly the latest-registered TCP sockets seen connecting, listening or accepting are refined; connecting makes a consumer, otherwise a provider; UDP never |
| `SocketLineage.FdRegistry.RegisterSocket` | rust/crates/boundary-interaction-extractor/src/socket_lineage.rs:144-159 | a registration replaces any earlier entry and starts without evidence |
| `SocketLineage.FdRegistry.RecordCall` | rust/crates/boundary-interaction-extractor/src/socket_lineage.rs:164-195 | evidence is added to a tracked identifier, anything else is ignored |
| `SocketLineage.FdRegistry.IsTracked` | rust/crates/boundary-interaction-extractor/src/socket_lineage.rs:198-200 | true exactly for identifiers with an entry |
| `SocketLineage.FdRegistry.DrainForRefinement` | rust/crates/boundary-interaction-extractor/src/socket_lineage.rs:214-229 | empties the registry and returns one pair for each refined identifier and none other, in some order |
| `Commutation.UpdatesCommute` | rust/crates/boundary-interaction-extractor/src/emit.rs:725-787 | two updates commute on the whole state, stored or not, when they name different spots or agree on one |
| `Commutation.EmitUpdateCommute` | rust/crates/boundary-interaction-extractor/src/emit.rs:238-787 | an emission and an update at different sites commute on the whole state |
| `Commutation.EmitsCommute` | rust/crates/boundary-interaction-extractor/src/emit.rs:238-310 | emissions at different sites commute but for the order of listings |
| `Commutation.RunsCommute` | rust/crates/boundary-interaction-extractor/src/emit.rs:238-787 | so do whole runs of operations at different sites |
| `Refinement.ApplySucceeds` | rust/crates/boundary-interaction-extractor/src/emit.rs:725-787 | when no two refined surfaces share a spot, each is found as it was at the start when its turn comes |
| `Refinement.ApplyForgetsOrder` | rust/crates/boundary-interaction-extractor/src/emit.rs:725-787 | every order of pairwise agreeing refinements ends in the same emitter state |
| `Refinement.ApplyMeaning` | rust/crates/boundary-interaction-extractor/src/emit.rs:725-787 | afterwards each surface is stored, turned, under its new uid, the origins are gone unless nothing was asked of them, and every surface at neither kind of uid is as it was |
| `Refinement.OccupiedIsOverwritten` | rust/crates/boundary-interaction-extractor/src/emit.rs:784 | a surface that is no origin but sits at a turned uid is overwritten and lost |
| `Refinement.NothingLostIff` | rust/crates/boundary-interaction-extractor/src/emit.rs:725-787 | no surface is lost if and only if no turned uid is taken by a surface that is not itself turned |
| `SocketPass.CallsAreRun` | rust/crates/repo-index/src/compose.rs:2278-2400 | registry and emitter go through a trace and a run that depend on the calls alone |
| `SocketPass.EntryPlace` | rust/crates/repo-index/src/compose.rs:2288-2312 | after any calls every tracked socket's surface is stored, at the place printed by the TCP or UDP call that registered it |
| `SocketPass.OriginsApart` | rust/crates/repo-index/src/compose.rs:2288-2312 | with socket calls at different sites, different variables have surfaces at different spots |
| `SocketPass.FunctionUpdatesSucceed` | rust/crates/repo-index/src/compose.rs:2403-2408 | then every refinement of a function finds its surface as the calls left it |
| `SocketPass.FunctionForgetsDrainOrder` | rust/crates/repo-index/src/compose.rs:2278-2408 | whatever order the registry is drained in, the emitter ends in the same state, unless two variables clash over one surface |
| `SocketPass.DrainOrderFreeIff` | rust/crates/repo-index/src/compose.rs:2278-2408 | when no turned uid is taken already, the order is immaterial if and only if no two refined variables share a surface and pull it different ways |
| `SocketPass.DistinctSitesNeverClash` | rust/crates/repo-index/src/compose.rs:2278-2408 | socket calls at different sites never clash |
| `SocketPass.FunctionLosesNothing` | rust/crates/repo-index/src/compose.rs:2278-2408 | calls at different and unvisited sites: the refinements overwrite no surface |
| `SocketPass.FunctionDualExact` | rust/crates/repo-index/src/compose.rs:2278-2408 | a function's calls and refinements keep the dual-projection list exact, from any state and for any table |
| `SocketPass.ProcessFunction` | rust/crates/repo-index/src/compose.rs:2278-2408 | the loop over one function leaves the emitter in the state of its calls followed by its refinements |
| `SocketPass.ProcessCall` | rust/crates/repo-index/src/compose.rs:2281-2397 | one call is emitted or recorded, never both, as the tracked descriptor decides |
| `SocketMeaning.EvidenceMeaning` | rust/crates/repo-index/src/compose.rs:2318-2396 | a bind, listen, connect or accept on the variable of a TCP or UDP socket opened before stores nothing; every other call is emitted |
| `SocketMeaning.EventMeaning` | rust/crates/repo-index/src/compose.rs:2288-2396 | what one call does to a variable's entry: a TCP or UDP `socket` call assigned to it starts it afresh, and a call on it sets the flag of its own name and no other |
| `SocketMeaning.EntriesMeaning` | rust/crates/repo-index/src/compose.rs:2281-2397 | after any calls a variable is tracked from its latest TCP or UDP `socket` call on, with one flag for each kind of call made on it since |
| `SocketMeaning.ResolvedMeaning` | rust/crates/boundary-interaction-extractor/src/socket_lineage.rs:70-96 | a tracked TCP socket consumes if `connect` was called on it since, otherwise provides if `listen` or `accept` was, and otherwise stays as it is; a UDP socket always does |
| `SocketMeaning.FunctionMeaning` | rust/crates/repo-index/src/compose.rs:2278-2408 | after a function with `socket` calls at different sites the surface of each latest socket is stored as emitted or, if the calls tell its role, turned that way at the same place |
| `SocketMeaning.SocketFacing` | rust/crates/repo-index/src/compose.rs:2278-2408 | with `socket` declared as setup, as in the embedded table, it faces the way the calls tell and both ways if they tell nothing |
| `SocketMeaning.FunctionKeepsRest` | rust/crates/repo-index/src/compose.rs:2401-2408 | every surface that sits at no `socket` call is as the calls left it |
| `FilePass.GroupCalls` | rust/crates/repo-index/src/compose.rs:2268-2275 | every function is mapped to its calls in source order |
| `FilePass.CallsInOrder` | rust/crates/repo-index/src/compose.rs:2268-2275 | a function's calls are those of the file inside it, in their order |
| `FileMeaning.EveryCallOnce` | rust/crates/repo-index/src/compose.rs:2268-2278 | every call of a file is processed with exactly one function, together with that function's other calls alone |
| `FileMeaning.FileFacing` | rust/crates/repo-index/src/compose.rs:2262-2410 | after a file whose calls sit at different positions, each latest socket of a function is stored where it was opened, facing the way the calls on it in that function tell |
| `FilePass.ProcessFile` | rust/crates/repo-index/src/compose.rs:2262-2410 | a file leaves the emitter in the state of its functions, in some order, each drained in some order |
| `FilePass.FunctionsCommute` | rust/crates/repo-index/src/compose.rs:2278-2408 | two functions whose calls sit at different sites commute on surfaces, channels and the listings up to order |
| `FilePass.FileForgetsOrder` | rust/crates/repo-index/src/compose.rs:2262-2410 | whatever order a file's functions and their sockets are taken in, surfaces and channels come out the same, and the listings up to order |
| `FilePass.RunAllExact` | rust/crates/repo-index/src/compose.rs:2220-2410 | over any functions, from an empty emitter on, the dual-projection list stays exact |
| `FilePass.ProgramLosesNothing` | rust/crates/repo-index/src/compose.rs:2220-2410 | over all functions of all files, with all calls at different sites, no refinement overwrites a surface |
| `HttpLink.RouteMatchingLaws` | rust/crates/boundary-interaction/src/http_link.rs:118-127 | matching is reflexive and symmetric, and any number of trailing slashes on either side is immaterial |
| `LinkMeaning.RouteMeaning` | rust/crates/boundary-interaction/src/http_link.rs:112-127 | routes match if and only if, trailing slashes aside, they have equally many segments and each is equal on both sides or `{…}`, `:…` or `*` on one |
| `LinkMeaning.LiteralRoutes` | rust/crates/boundary-interaction/src/http_link.rs:112-127 | routes without such segments match if and only if they are equal up to trailing slashes |
| `LinkMeaning.EveryRoute` | rust/crates/boundary-interaction/src/http_link.rs:118-121 | every route has such segments and slashes |
| `HttpLink.MatchConsumer` | rust/crates/boundary-interaction/src/http_link.rs:142-166 | unique, ambiguous or none by the number of provider rows that fit |
| `HttpLink.SettleConsumer` | rust/crates/boundary-interaction/src/http_link.rs:186-208 | a consumer without a route is dynamic, the others fall under what their route matches |
| `HttpLink.LinkedIff` | rust/crates/boundary-interaction/src/http_link.rs:142-209 | a consumer is linked if and only if it has a route and exactly one provider row fits it, and to that row |
| `HttpLink.StatusForgetsOrder` | rust/crates/boundary-interaction/src/http_link.rs:142-209 | the order of provider rows is immaterial |
| `HttpLink.AddedProvider` | rust/crates/boundary-interaction/src/http_link.rs:142-209 | one more provider row moves a fitting consumer from unmatched to linked or from linked to ambiguous and changes no other |
| `HttpLink.AddedProviderCounts` | rust/crates/boundary-interaction/src/http_link.rs:173-212 | over the whole set ambiguity never shrinks, the unmatched count never grows and the dynamic count stays |
| `HttpLink.FindHttpLinks` | rust/crates/boundary-interaction/src/http_link.rs:173-212 | links in consumer order, exact counts per reason, and links plus the three counts equal the number of consumers |
| `LinkMeaning.StatusMeaning` | rust/crates/boundary-interaction/src/http_link.rs:142-209 | what becomes of a consumer, by the number of provider surfaces of fitting method and route |
| `LinkMeaning.LinksMeaning` | rust/crates/boundary-interaction/src/http_link.rs:173-212 | the links are exactly the consumer surfaces with exactly one fitting provider surface, joined to it, each side with its own route |
| `LinkMeaning.CountsMeaning` | rust/crates/boundary-interaction/src/http_link.rs:173-212 | the three counts are the consumer surfaces without a route, with no fitting provider and with several |
| `StableKeys.ExtractionCtx.MakeStableKey` | rust/crates/c-extractor/src/extractor.rs:262-281 | returns the base key or its numbered form and counts the request |
| `StableKeys.ExtractionCtx.MakeAll` | rust/crates/c-extractor/src/extractor.rs:262-281 | a run of requests on one context returns pairwise distinct keys |
| `StableKeys.KeyMeaning` | rust/crates/c-extractor/src/extractor.rs:262-281 | the first request for a name and subtype gets `repo:file#name:SYMBOL:SUBTYPE`, the n-th that with `:dup` and n |
| `StableKeys.BaseKeyInjective` | rust/crates/c-extractor/src/extractor.rs:269-272 | in one file different names or subtypes have different base keys, whatever characters the names hold |
| `StableKeys.PlainIsNotNumbered` | rust/crates/c-extractor/src/extractor.rs:269-280 | no plain key equals a numbered key, whatever the symbol names |
| `StableKeys.NumberedInjective` | rust/crates/c-extractor/src/extractor.rs:269-280 | a printed key determines its base key and its number |
| `StableKeys.KeysNeverRepeat` | rust/crates/c-extractor/src/extractor.rs:262-281 | any two requests of a run get different keys |

## Left out

- Cancellation of the component search (`find_sccs_cancellable`): the checkpoint
  is taken never to break.
- FindSccs: beyond the reverse topological order and the stack order inside a
  component nothing is claimed about the order of components and members.
- WalkForgetsOrder: assumes distinct member ids. With a repeated id the display
  map keeps the last name, so member order shows.
- FunctionForgetsDrainOrder: assumes an accepted table and calls of one language,
  which the loader and the C-only caller guarantee; otherwise two bindings of one
  kind could put surfaces of both directions at one spot.
- FileForgetsOrder: assumes that the calls of a file sit at different positions, as
  different call nodes of a syntax tree do before line and column numbers are cut
  to 32 bits.
- FunctionMeaning: assumes `socket` calls at different sites, as do the lemmas built on
  it; two at one site share one surface, and what then happens is `DrainOrderFreeIff`.
- BuildChannelUid: the 64-bit identity hash is modelled but claimed nowhere to be
  injective; channels of one surface with colliding hashes merge, as in the code.
- Surface and channel fields no key or guard reads: transport class, protocol,
  interaction pattern, basis, confidence, evidence, snapshot, extractor,
  mechanism-specific addresses. `SurfaceBuilder` and its validation are not on
  the emitter's path.
- `DetectionRole` beyond its direction, and the binding fields `basis`,
  `interaction_pattern` and `arg_index`.
- TOML parsing of the binding table: loading starts from parsed entries.
  Source walking, call-site conversion and argument extraction are inputs.
- FindHttpLinks: links carry the two rows; the upper-cased method name is not
  modelled, because Unicode upper-casing is not.
- The error path of the surrounding indexer and what it stores: `try_emit` never
  fails, so the loop's early returns are not reached.
- `root_manifest_limitation` and all reader-facing prose.
- The serialisation fallback of `make_stable_key`: every modelled subtype has
  its serialised name.
- Overflow of counters, and time and memory beyond the iteration bound of the
  walk search.
- Ranking, ordering and confidence ladders elsewhere in the agent crate, which
  would only add single-comparator sorts.
