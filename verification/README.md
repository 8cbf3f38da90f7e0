# Release and documentation tooling, verified

A Dafny model of the rust-broadcast workspace's release and documentation tools, with proofs
of what they promise: which release waves are safe, what the publish order and the dependency
layers mean on every graph, how two independent version models agree, and that the small text
compilers and scanners keep the meaning of what they read.

## What is modelled

| file | part of the system |
|---|---|
| `Digraph.dfy`, `PublishOrder.dfy`, `NormalPath.dfy`, `DevCycles.dfy` | the release graph: walks, Kahn's publish order (check 4), breadth-first path recovery, dev-dependency cycles (check 3) |
| `Versions.dfy` | version order, caret epochs, bump buckets, requirement admission |
| `Workspace.dfy`, `Wave.dfy`, `Findings.dfy` | manifests, the index of published crates as a state machine, the two classifiers, and what every run of the machine keeps |
| `OrderSafety.dfy` | for which requirements, of any kind, publish orders are safe |
| `ReleaseGate.dfy` | the whole gate of the published-dependency check, and that waves keep it |
| `Homogeneity.dfy`, `BumpClass.dfy` | checks 1 and 2 of the published-dependency check |
| `Finalize.dfy`, `VersionText.dfy` | the pre-tag check's own epochs and floors, on numbers and on text, and how they meet admission |
| `Layers.dfy`, `Reduction.dfy` | memoised dependency layers, dependents lists, transitive reduction |
| `TextSearch.dfy`, `Splice.dfy`, `Snippets.dfy` | generated regions and README dependency snippets |
| `NameTable.dfy` | the registry-name compiler of the build script, and its escaping |
| `Scanners.dfy`, `Ancestors.dfy` | the string scanners and the directory fixpoint of the citation check |
| `TableText.dfy` | Markdown tables written by the HTML converter |

Conventions. A version is its sequence of numbers plus the text of a pre-release or build suffix.
A requirement is a datatype with one constructor per path through the matching code. Where a tool
sorts names or iterates over a set, the model leaves the order open (`PublishOrder.Enumerate`, or
a free choice in a loop), so results hold for every order. Lookups at crates.io are inputs; where a result
asks for a `Sane` index, no unyanked version is above the latest one and an unpublished crate has none.

## Where a natural claim is false

Each is shown by a lemma, together with the exact condition under which the claim holds.

- A gate that passes is not kept by every sequence of publish steps: a crate that was never published is
  not looked at by the first loop, and once published its stale manifest blocks
  (`ReleaseGate.NewCrateBreaksGate`). The gate is kept if and only if every manifest of the wave is clean:
  its stale entries that the tree still has are resolvable dev entries, and it agrees with the tree's epochs
  where a recorded requirement would take it (`ReleaseGate.GateKeptIff`; for one run
  `ReleaseGate.GateAfterRunIff`, along an order `ReleaseGate.CertifiedRelease`). A tree whose entries are all
  on their crates' epochs is clean (`ReleaseGate.OnEpochIsClean`).

- A requirement without a version token counts as satisfied but admits nothing, so the emitted
  order is safe if and only if no crate of the wave has one (`Wave.WaveSafety`,
  `Findings.TokenlessRequirementUnready`). This is a text the function accepts, not one Cargo produces:
  `cargo metadata` writes a requirement without numbers as `*`, which is skipped.
- Build and dev requirements are classified like the others but are not edges of the publish order, so
  an emitted order can publish a crate before what it needs (`Findings.BuildRequirementsUnordered`). All
  valid orders are safe for a kind of requirement if and only if each unmet one is also a normal
  dependency, direct or not (`OrderSafety.EveryOrderSafeIff`; for one order, `OrderSafety.SafeWaveIff`).
- A dependency dropped in-tree is called pending even when its crate has nothing to publish, and then
  no wave clears it (`Findings.DroppedDependencyStays`).
- Only the last entry per pair of crates is recorded, so a later dev entry hides a stale normal one
  and the finding it causes is called pending although publishing does not clear it
  (`Findings.HiddenEntryStaysStale`). `Findings.PendingHeals` gives the exact condition for both.
- `0` and `0.0` admit only 0.0.0 instead of Cargo's caret range (`Versions.CaretIsInterval`).
- The floor check skips a sibling whose version has a suffix (`Finalize.FloorsRuleOutOlderIff`), and
  the two tools' epochs differ exactly at 0.0.z (`Finalize.TagEpochIsCompatIff`), where alone both checks
  can pass over a crate resolvable in two epochs (`Homogeneity.SilentSplitIff`).
- Splicing a body that contains the end marker is not idempotent (`Splice.SpliceIdempotentIff`).
- A table without columns does not read back (`TableText.RoundTripIff`).
- The compiled name table is not always a scan of the file (`NameTable.OverlapDiffers`). It is if and only
  if wherever a range is the first to contain an id, and no exact entry has it, its name is also that of
  the range that starts lowest there (`NameTable.TableIsScanIff`). Two simpler conditions on pairs of
  ranges suffice (`NameTable.CompiledIsScan`, `NameTable.DisjointIsInFileOrder`).
- The requirement written into a snippet does not always pass the pre-tag epoch check: for a version with a
  suffix, a snippet of three components gets the start of the suffix too. It passes if and only if it stops
  short of the suffix (`VersionText.RewrittenPassesIff`).
- The documentation of the publish-order function calls the leftover crates the nodes involved in a cycle; the
  code returns those and everything they depend on (`PublishOrder.PublishOrder`).

## Model

| member | source | states |
|---|---|---|
| PublishOrder.PublishOrder | tools/check-published-dep-consistency.py:736-783 | the cycle list is empty iff the normal graph is acyclic, and then the order lists every crate once with dependencies first; otherwise it is exactly the crates on or below a cycle, and the order holds exactly the others |
| PublishOrder.InDegrees | tools/check-published-dep-consistency.py:747-756 | the counters count each crate's direct dependents |
| PublishOrder.StepKeepsState | tools/check-published-dep-consistency.py:760-766 | one turn of the queue loop keeps: counters count the unemitted dependents, zero counters are the emitted or queued crates, no crate twice, dependents first |
| PublishOrder.LeftoverIsBelowCycle | tools/check-published-dep-consistency.py:768-771 | when the queue is empty the crates with a positive counter are exactly those on or below a cycle |
| PublishOrder.ReverseIsValid | tools/check-published-dep-consistency.py:774-783 | reversing a complete dependents-first order gives a valid publish order |
| NormalPath.FindNormalPath | tools/check-published-dep-consistency.py:707-731 | None iff the target is unreachable; otherwise a duplicate-free walk of minimum length |
| NormalPath.WalkBack | tools/check-published-dep-consistency.py:719-725 | following the parents ends at the start and spells a walk as long as the target's depth |
| NormalPath.NoShortcut | tools/check-published-dep-consistency.py:716-730 | no walk shorter than the depth of the queue's head reaches a crate not yet met |
| DevCycles.NormalClosure | tools/check-published-dep-consistency.py:680-691 | the closure holds exactly what is reachable in one step or more |
| DevCycles.CheckDevCycles | tools/check-published-dep-consistency.py:662-704 | one report for each dev edge whose target normal-depends on its source, each with a real shortest path; none iff there is no such edge |
| DevCycles.SilentIffNoLoop | tools/check-published-dep-consistency.py:662-783 | checks 3 and 4 are both silent iff no closed walk uses at most one dev edge |
| DevCycles.CheckGraph | tools/check-published-dep-consistency.py:1056-1060 | running both checks certifies the absence of such loops and yields a valid order |
| Versions.CompareOrder | tools/check-published-dep-consistency.py:429-457 | comparison is a total preorder, an order on padded sequences, and strictly transitive |
| Versions.LexIsFirstDifference | tools/check-published-dep-consistency.py:429-457 | one list of components is below another iff it is smaller at the first difference or ends there |
| Versions.EpochMonotone | tools/check-published-dep-consistency.py:338-359 | epochs never go down along the version order |
| Versions.EpochLessIff | tools/check-published-dep-consistency.py:938-942 | one epoch is below another iff they differ and its version is the lower one |
| Versions.EpochConvex | tools/check-published-dep-consistency.py:338-359 | an epoch is an unbroken stretch of versions |
| Versions.ReqAdmits | tools/check-published-dep-consistency.py:362-410 | the clause loop with early exits decides admission: all clauses, or same epoch and not below the floor |
| Versions.ClauseMeaning | tools/check-published-dep-consistency.py:384-403 | each operator by where the version stands to the bound, the bound itself included or not |
| Versions.AdmitsByForm | tools/check-published-dep-consistency.py:384-410 | comparators admit what every clause admits and nothing if one cannot be read; other text admits what the caret form of its token does |
| Versions.ReqTokenIff | tools/check-published-dep-consistency.py:335-352 | the version a requirement names is its caret floor, the token of other text, or the first token among its clauses |
| Versions.AdmitsConvex | tools/check-published-dep-consistency.py:384-403 | every requirement admits an unbroken stretch of versions |
| Versions.CaretIsInterval | tools/check-published-dep-consistency.py:405-410 | caret admission is the interval from the floor to the next caret ceiling, iff the requirement is not 0 or 0.0 |
| Versions.NoTokenAdmitsNothing | tools/check-published-dep-consistency.py:384-410 | a requirement without a version token admits no version |
| Versions.EpochFixesBucket | tools/check-published-dep-consistency.py:413-426 | versions of one epoch share a bucket |
| Versions.BucketIff | tools/check-published-dep-consistency.py:413-426 | two versions share a bucket iff they share an epoch or are both 0.0.z |
| Versions.NextBumpIsLeast | tools/check-published-dep-consistency.py:651-657 | the suggested version is above all of the bucket, outside it, and the least such version |
| Workspace.WorkspaceDependencies | tools/check-published-dep-consistency.py:149-178 | each pair of members maps to the last non-wildcard entry |
| Workspace.LastEntryIff | tools/check-published-dep-consistency.py:165-178 | what is recorded for a sibling is the last entry on it that is not a wildcard |
| Workspace.DepMap | tools/check-published-dep-consistency.py:194-222 | the loops over the manifests build the graph of one kind of dependency |
| Workspace.EdgesAreEntries | tools/check-published-dep-consistency.py:194-222 | normal entries on members are the edges of one graph, dev entries of the other, and build entries of neither |
| Workspace.RecordedNormalIsEdge | tools/check-published-dep-consistency.py:194-207 | a recorded normal requirement is an edge of the publish-order graph |
| Wave.AnyPublished | tools/check-published-dep-consistency.py:305-313 | true iff some unyanked version is admitted, or the requirement has no token |
| Wave.SortRequirements | tools/check-published-dep-consistency.py:993-1048 | the inlined branches of the loop sort every requirement as the extracted classifier does |
| Wave.VerdictMeaning | tools/check-published-dep-consistency.py:786-822 | a requirement that names a version is satisfied iff a published version is admitted, and unpublishable iff no sequence of publish steps can make it resolvable |
| Wave.AllPublishableIff | tools/check-published-dep-consistency.py:993-1048 | nothing is called unpublishable iff every recorded requirement that names a version can be met, now or by publishing |
| Wave.RunOnCrate | tools/check-published-dep-consistency.py:864-873 | over any sequence of publish steps a crate is published at most once, iff it is new or ahead and its turn comes |
| Wave.WaveCompletes | tools/check-published-dep-consistency.py:864-873 | after a run that offers every crate nobody is ahead of the index |
| Wave.WaveSafety | tools/check-published-dep-consistency.py:736-822 | with no unpublishable normal requirement, each crate of the wave finds its recorded normal requirements published when its turn in the emitted order comes, iff they all name a version |
| Wave.Items | tools/check-published-dep-consistency.py:993-995 | the items the loop sorts are exactly the recorded requirements |
| Wave.CertifyWave | tools/check-published-dep-consistency.py:993-1060 | the satisfiability loop and check 4 pass iff the normal graph is acyclic and no recorded requirement is unpublishable; then the order is valid, safe iff tokens are present, and completes the wave |
| OrderSafety.SafeWaveIff | tools/check-published-dep-consistency.py:774-783 | for each kind: an order is safe iff every requirement of the wave names a version and is published already or comes earlier |
| OrderSafety.EveryOrderSafeIff | tools/check-published-dep-consistency.py:194-207 | for each kind: all valid orders are safe iff every requirement names a version and each unmet one is a normal dependency, direct or not |
| OrderSafety.LateOrder | tools/check-published-dep-consistency.py:736-783 | a crate that another does not depend on can be kept behind it in some valid order |
| OrderSafety.NormalIsAnchored | tools/check-published-dep-consistency.py:202-206 | normal requirements always meet that condition |
| Findings.Judge | tools/check-published-dep-consistency.py:929-971 | the branches for one published entry find it stale exactly when it is, and class it as the extracted classifier does |
| Findings.StaleIff | tools/check-published-dep-consistency.py:934-942 | an entry is stale iff everything its caret range admits is older than the member |
| Findings.AnyBlocking | tools/check-published-dep-consistency.py:918-990 | the first loop blocks iff some member has a blocking finding |
| Findings.PendingHeals | tools/check-published-dep-consistency.py:825-873 | after any run that offers the crate, a pending finding is gone iff the crate had something to publish and no stale duplicate entry is hidden by the recording |
| Findings.BlockingStays | tools/check-published-dep-consistency.py:825-873 | after any run a blocking finding still blocks, unless it is a dev entry whose range the run made resolvable; it never turns pending |
| Findings.DroppedDependencyStays | tools/check-published-dep-consistency.py:853-856 | a pending finding that no run whatsoever clears |
| Findings.ListedOnceHasNoDuplicate | tools/check-published-dep-consistency.py:948-953 | a manifest that lists the sibling once satisfies the condition of PendingHeals |
| Findings.HiddenEntryStaysStale | tools/check-published-dep-consistency.py:177-178 | a pending finding that publishing does not clear |
| Findings.BuildRequirementsUnordered | tools/check-published-dep-consistency.py:202-206 | the order emitted for a graph without edges, the reversed sorted names, publishes a crate before its build-dependency |
| Findings.TokenlessRequirementUnready | tools/check-published-dep-consistency.py:311-312 | nothing is called unpublishable, yet a crate of the wave is not ready |
| Homogeneity.CheckHomogeneity | tools/check-published-dep-consistency.py:508-573 | reports every mismatch exactly once; silent iff there is none, whatever the seen set holds |
| Homogeneity.MismatchMeaning | tools/check-published-dep-consistency.py:518-549 | a mismatch is a normal or dev requirement admitting an unyanked version that asks for a member in another epoch than the tree |
| Homogeneity.SiblingPathInEpoch | tools/check-published-dep-consistency.py:529-549 | when check 1 is silent, what an admitted sibling version asks for stays in the tree's epoch |
| Homogeneity.CleanRunPasses | tools/finalize-release-check.py:157-210 | empty problem lists from the two pre-tag loops give the hypotheses of the next two theorems |
| Homogeneity.OneEpochPerCrate | tools/check-published-dep-consistency.py:508-573 | check 1 silent and epochs passing: no crate (other than at 0.0.z) is resolvable in two epochs through a consumer and an admitted sibling |
| Homogeneity.SilentSplitIff | tools/finalize-release-check.py:85-100 | both checks can pass over a crate that is resolvable in two epochs iff it is at 0.0.z |
| Homogeneity.OnlyNewerVersionsFlagged | tools/check-published-dep-consistency.py:529-532 | with epochs and floors passing, check 1 can only flag sibling versions at or above the tree's |
| Workspace.FindReq | tools/check-published-dep-consistency.py:607-612 | the search through the recorded requirements returns the recorded requirement of that kind, if any |
| BumpClass.PublishedSiblingDeps | tools/check-published-dep-consistency.py:491-499 | the dictionary holds the last normal requirement of the manifest on each member |
| BumpClass.PublishedReqIff | tools/check-published-dep-consistency.py:491-499 | what a published manifest asks of a member is its last normal entry on it |
| BumpClass.FlaggedIff | tools/check-published-dep-consistency.py:590-631 | a flag means that the epoch asked for moved, up or down, while the version stayed in its epoch or at 0.0.z |
| BumpClass.CheckCrate | tools/check-published-dep-consistency.py:594-631 | the loop with its skips flags, once each, exactly the siblings whose epoch changed while the crate stayed in its bucket |
| BumpClass.CheckBumpClass | tools/check-published-dep-consistency.py:578-631 | all members in turn: exactly the flagged pairs |
| BumpClass.SuggestionSilences | tools/check-published-dep-consistency.py:578-657 | adopting the suggested version silences the crate's findings, puts it in the wave, and no lower version does |
| ReleaseGate.RunGate | tools/check-published-dep-consistency.py:917-1196 | with `--blocking` the run succeeds iff nothing blocks, no crate was skipped, and, if dev cycles are enforced, no loop has at most one dev edge |
| ReleaseGate.NothingBlocks | tools/check-published-dep-consistency.py:917-1165 | the blocking list, dev cycles aside, is empty iff there is no blocking finding, nothing is unpublishable, checks 1 and 2 are silent and there is no cycle |
| ReleaseGate.SkippedCrates | tools/check-published-dep-consistency.py:918-930 | exactly the crates whose latest version or manifest could not be looked up |
| ReleaseGate.MismatchesAfterRun | tools/check-published-dep-consistency.py:508-573 | after any run the violations of check 1 are those there were and those the manifests published cause |
| ReleaseGate.FlagsAfterRun | tools/check-published-dep-consistency.py:578-631 | after any run a flag of check 2 stays iff its crate was not published |
| ReleaseGate.FindingsAfterRun | tools/check-published-dep-consistency.py:918-990 | after any run the findings are the stale in-tree entries of the crates published and those there were of the others |
| ReleaseGate.BlocksAfterRun | tools/check-published-dep-consistency.py:918-990 | after any run an entry blocks iff it did and has not become a resolvable dev entry, or for a published crate iff it is stale, still in the tree and no such entry |
| ReleaseGate.GateAfterRunIff | tools/check-published-dep-consistency.py:917-1060 | after a run a gate that passed passes again iff every manifest the run published was clean |
| ReleaseGate.GateKeptIff | tools/check-published-dep-consistency.py:917-1060 | a gate that passes is kept by every sequence of publish steps iff every crate of the wave is clean on its own |
| ReleaseGate.NewCrateBreaksGate | tools/check-published-dep-consistency.py:923-925 | a passing gate that publishing one new crate breaks |
| ReleaseGate.OnEpochIsClean | tools/check-published-dep-consistency.py:917-1060 | in a tree whose entries are on their crates' epochs every manifest is clean |
| ReleaseGate.GateKept | tools/check-published-dep-consistency.py:917-1060 | a gate that passes for an on-epoch tree passes after every sequence of publish steps, complete or not |
| ReleaseGate.CertifiedRelease | tools/check-published-dep-consistency.py:736-1060 | a passing gate certifies the emitted order: every crate ready in turn iff tokens are present, the gate passing at every point iff each crate is clean in its turn, nothing left at the end; an on-epoch tree meets both conditions |
| ReleaseGate.CertifiedKindIff | tools/check-published-dep-consistency.py:736-1060 | for requirements of any kind it certifies all valid orders iff they name versions and the unmet ones are normal dependencies too |
| ReleaseGate.OnEpochIff | tools/finalize-release-check.py:157-179 | a tree the pre-tag epoch check passes is on its caret epochs iff entries on 0.0.z crates name the exact patch |
| ReleaseGate.CleanListIff | tools/finalize-release-check.py:157-179 | the pre-tag loop is clean iff every versioned entry of the members passes, and so does every entry of the demo and fuzz manifests it reads |
| Finalize.CheckEpochs | tools/finalize-release-check.py:157-179 | counts the sibling requirements considered and lists, in order, exactly those off the sibling's epoch |
| Finalize.CheckFloors | tools/finalize-release-check.py:190-210 | counts the requirements considered and lists, in order, exactly those whose floor is below the sibling |
| Finalize.RejectedFilters | tools/finalize-release-check.py:168-178 | the problem list is a filter of the entries: in order, each as often as it occurs and is rejected |
| Finalize.EpochPassesIff | tools/finalize-release-check.py:85-100 | the epoch check passes iff the requirement is a plain one whose whole Cargo range lies in the epoch of the sibling |
| Finalize.FloorPassesIff | tools/finalize-release-check.py:182-205 | the floor check passes iff the requirement is no plain one, the sibling has a suffix, or nothing in its Cargo range is older than the sibling |
| Finalize.AdmittedInTagEpoch | tools/finalize-release-check.py:85-100 | a requirement that passes the epoch check admits nothing outside the sibling's epoch |
| Finalize.AdmittedNotBelow | tools/finalize-release-check.py:182-205 | passing both checks, it admits nothing below the sibling's version |
| Finalize.FloorsRuleOutOlderIff | tools/finalize-release-check.py:182-205 | the two checks rule out older sibling versions iff the sibling has no suffix or opens its epoch |
| Finalize.TagEpochIsCompatIff | tools/finalize-release-check.py:85-100 | passing the epoch check fixes the caret epoch iff the sibling is not at 0.0.z |
| Layers.LayerTable.Visit | tools/gen-crate-index.py:225-233 | from any right memo: the longest chain below the crate, memo kept right, or a walk that closes a cycle |
| Layers.LayerTable.Assign | tools/gen-crate-index.py:221-236 | fails iff the graph has a cycle; otherwise every layer is the length of the longest dependency chain |
| Layers.LongestUnique | tools/gen-crate-index.py:221-236 | the layer does not depend on visiting order or memo |
| Layers.Invert | tools/gen-crate-index.py:213-217 | each dependents list names, once each, exactly the crates that depend on it |
| Reduction.ReachTable.Closure | tools/gen-crate-index.py:243-250 | from any right memo: exactly what lies below the crate |
| Reduction.ReachTable.ReducedEdges | tools/gen-crate-index.py:252-258 | exactly the direct edges no other direct dependency implies |
| Reduction.AcyclicReductionPreservesReach | tools/gen-crate-index.py:239-258 | on every acyclic graph the kept edges have the reachability of the graph |
| Reduction.ReductionIsLeast | tools/gen-crate-index.py:239-258 | every subset of the direct edges with the same reachability contains all kept edges |
| Reduction.LoadAndReduce | tools/gen-crate-index.py:212-258 | an error iff there is a cycle; otherwise the least set of direct edges with unchanged reachability |
| Splice.SpliceKeepsOutside | tools/gen-crate-index.py:446-451 | only a stretch from a begin marker to an end marker is replaced |
| Splice.SpliceOkIff | tools/gen-crate-index.py:446-451 | a splice goes through iff exactly one region runs from a begin marker line to the first end marker after it, and then writes the markers and the body on lines of their own |
| Splice.SpliceAbsorbs | tools/gen-crate-index.py:446-451 | after a splice with a clean body, splicing anything gives what splicing it into the original gives |
| Splice.SpliceIdempotentIff | tools/gen-crate-index.py:446-451 | splicing twice changes nothing iff the body is free of the end marker |
| Snippets.Rewrite | tools/readme_snippets.py:101-121 | rewrites each line as its snippet demands and reports exactly the stale lines |
| Snippets.MatchIff | tools/readme_snippets.py:43-47 | a line matches, in one way at most, iff it says `name = "req"` or `name = {` with the first `version = "req"` before a closing brace |
| Snippets.ComponentsKept | tools/readme_snippets.py:72-78 | the requirement written is a leading part of the version in whole components, as many as the author gave, at most three, and at least two for 0.x |
| Snippets.MatchStable | tools/readme_snippets.py:43-47 | a line with another requirement between the quotes matches with the same name at the same place |
| Snippets.DocumentSettles | tools/readme_snippets.py:93-121 | after a rewrite nothing is stale and a second rewrite changes nothing |
| Snippets.StaleSettles | tools/readme_snippets.py:107-116 | a line about a workspace crate is rewritten between its quotes only, to say the expected requirement, still names the same crate, and is then current |
| Snippets.ReportedIffChanged | tools/readme_snippets.py:101-121 | the lines reported are exactly the lines changed |
| Snippets.ExpectedReqSettles | tools/readme_snippets.py:72-78 | the expected requirement is a fixpoint |
| VersionText.ExpectedReqOnEpochIff | tools/finalize-release-check.py:85-100 | the requirement written is on the version's epoch, as the pre-tag check reads it, iff it stops short of the third component or that is a plain number |
| VersionText.EpochReadingsAgree | tools/finalize-release-check.py:85-87 | the epoch read from a version's text is the text of the epoch read from its numbers |
| VersionText.ReqEpochReadingsAgree | tools/finalize-release-check.py:90-100 | the same for requirements, problems included |
| VersionText.RewrittenPassesIff | tools/readme_snippets.py:72-78 | the requirement the rewriter writes passes the pre-tag epoch check iff it stops short of the version's suffix |
| VersionText.RewrittenPassesTagCheck | tools/readme_snippets.py:72-78 | and then it is a leading part of the version's numbers |
| NameTable.Dedupe | dvb-si/build.rs:166-184 | keeps exactly the first exact entry per id and the first range per low bound |
| NameTable.Compile | dvb-si/build.rs:166-202 | exact arms before range arms, each sorted by low bound, each a kept entry and none missing |
| NameTable.CompiledMeaning | dvb-si/build.rs:166-204 | for every id: the first exact entry of the file, else the kept range of smallest low bound that contains it, else nothing |
| NameTable.TableIsScanIff | dvb-si/build.rs:166-204 | the compiled match is a file-order scan with exact entries first iff wherever a range is exposed its name wins |
| NameTable.DistinctTableIsScanIff | dvb-si/build.rs:166-204 | when ranges have names of their own, iff wherever a range is exposed it wins itself |
| NameTable.CompiledIsScan | dvb-si/build.rs:166-204 | when of two overlapping ranges the earlier starts lower, or as low and reaches as far, this is a file-order scan with exact entries first |
| NameTable.DisjointIsInFileOrder | dvb-si/build.rs:170-184 | disjoint ranges meet that condition |
| NameTable.PairIsScanIff | dvb-si/build.rs:166-204 | two ranges with different names compile to a scan iff they meet it |
| NameTable.OverlapDiffers | dvb-si/build.rs:186-186 | a table that does not behave as a scan |
| NameTable.EscapeRoundTrip | dvb-si/build.rs:133-135 | reading the emitted literal gives the name back and stops at the quote the generator wrote |
| Scanners.RustStringSpans | tools/check-citations.py:110-187 | returns the literals of the tokenisation: non-empty, in bounds, ordered, disjoint |
| Scanners.PyStringSpans | tools/check-citations.py:190-235 | the same for the Python scanner |
| Scanners.RustTokensTile | tools/check-citations.py:110-187 | tokens cover the input without gap or overlap, each going strictly forward |
| Scanners.PyTokensTile | tools/check-citations.py:190-235 | the same for the Python scanner |
| Scanners.LiteralsEndRight | tools/check-citations.py:158-173 | an ordinary literal ends at the first quote or line break preceded by an even number of backslashes, or with the input |
| Scanners.CommentsEndRight | tools/check-citations.py:115-130 | a line comment runs to the first line break, a block comment past the first closing mark, or else to the end of the input |
| Scanners.SkipsEndRight | tools/check-citations.py:174-186 | a quote character takes along one character or an escape, and a closing quote if there is one; any other character goes by itself |
| Scanners.RawAtIff | tools/check-citations.py:132-141 | a quote opens a raw literal iff an `r` stands before it and hashes and a quote after it |
| Scanners.RawLiteralsEndRight | tools/check-citations.py:132-156 | a raw literal ends with the first quote followed by exactly its number of hashes, or with the input |
| Scanners.TripleLiteralsEndRight | tools/check-citations.py:203-213 | a triple-quoted literal ends with the first closing triple, or with the input |
| Scanners.SpansOutsideComments | tools/check-citations.py:115-130 | no span touches a skipped comment |
| Scanners.InSpans | tools/check-citations.py:238-242 | true iff some span contains the position |
| Scanners.InSpansIffLiteral | tools/check-citations.py:238-242 | every position lies in a token, and in the spans iff that token is a literal |
| Ancestors.PresentDirs | tools/check-citations.py:305-311 | the loop ends with exactly the ancestors of the present files |
| Ancestors.DirnameIff | tools/check-citations.py:303-309 | the parent of a path is what stands before the slashes before its last component, the root keeping its slashes |
| TableText.CellTextIsCell | tools/html_to_spec_md.py:24-29 | cell text is one line, and unescaping gives the collapsed text back |
| TableText.CollapseKeepsWords | tools/html_to_spec_md.py:24-25 | collapsing keeps the words and leaves single blanks between them |
| TableText.WordsSplit | tools/html_to_spec_md.py:24-25 | text is cut at every space and nowhere else |
| TableText.TableWriter.StartCell | tools/html_to_spec_md.py:85-91 | a cell opens only inside a row, spanning at least one column |
| TableText.TableWriter.EndCell | tools/html_to_spec_md.py:93-97 | the escaped text and span are appended to the open row |
| TableText.TableWriter.EmitTable | tools/html_to_spec_md.py:99-120 | the lines of the table are appended and the rows cleared |
| TableText.TableRoundTrip | tools/html_to_spec_md.py:99-120 | rectangular, one line per row, and every row reads back as its collapsed cells |
| TableText.TableReadsBack | tools/html_to_spec_md.py:99-120 | reading a printed row back gives each cell at the column past the spans before it, and nothing in any other column |
| TableText.ColumnsAreWidest | tools/html_to_spec_md.py:111-114 | a table is as wide as the largest sum of spans |
| TableText.SeparatorRoundTrip | tools/html_to_spec_md.py:115-116 | the separator has one rule per column |
| TableText.RoundTripIff | tools/html_to_spec_md.py:99-120 | the header reads back iff the table has a column |

## Left out

- Reading requirement and version strings into numbers: the model starts from the version token and the branch a requirement takes; non-numeric components are not modelled.
- crates.io, GitHub, cargo and git calls, throttling, caches and TOML reading: their results are inputs.
- Message texts, Markdown and mermaid rendering, argument parsing and exit codes.
- Sorting of names and of reported edges: orders are left open, so byte-for-byte output order is not modelled. Only the sort of the generated arms is.
- Check 3's `seen` set: each dev edge is visited once, so it never takes effect; the model has no such variable.
- Snippets.StaleSettles: versions are assumed to consist of the characters a requirement may contain, as Cargo versions do; which characters form words before `version` is a parameter.
- The reduction rule on cyclic graphs: loading refuses a cycle first.
- `SKIP_NETWORK`: it leaves checks 3 and 4 alone, which `DevCycles.CheckGraph` covers.
- NameTable.CompiledMeaning: a range whose bounds are reversed matches nothing here; rustc would reject the generated code.
- `parse_names_file` and `parse_hex`: line splitting and hexadecimal parsing, which would add only easy members.
- The rest of the HTML converter (headings, lists, links, dropped elements) and of the citation check (path patterns).
- The protocol, container and cipher crates.
