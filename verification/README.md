# StageFreight: verified models of its protocols and transformations

A Dafny model of the parts of StageFreight (a Go tool that drives CI pipelines) whose correctness is a
protocol, a transformation or an encoding rather than one function body, with proofs of what each part
promises.

- **Git replay engine** (`Trees`, `ChangeSets`, `FlatTrees`, `Commits`, `ReplayChain`, `WorktreeState`,
  `Replay`, `Containment`, `PushLoop`): the rebase of a linear local branch over flattened trees, its
  overlap, clash and change-set gates, the transaction that moves branch, index and worktree with a
  rollback, the rebuild of one commit onto a moving tip behind the containment gate, and the bounded
  fetch, replay and push loop.
- **Worktree guard** (`WorktreeGuard`, `GuardProtocol`): capture, conflict-classified restore and recovery
  artifact, and the protocol of any number of restoring calls, a signal goroutine and adversarial hooks.
- **Preset resolver** (`Nodes`, `DeepMerge`, `NodeHeap`, `Presets`, `PresetLaws`, `PresetComposition`,
  `PresetLayers`, `PresetPolicy`, `PresetSections`): the recursive resolver with its mutable reference stack,
  order-preserving deep merge on values and on shared heap nodes, keyed composition, chains of presets.
- **Template substitution** (`Strings`, `Templates`, `NestedTemplates`): repeated ReplaceAll in random map
  order against one simultaneous pass.
- **Stencil graph** (`BodyRefs`, `StencilGraph`): the embed scan, three-colour cycle detection, AI taint.
- **Content store** (`Layouts`, `ContentStore`, `ContentStoreLaws`): Put and Resolve over directory trees,
  with copies cut off at any file.
- **Font normalization** (`FontHead`): in-place head rewriting and 32-bit checksums, after the section
  "Calculating checksums" of the OpenType specification's chapter on the font file and its head chapter.
- **Shell quoting** (`ShellQuoting`): both shellJoin functions against sections 2.2.1, 2.2.2, 2.3, 2.4 and
  2.10.2 of the Shell Command Language in POSIX.1-2017.
- **Cross-job ledger** (`Ledger`, `LedgerLaws`): upsert, shard files, folding and the pipeline status.

The form follows the source: objects that change in place (a flattened tree, a checkout, a repository, a
push session, a guard, a mapping node, a shared YAML node, the reference stack, the depth-first search, the store, the ledger)
are classes, the head rewriter works on an array, and each such method is proved against a function or
predicate whose properties are then proved as lemmas. Results computed by expressions are functions.

## Where the code falls short of what it says

Each of these is stated as a lemma, or in a method's contract, that says exactly when the promise holds, or when it fails.

- The comment at `src/config/identity_subs.go:15-19` calls ReplaceAll order-independent because tokens are
  brace-delimited. For a map of any size with balanced values it is so on flat text exactly when no value
  holds another declared token, self-declared ones excepted (`Templates.OrderIrrelevantExactly`). With brace-free
  values it is so on every text, nested braces included, exactly when no value occurs inside another declared
  name (`NestedTemplates.NestedOrderIrrelevantExactly`, `NestedTextDependsOnOrder`). Unbalanced values break it
  (`UnbalancedValueDependsOnOrder`), and the guard at `src/config/normalize.go:35-43` lets an unbalanced value through (`GuardAllowsUnbalanced`).
- The comment at `src/cas/cas.go:243-251` claims verification over the whole content closure. A removed blob
  is not noticed (`RemovalGoesUnnoticed`); an interrupted Put can lose, unnoticed, exactly the entries walked
  after index.json (`LostUnnoticedExactly`), and leave index.json itself torn exactly if a proper part of it
  lists the digest already (`IndexTornUnnoticedExactly`); if it stops earlier it leaves a digest that no later Put can
  repair (`InterruptionWedgesExactly`, `WedgedUntilRetire`).
- The worktree guard reads a path and writes it without excluding hooks in between. New content is overwritten
  exactly when a hook wrote it in that window, what was read was a wipe to undo, and the write did not fail
  without effect (`GuardProtocol.NewContentOverwrittenExactly`), and such a run ends with the content gone and the artifact
  cleared (`HookWriteIsLost`). The guard also takes unreadable content for a wiped file and replaces it
  (`OverwritesExactly`), and restores a file mode only when it recreates the file (`ModeRestoredExactly`).
- The compare-and-swap of `src/commit/gogit_replay.go:203-221` protects a commit made before it. One made on
  the branch between it and the checkout survives exactly if HEAD was never overwritten or the history HEAD is
  set to contained it anyway (`Replay.LaterCommitKeptExactly`, `AppendedCommitKeptExactly`); when nothing fails
  it is orphaned (`CommitAfterSwapIsOrphaned`). `Replay.Repository.Run` ends on the branch these speak of. An
  edit of index or worktree made after the pre-check is lost exactly at a written path where it differs from
  what is written (`EditLostExactly`).
- The transient push ref survives exactly if the cleanup of the last attempt that staged it failed
  (`PushLoop.RefOutcome`), since the code ignores that failure.
- `replayCommitOntoTip` has no counterpart of the clash check of `replayOnto`
  (`src/commit/gogit_replay_checkout.go:63`): the tree it pushes has no file above another exactly if the commit
  fits the tip (`Containment.OntoIsClashFreeExactly`, `FileAboveIsNotNoticed`).
- The policy of `src/config/preset.go:23-24`, declared beside a reference, makes a difference exactly beside a
  section's own `preset:` that is followed (`PresetPolicy.PolicyCountsExactly`). Beside `presets:` it is ignored
  (`ComposedPolicyIgnored`), and so it is beside the reference at the top of a preset file
  (`ChainedPolicyIgnored`, `InnerPolicyIgnored`).
- A preset that holds a scalar or a sequence is to be used directly (`src/config/preset.go:266`). At the end of a
  chain it is what the reference resolves to exactly if the chain has no other file and the section no key of
  its own (`PresetLayers.ListSurvivesExactly`, `ChainedListIsLost`).
- `shellJoin` of `src/config/build.go` leaves reserved words and `=` bare, so its output runs its argv exactly
  when the first part is neither (`SparinglyQuotedRunsExactly`); the words themselves always survive.
- The status rules documented at `src/cistate/state.go:110-118` and line 148 speak of required subsystems; for
  failed and cancelled ones the code decides by allow_failure alone, and the model follows it.
  `LedgerLaws.StatusAsDocumentedExactly` says for which ledgers the two agree, `RequiredMayFail` is one where
  they do not.
- `ReadState` does not look at the shards when pipeline.json is missing, and two names that differ only in
  unsafe characters share a shard file (`ShardsRestoreExactly`, `ShardNamesCollideExactly`). Two jobs' shards
  read the same in either download order exactly if the copies of every shared file agree
  (`DownloadOrderDoesNotMatter`); copies mirrored from one job's ledger do (`MirroredCopiesAgree`), a record
  changed in between makes the status depend on the order (`DisagreeingCopiesChangeStatus`). Which pipeline.json
  wins the download is of no account exactly if the two agree over the shards (`PipelineRaceExactly`).
- Normalizing a font whose head table is not 4-byte aligned yields the required whole-font checksum only if
  the computed adjustment's bytes repeat with the period of the misalignment (`WholeFontChecksum`,
  `MisalignedFontMissesConstant`), and fonts whose run-time fields overlap the table directory need not
  normalize alike (`OverlapBreaksReproducibility`).

One input the model shows to be ambiguous is out of the code's reach: rendered change signatures of renames
(`RenameSignaturesCollide`), since a tree diff produces none.

## Model

| member | source | states |
|---|---|---|
| Trees.TreeDiff | src/commit/gogit_replay_checkout.go:28-44 | a tree diff holds one insert, delete or modify for each differing path and nothing else, in no fixed order |
| Trees.NoClashes | src/commit/gogit_replay_checkout.go:167-179 | no reported clash if and only if the tree can exist on disk: no entry is both a file and a parent directory |
| ChangeSets.SignatureInjective | src/commit/gogit_replay.go:292-303 | the rendered signature of a rename-free change determines the change |
| ChangeSets.RenameSignaturesCollide | src/commit/gogit_replay.go:292-303 | two different renames that render alike |
| ChangeSets.EqualChangeSets | src/commit/gogit_replay.go:305-329 | the counting loop decides multiset equality of signatures |
| ChangeSets.EqualSignaturesExact | src/commit/gogit_replay.go:305-329 | for rename-free change-sets, equal signature multisets if and only if equal multisets of structured changes |
| ChangeSets.ChangePathSet | src/commit/gogit_replay.go:342-356 | the path set of a change-set: both sides' names, without the empty one |
| ChangeSets.DiffPaths | src/commit/gogit_replay.go:342-356 | the path set of a tree diff is exactly the set of differing paths |
| ChangeSets.ApplyDiff | src/commit/gogit_replay_checkout.go:136-146 | applying the diff of a and b to any tree lays b over it at exactly the differing paths |
| ChangeSets.ApplyDiffRoundTrip | src/commit/gogit_replay_checkout.go:136-146 | a's diff to b turns a into b |
| ChangeSets.EqualDiffs | src/commit/gogit_replay.go:308-329 | two diffs are equal if and only if the second starts untouched where the first does and ends with the applied tree |
| ChangeSets.GateExact | src/commit/gogit_replay_checkout.go:78-94 | the strict gate over any tip: a tree passes if and only if the tip has not drifted at the touched paths and the tree is the applied tree |
| FlatTrees.ParentPath | src/commit/gogit_replay_checkout.go:372-378 | the parent path's ancestors, with itself, are exactly the ancestors of the path |
| FlatTrees.FlatTree.AlreadyApplied | src/commit/gogit_replay_checkout.go:98-114 | true if and only if the tree holds every change's end state |
| FlatTrees.FlatTree.UpstreamOverlap | src/commit/gogit_replay_checkout.go:116-134 | exactly the paths where the tree no longer matches a change's start |
| FlatTrees.FlatTree.ApplyChangeSet | src/commit/gogit_replay_checkout.go:136-146 | the change-set applied in place equals the specification whose meaning ApplyDiff gives |
| FlatTrees.FlatTree.PathClashes | src/commit/gogit_replay_checkout.go:167-179 | exactly the entries that are a file and the parent directory of another entry |
| FlatTrees.AppliedMeansEndState | src/commit/gogit_replay_checkout.go:98-114 | for a tree diff, every change is already applied if and only if the tree agrees with the end tree at every differing path |
| FlatTrees.OverlapMeansDrift | src/commit/gogit_replay_checkout.go:116-134 | for a tree diff, no overlap if and only if the tree agrees with the start tree at every differing path |
| Commits.UntouchedKeepsBase | src/commit/gogit_replay.go:237-263 | along a linear chain, a path no commit touches keeps the merge base's state |
| ReplayChain.ReplayOnto | src/commit/gogit_replay_checkout.go:46-96 | accepts exactly when the commit is already there or its start state is untouched and nothing clashes; reports exactly the drifted paths or the clashing ones; the verification gates never fire |
| ReplayChain.ReplayKeepsDelta | src/commit/gogit_replay_checkout.go:78-96 | an added commit changes exactly what its source changes, on the new parent, with the source's author, committer and message and the time of the replay |
| ReplayChain.AlreadyLandedIsSkipped | src/commit/gogit_replay_checkout.go:98-114 | a commit whose whole effect upstream already has is skipped, even over drift |
| ReplayChain.RefusedExactly | src/commit/gogit_replay_checkout.go:50-66 | any other is refused if and only if upstream changed a touched path or the result has a file above a file |
| ReplayChain.ReplayedInPlace | src/commit/gogit_replay_checkout.go:50-96 | over its own base a commit lands its own tree |
| ReplayChain.ValidateReplayGate | src/commit/gogit_replay.go:237-263 | reports all offences in order, and none if and only if the commits form a linear chain from the merge base |
| ReplayChain.OffencesExactly | src/commit/gogit_replay.go:237-263 | what is reported is every commit with other than one parent and every one whose parent is not its predecessor, and nothing else |
| ReplayChain.ReplayAll | src/commit/gogit_replay.go:138-147 | the build loop succeeds exactly when every commit is accepted in turn, and then yields the chain's replayed tip |
| ReplayChain.TipIsRebased | src/commit/gogit_replay.go:138-147 | after each commit the tip's tree is upstream with the local state laid over the paths touched so far |
| ReplayChain.ReplayLandsLocalOverUpstream | src/commit/gogit_replay.go:138-147 | the final tree is the local head at every path some local commit touches and upstream at every other |
| ReplayChain.NoUpstreamEditLost | src/commit/gogit_replay_checkout.go:50-96 | where upstream differs from the merge base at a touched path it already holds what the first touching commit lands |
| ReplayChain.ReplaySucceedsExactly | src/commit/gogit_replay.go:138-147 | the chain replays if and only if each commit is accepted over the closed-form tree of upstream and the commits before it |
| ReplayChain.ReplayDescendsFromUpstream | src/commit/gogit_replay.go:138-147 | the replayed head descends from upstream |
| ReplayChain.ReplayStaysClashFree | src/commit/gogit_replay_checkout.go:60-66 | accepted replays onto a tree a disk can hold yield such trees only |
| WorktreeState.Checkout.UncommittedPaths | src/commit/gogit_replay_checkout.go:192-224 | exactly the paths staged differently from HEAD or edited after staging |
| WorktreeState.Checkout.OperatorCollisions | src/commit/gogit_replay_checkout.go:226-286 | exactly the operator's files a checkout of the paths would overwrite, remove or run into |
| WorktreeState.Checkout.CheckoutPaths | src/commit/gogit_replay_checkout.go:181-190 | succeeds exactly if no step fails; success lays the target over index and worktree at the paths, a failure leaves each path old or new and nothing else changed, and HEAD moves unless moving it fails |
| WorktreeState.CollisionsExactly | src/commit/gogit_replay_checkout.go:226-286 | on a sound worktree the operator's files in the way of a path are the untracked ones at it, below it and above it; an ignored one is expendable at the path itself |
| WorktreeState.FileInTheWayIsFound | src/commit/gogit_replay_checkout.go:226-286 | an untracked file above a path is reported as that path's collision |
| WorktreeState.CheckoutStaysPossible | src/commit/gogit_replay_checkout.go:226-286 | with no collision, the checkout never leaves a file where a directory is needed |
| Replay.CollectLocal | src/commit/gogit_replay.go:98-121 | the log from HEAD up to the merge base, oldest first |
| Replay.SwapEnds | src/commit/gogit_replay.go:118-121 | the in-place exchange reverses the slice |
| Replay.Repository.BuildHead | src/commit/gogit_replay.go:46-155 | succeeds exactly with the head of a linear, non-empty, fully accepted chain over the single merge base; otherwise names the first refusal that applies; touches nothing |
| Replay.Repository.PreCheck | src/commit/gogit_replay.go:173-201 | passes if and only if no written path holds anything of the operator's, then yields exactly the differing paths, and otherwise reports what is in the way |
| Replay.Repository.Run | src/commit/gogit_replay.go:37-229 | the transaction: which outcome, as the first of the refusals that applies, upstream and branch race guards included, and what branch, index, worktree and upstream hold after each, under moves of branch and upstream and edits of index and worktree between the steps, from an upstream tree that can exist on disk |
| Replay.Repository.Land | src/commit/gogit_replay.go:157-229 | race guard, pre-check and move for a built head: its outcome in closed form and the state after each |
| Replay.Repository.MoveTo | src/commit/gogit_replay.go:203-221 | compare-and-swap, checkout and rollback: which outcome under which faults, the final branch, and target state at the written paths over whatever else was found |
| Replay.LaterCommitKeptExactly | src/commit/gogit_replay.go:203-221 | over all interferences, what others put on the branch after the swap survives if and only if there was nothing, HEAD was never overwritten, or the branch was set to a history that has it |
| Replay.AppendedCommitKeptExactly | src/commit/gogit_replay.go:203-221 | a commit on top of the swapped tip survives if and only if HEAD was never overwritten, or after a rollback to a head that contained it |
| Replay.CommitAfterSwapIsOrphaned | src/commit/gogit_replay.go:203-221 | with no failure at all, a commit made right after the swap is orphaned |
| Replay.LandedReplay | src/commit/gogit_replay.go:37-229 | after a successful replay each path holds the old branch's state if a local commit touches it and upstream's otherwise, on top of upstream's history |
| Replay.EditLostExactly | src/commit/gogit_replay.go:173-221 | an edit made after the pre-check is lost if and only if its path is written and it differs from what is written there |
| Replay.PreChecksMeanClear | src/commit/gogit_replay.go:173-201 | both pre-checks pass if and only if no written path holds anything of the operator's |
| Replay.RollbackRestores | src/commit/gogit_replay.go:208-221 | checking the original tree out over any partial checkout of clear paths restores it, ignored files at untracked paths excepted |
| Containment.VerifyContainment | src/commit/replay_onto.go:106-148 | no violation if and only if every replayed change is authorized by the source |
| Containment.AppliedIsContained | src/commit/replay_onto.go:75-103 | completeness: applying any source change-set to any tip passes the gate |
| Containment.GateMeansTipOrSource | src/commit/replay_onto.go:106-148 | soundness: a tree passes if and only if each path holds the tip's state or, where the source changed it, the source's end state |
| Containment.TipAlonePasses | src/commit/replay_onto.go:106-148 | the gate alone does not require the change to land |
| Containment.RenameNeedsDeparture | src/commit/replay_onto.go:117-139 | a replayed rename is authorized only if the source lands its target and takes content away where it comes from |
| Containment.ReplayCommitOntoTip | src/commit/replay_onto.go:29-104 | fails exactly for a commit without a single parent or without changes; otherwise the rebuilt commit, never refused by the gate, and sound if and only if the commit fits the tip |
| Containment.OntoLandsSource | src/commit/replay_onto.go:29-104 | the rebuilt commit is one child of the tip, with the source's author, committer, time and message, its end state where it changed something and the tip's elsewhere |
| Containment.OntoIsClashFreeExactly | src/commit/replay_onto.go:75-103 | for sound trees, the rebuilt tree can exist if and only if nothing local writes lies above or below a tip file it leaves alone |
| Containment.FileAboveIsNotNoticed | src/commit/replay_onto.go:75-103 | adding a/b onto a tip that holds the file a: sound trees, a rebuilt tree nothing can hold |
| PushLoop.RefspecRoundTrip | src/commit/engine_backend_push.go:73-77 | a branch refspec, forced or not, parses into its source and branch |
| PushLoop.ParsesExactly | src/commit/engine_backend_push.go:73-77 | a refspec parses if and only if it is a source without colon, a colon and refs/heads/ with a branch, after one leading plus if there is one |
| PushLoop.FastForwardExactly | src/commit/engine_backend_push.go:101-117 | against a remote that only appends, the push is a fast-forward exactly if the branch still is the fetched tip or already is this commit |
| PushLoop.Session.Attempt | src/commit/engine_backend_push.go:86-117 | one fetch, replay, stage and push: its result is the first failing step, else what the remote decides; what the remote and the transient ref hold in every outcome |
| PushLoop.Session.Loop | src/commit/engine_backend_push.go:85-119 | at most three attempts, every one but the last outrun and free of failures; success adds one child of the fetched tip and met no failure, with a sound tree if and only if the commit fits it; failure names the first failing step and leaves the branch where others left it; exhaustion means all three were outrun; the transient ref survives if and only if the cleanup of the last attempt that staged it failed |
| PushLoop.Session.ReplayRefspecPush | src/commit/engine_backend_push.go:68-119 | the same over all refspecs, the transient ref included |
| WorktreeGuard.SettledHoldsCaptured | src/commit/worktree_guard.go:307-350 | helper for the protocol: a path settled undisturbed again holds the operator's state |
| WorktreeGuard.VerdictExactly | src/commit/worktree_guard.go:307-350 | which verdict a path gets, in all cases: conflict for new content, restored for a wipe undone, failed for a wipe and a failing write or a directory in the way, kept otherwise |
| WorktreeGuard.WipedEditComesBack | src/commit/worktree_guard.go:333-346 | without failures and directories, a deleted, unreadable or reset edit is restored with its content, and its mode where recreated |
| WorktreeGuard.WipedDeletionComesBack | src/commit/worktree_guard.go:313-329 | a deletion undone from the baseline is carried out again |
| WorktreeGuard.FailedExactly | src/commit/worktree_guard.go:313-350 | a path fails if and only if a change was attempted and failed or met a directory |
| WorktreeGuard.CapturedComesBack | src/commit/worktree_guard.go:143-202 | capture and restore are inverse: a file a hook deletes comes back as it was, content and mode |
| WorktreeGuard.CapturedDeletionComesBack | src/commit/worktree_guard.go:143-202 | and so does a deletion a hook undoes from the index |
| WorktreeGuard.NewContentSurvives | src/commit/worktree_guard.go:307-350 | helper: undisturbed, a path changes only if it was absent, unreadable or at the index baseline, and conflicts are left as found |
| WorktreeGuard.OverwritesExactly | src/commit/worktree_guard.go:307-350 | helper: undisturbed, diverging content survives if and only if it can be read |
| WorktreeGuard.DeletionHonouredExactly | src/commit/worktree_guard.go:313-329 | helper: undisturbed, a deletion is honoured if and only if the path is absent or at the baseline |
| WorktreeGuard.ModeRestoredExactly | src/commit/worktree_guard.go:428-440 | helper: undisturbed, the captured mode is back if and only if the file was absent or kept it |
| WorktreeGuard.Guard.Capture | src/commit/worktree_guard.go:143-202 | captures exactly the paths at risk, and with anything at risk the artifact is on disk before hooks run |
| WorktreeGuard.Guard.CaptureOne | src/commit/worktree_guard.go:143-202 | one path: its deletion, or its content and mode; refused exactly if it is there and can not be read |
| WorktreeGuard.Guard.Restore | src/commit/worktree_guard.go:300-373 | each path treated once, other paths untouched, the artifact cleared exactly when all settled, later calls inert |
| GuardProtocol.RunInv | src/commit/worktree_guard.go:251-373 | the lock, writer, restore and read-to-write window invariants hold in every reachable state of every interleaving, hooks writing between a path's read and its write included |
| GuardProtocol.OneWriter | src/commit/worktree_guard.go:251-373 | in every run at most one call ever changes a file and the done channel closes at most once |
| GuardProtocol.NothingLost | src/commit/worktree_guard.go:251-373 | in every run, each captured path has its artifact on disk, or holds the operator's state, or was rewritten by a hook after the guard read it |
| GuardProtocol.CalmRunRestores | src/commit/worktree_guard.go:251-373 | in every run without failing writes and directories in the way, once finalized, each captured path that no hook wrote after its read holds the operator's state, or new content that was there at the read |
| GuardProtocol.ArtifactClearedExactly | src/commit/worktree_guard.go:352-372 | in every run, a finishing restore clears the artifact if and only if every path was settled and the removal works |
| GuardProtocol.GuardOnlyUndoesWipes | src/commit/worktree_guard.go:307-350 | in every run, the guard changes a path only inside the snapshot and after reading a wipe there, and replaces what it read unless a hook wrote the path since |
| GuardProtocol.NewContentOverwrittenExactly | src/commit/worktree_guard.go:307-350 | in every run and for failing writes too, new content is overwritten if and only if a hook wrote it between the path's read and write, the read had seen a wipe to undo, and the write did not fail without effect |
| GuardProtocol.HookWriteIsLost | src/commit/worktree_guard.go:307-350 | for every captured edit of an indexed file, a run that overwrites a hook's content and clears the artifact |
| GuardProtocol.FinalizedIsInert | src/commit/worktree_guard.go:300-305 | after one restore has finalized, no call changes anything |
| Nodes.PutKeys | src/config/preset.go:109-118 | mapSet keeps key order, appends a new key, and changes no other key's value |
| Nodes.PutAt | src/config/preset.go:109-118 | mapSet writes at the first pair under the key, or at the end |
| Nodes.MappingNode.Set | src/config/preset.go:109-118 | the in-place write equals that specification |
| Nodes.SameMapping | src/config/preset.go:96-130 | a unique-key mapping is determined by key order and lookups |
| DeepMerge.Merged | src/config/preset.go:575-594 | the loop of mapSet calls over a clone of base yields the folded merge, on node values |
| NodeHeap.MergeNodes | src/config/preset.go:575-594 | on heap nodes that result and inputs share: the result spells out the merge, only fresh mappings are written, no old node changes, so both inputs are what they were |
| NodeHeap.YamlNode.Clone | src/config/preset.go:144-150 | a mapping of its own over shared value nodes |
| NodeHeap.YamlNode.Set | src/config/preset.go:109-118 | the in-place write at the first pair under the key, or at the end |
| DeepMerge.CodeComputesMerge | src/config/preset.go:575-594 | on unique-key trees that loop computes the merge by key |
| DeepMerge.MergeByKey | src/config/preset.go:575-594 | base's key order, then override's new keys in order; each key merged on its own |
| DeepMerge.MergeUnique | src/config/preset.go:575-594 | a merge of unique-key trees repeats no key at any depth |
| DeepMerge.MergeLeaves | src/config/preset.go:575-594 | at every path the leaf is override's where override reaches and base's elsewhere |
| DeepMerge.MergeAbsorbs | src/config/preset.go:575-594 | merging over base gives override back if and only if override covers base |
| DeepMerge.MergeIdempotent | src/config/preset.go:575-594 | merging a tree over itself changes nothing |
| DeepMerge.MergeAssociatesExactly | src/config/preset.go:575-594 | merging is associative if and only if no leaf sits between two mappings, absorption excepted |
| Presets.LoadNavigatedPreset | src/config/preset.go:478-508 | what navigation finds, with the path left on the stack on success and refused if already there |
| Presets.ResolvePresetList | src/config/preset.go:364-419 | composes as specified (see ComposeListExactly) and leaves the stack as it was |
| Presets.ResolvePresetMap | src/config/preset.go:421-476 | composes as specified (see ComposeMapExactly) and leaves the stack as it was |
| Presets.ResolvePresetsInner | src/config/preset.go:165-360 | terminates for every loader over finitely many paths, resolves as specified, never asks the loader for a path on the stack, asks for none at all where preset keys occur in the governance payload only, and on success leaves the stack as it was |
| Presets.ResolveReference | src/config/preset.go:247-357 | one reference: refused on the stack, else loaded, chained and merged under the section's own keys, with the stack restored and nothing on it loaded |
| PresetLaws.PresetFreeIsIdentity | src/config/config.go:363-385 | a unique-key tree without preset keys resolves to itself under every loader; that the loader is then never called is part of ResolvePresetsInner |
| PresetLaws.ResolutionKeepsKeys | src/config/preset.go:165-180 | resolution keeps a mapping's keys and their order |
| PresetSections.KeyByKey | src/config/preset.go:165-236 | a mapping resolves if and only if every key does, and each key then holds its own resolution |
| PresetSections.GovernanceIsOpaque | src/config/preset.go:180-195 | the governance payload is copied verbatim, whatever references it holds and whatever the loader |
| PresetSections.GovernanceHasNoInfluence | src/config/preset.go:180-195 | two configurations that differ in that payload resolve alike elsewhere, errors included |
| PresetSections.PresetsComposeWhere | src/config/preset.go:209-234 | presets: composes a list in five sections, a mapping in three, is refused in every other, and beside preset: everywhere |
| PresetSections.OtherSections | src/config/preset.go:196-257 | other values stay, a reference is followed, a plain section is resolved inside |
| PresetSections.NestedSectionComposes | src/config/preset.go:173-178 | a section is known by its keys joined with dots: one two levels down composes as well |
| PresetSections.PresetPathExactly | src/config/preset.go:539-546 | preset: is a reference if and only if it is a non-empty scalar |
| PresetSections.PolicyExactly | src/config/preset.go:36-42 | on_mismatch counts if and only if it is a scalar |
| PresetSections.PresetsListExactly | src/config/preset.go:548-562 | presets: is a list of references if and only if it is a sequence of non-empty scalars |
| PresetSections.DirectivesAreSkipped | src/config/preset.go:460-472 | a section contributes all its keys but the three directives |
| PresetSections.LoadExactly | src/config/preset.go:519-537 | a preset loads if and only if its document has exactly one top-level key |
| PresetSections.ReferenceRefused | src/config/preset.go:247-264 | a reference on the stack, one that does not load and one with another top-level key are refused, each with its error |
| PresetSections.ChainedCycleRefused | src/config/preset.go:286-290 | a chained reference back onto the stack is refused as a cycle |
| PresetSections.ContributionExactly | src/config/preset.go:478-508 | a preset contributes what its document holds at the section's path, under the section's own top-level key |
| PresetSections.SplitExactly | src/config/preset.go:510-517 | splitting a section path at its dots is undone by joining, and no part holds a dot |
| PresetLaws.SuccessIsRobust | src/config/preset.go:247-262 | a successful resolution gives the same tree on any smaller stack and under any loader that answers alike off the stack |
| PresetLaws.StackIsNeverLoaded | src/config/preset.go:247-262 | what the loader would answer for a path on the stack has no influence on the outcome |
| PresetLaws.CyclesNeverResolve | src/config/preset.go:247-300 | a tree whose references run into a cycle fails, whatever the stack and the other presets |
| PresetComposition.ComposeMapExactly | src/config/preset.go:421-476 | succeeds if and only if every preset loads and no key is contributed twice; then holds every contribution in order, the section's own entries last |
| PresetComposition.ComposeListExactly | src/config/preset.go:364-419 | succeeds if and only if every preset loads, every item has an id and none repeats; then lists every contribution in order, inline items last |
| PresetLayers.LocalPartExactly | src/config/preset.go:564-573 | removing the directives keeps every other key with its value, in order |
| PresetLayers.ChainResolvesExactly | src/config/preset.go:247-357 | whatever its files hold, a chain of presets of any length resolves to the files merged, farthest first, each own part resolved before, the section's own keys on top; a direct reference to a list stands for it |
| PresetLayers.ChainResolvesToLayers | src/config/preset.go:247-357 | with plain own parts that is the layers merged by key, nearest last, the section's own keys on top |
| PresetLayers.ChainedListIsLost | src/config/preset.go:271-303 | a list preset resolves when referred to directly and becomes an empty mapping when a preset file without other keys refers to it |
| PresetLayers.ListSurvivesExactly | src/config/preset.go:264-280 | at the end of a chain of any length, a scalar or sequence preset is what the reference resolves to if and only if the chain has no other file and the section no key of its own |
| PresetPolicy.PolicyCountsExactly | src/config/preset.go:201-257 | in a section that refers to presets, over all loaders, on_mismatch makes a difference if and only if it stands beside a preset: alone and not on the stack |
| PresetPolicy.ComposeMapIgnoresPolicy | src/config/preset.go:421-476 | composing a keyed mapping takes no notice of on_mismatch |
| PresetPolicy.ComposeListIgnoresPolicy | src/config/preset.go:364-419 | composing a keyed list takes no notice of on_mismatch |
| PresetPolicy.ChainedPolicyIgnored | src/config/preset.go:282-312 | at the top of a preset file, on_mismatch makes no difference |
| PresetPolicy.InnerPolicyIgnored | src/config/preset.go:282-303 | an input: a preset that only loads under the default policy is refused for a section and resolved for a preset file's reference |
| PresetPolicy.ComposedPolicyIgnored | src/config/preset.go:478-508 | an input: stencils composed from a preset that does not load under the declared policy |
| Templates.Substitute | src/config/normalize.go:315-322 | the loop is one replacement per token in some order, and on flat text with balanced, independent values it yields the simultaneous pass |
| Templates.ReplaceIsPass | src/config/identity_subs.go:138-149 | one more ReplaceAll on the partly substituted text is one more name in the pass |
| Templates.NoTokenRemains | src/config/identity_subs.go:138-149 | no occurrence of a declared token remains after the pass |
| Templates.OrderIrrelevantExactly | src/config/identity_subs.go:15-19 | for a map of any size with balanced values: every order agrees on every flat text if and only if no value holds another declared token, self-declared ones excepted |
| Templates.SwapExactly | src/config/identity_subs.go:15-19 | two tokens may be replaced in either order on all flat texts if and only if neither value holds the other's token, a self-declared token excepted |
| Templates.NestedTextDependsOnOrder | src/config/identity_subs.go:15-19 | on nested text the two orders differ, for every such family of names and brace-free values |
| NestedTemplates.NestedOrderIrrelevantExactly | src/config/identity_subs.go:15-19 | for brace-free names and values: every order agrees on every text whatever if and only if no value occurs inside another declared name |
| NestedTemplates.ReplaceIsPassAnywhere | src/config/identity_subs.go:138-149 | then one more ReplaceAll on any partly substituted text is one more name in the simultaneous pass |
| Templates.UnbalancedValueDependsOnOrder | src/config/identity_subs.go:15-19 | an unbalanced value completes a token in one order only |
| Templates.GuardAllowsUnbalanced | src/config/normalize.go:35-43 | values the load-time guard accepts for which the orders differ |
| Templates.GuardMakesIndependent | src/config/normalize.go:35-43 | a value the guard accepts holds no variable's token |
| BodyRefs.Scan | src/config/stencil.go:241-267 | the shrinking-string loop terminates and computes the scan |
| BodyRefs.ScanOfRendering | src/config/stencil.go:241-267 | the scan of any sequence of text, escapes and embeds is the embedded names in order |
| BodyRefs.ParseRenders | src/config/stencil.go:241-267 | every body is the rendering of its segments, up to an unfinished end |
| BodyRefs.ScanIsParse | src/config/stencil.go:241-267 | so the scan of any body is the names embedded in its segments |
| BodyRefs.TrimExactly | src/config/stencil.go:261-264 | trimming takes the spaces off both ends and nothing else |
| StencilGraph.CycleFinder.Walk | src/config/stencil.go:203-228 | the search from a node finishes it with a rank below nothing it embeds, or reports a real cycle |
| StencilGraph.FindStencilCycle | src/config/stencil.go:187-239 | empty if and only if the embed graph is acyclic; otherwise a walk of embeds of declared stencils that closes on itself |
| StencilGraph.CloseCycle | src/config/stencil.go:211-220 | the stack from the repeated stencil on, closed by it, is a cycle |
| StencilGraph.BodyIsLast | src/config/stencil.go:147-153 | of several stencils under one id the last gives the body |
| StencilGraph.RankedIsAcyclic | src/config/stencil.go:187-239 | a finishing-order ranking of all stencils leaves no cycle |
| StencilGraph.SpreadOnce | src/config/llm.go:56-70 | one round either grows the tainted set or shows it closed |
| StencilGraph.LLMTaintedStencils | src/config/llm.go:44-72 | exactly the stencils from which an llm stencil is reachable, in at most one more round than there are stencils |
| StencilGraph.ClosedContainsTaint | src/config/llm.go:44-72 | a closed set with the llm stencils contains every stencil that reaches one |
| StencilGraph.TaintComesFromLlm | src/config/llm.go:44-54 | a stencil of kind llm is tainted, and without one nothing is |
| StencilGraph.OrderDoesNotMatter | src/config/llm.go:44-72 | the taint does not depend on the order of the library |
| Layouts.WalkIsDistinct | src/cas/cas.go:415-436 | the copy visits no path twice |
| Layouts.WalkInNameOrder | src/cas/cas.go:415-436 | what lies under an earlier name is copied before what lies under a later one |
| Layouts.WalkExactly | src/cas/cas.go:415-436 | the copy visits exactly what the tree holds, path by path |
| Layouts.FlattenExactly | src/cas/cas.go:415-436 | the complete copy holds exactly what the tree holds, path by path |
| Layouts.CutOffHolds | src/cas/cas.go:415-451 | a cut-off copy holds exactly the entries reached, whole except for the file being written |
| ContentStore.DigestExactly | src/cas/cas.go:218-235 | accepts exactly sha256 digests of 64 characters, and the hex part identifies the digest |
| ContentStore.RefusedExactly | src/cas/cas.go:265-335 | a layout is refused if and only if the digest is malformed, index.json is missing, invalid or does not list it, blobs is no directory, or some file below lies outside a sha256 directory or has not its name's hash |
| ContentStore.VerifyIdentityBinding | src/cas/cas.go:272-295 | passes if and only if index.json is a file that lists the digest; which error otherwise |
| ContentStore.VerifyBlobIntegrity | src/cas/cas.go:297-335 | passes if and only if blobs is a directory and every file under it lies in a sha256 directory and hashes to its name |
| ContentStore.FSStore.Put | src/cas/cas.go:345-377 | succeeds exactly for a verified source that is fresh and copied to the end or whose stored copy verifies; the post-write check can not fail; the whole new store |
| ContentStore.FSStore.CopyTree | src/cas/cas.go:407-451 | the entry-by-entry copy, cut off anywhere |
| ContentStore.FSStore.Resolve | src/cas/cas.go:379-396 | succeeds exactly if the stored layout verifies, changes nothing, and reports absence only for an absent directory |
| ContentStoreLaws.CutResolvesExactly | src/cas/cas.go:345-436 | after a copy cut off anywhere, Resolve succeeds if and only if index.json was copied, or its written part lists the digest |
| ContentStoreLaws.CutIsSafe | src/cas/cas.go:345-436 | whatever Resolve accepts after an interrupted copy holds every source blob |
| ContentStoreLaws.LostUnnoticedExactly | src/cas/cas.go:415-436 | an entry other than index.json can be lost without Resolve noticing if and only if it is walked after index.json |
| ContentStoreLaws.IndexTornUnnoticedExactly | src/cas/cas.go:415-451 | index.json itself can be torn without Resolve noticing if and only if a proper part of it lists the digest |
| ContentStoreLaws.RemovalGoesUnnoticed | src/cas/cas.go:297-335 | removing any blob leaves the layout verified |
| ContentStoreLaws.DriftNoticedExactly | src/cas/cas.go:297-335 | changed blob bytes fail verification if and only if their hash changed |
| ContentStoreLaws.NeverRewritten | src/cas/cas.go:357-364 | over every run without Retire, an existing stored directory keeps its paths, and its bytes except where a hard link edits them |
| ContentStoreLaws.StoredIsCopied | src/cas/cas.go:345-377 | over every run, each stored directory is what one Put of that digest copied, completely or not, up to edits through links |
| ContentStoreLaws.ResolvedHoldsEveryBlob | src/cas/cas.go:379-396 | over every run, edits through hard links included, a resolved layout holds every blob of a source verified under that digest, with the source's hash, and with its bytes if unedited |
| ContentStoreLaws.PutResolveRoundTrip | src/cas/cas.go:345-396 | a complete Put is resolved as the identical layout, and putting it again changes nothing |
| ContentStoreLaws.WedgedUntilRetire | src/cas/cas.go:357-364 | a stored directory that does not verify stays refused through every run without Retire and without edits of it |
| ContentStoreLaws.InterruptionWedgesExactly | src/cas/cas.go:345-436 | an interrupted Put wedges its digest if and only if it created the directory and stopped before index.json lists it |
| FontHead.FontChecksum | src/badge/subset.go:122-137 | the wrapping loop with its padded last word is the 32-bit table checksum, for any length |
| FontHead.PaddingAddsNothing | src/badge/subset.go:122-137 | zeros at the end add nothing: a partial last word counts as padded with zeros |
| FontHead.HeadTable | src/badge/subset.go:96-120 | the first record tagged head, if its table is usable |
| FontHead.HeadFoundExactly | src/badge/subset.go:96-120 | the head is that of the first record tagged head within the table count and the font, if it has 36 bytes at least and lies in the font; otherwise there is none |
| FontHead.NormalizeFontHead | src/badge/subset.go:60-94 | the in-place rewriting equals the specification; a font without a usable head table is left byte for byte |
| FontHead.NormalizedBytes | src/badge/subset.go:77-94 | the sixteen timestamp bytes become zero, and only the directory checksum and checksumAdjustment change besides |
| FontHead.WholeFontChecksum | src/badge/subset.go:77-94 | the whole-font checksum is the required constant if and only if the head table is 4-aligned or the computed adjustment's bytes repeat with the period of the misalignment |
| FontHead.MisalignedFontMissesConstant | src/badge/subset.go:77-94 | a font two bytes off alignment whose normalized checksum is wrong |
| FontHead.DirectoryEntry | src/badge/subset.go:77-94 | the directory entry is the checksum of the head table with checksumAdjustment taken as zero |
| FontHead.SameFontSameBytes | src/badge/subset.go:60-94 | fonts that differ only in the run-time head fields normalize to the same bytes, provided those fields do not overlap what the search for the head reads |
| FontHead.OverlapBreaksReproducibility | src/badge/subset.go:96-120 | two fonts with overlapping fields that differ in a timestamp byte and normalize differently |
| FontHead.Idempotent | src/badge/subset.go:77-94 | normalizing twice changes nothing more |
| ShellQuoting.ShellJoin | src/config/build.go:35-47 | the loop of build.go yields the sparing rendering |
| ShellQuoting.QuotedOnlyIfNeeded | src/config/build.go:40-44 | a part stays bare if and only if it is not empty and holds none of the listed characters |
| ShellQuoting.ShellJoinAlways | src/ansible/backend.go:424-431 | the loop of backend.go yields the always-quoted rendering |
| ShellQuoting.JoinRoundTrip | src/config/build.go:35-47 | splitting either rendering by the shell's rules gives back exactly the argv, empty words and quotes included |
| ShellQuoting.AlwaysQuotedRuns | src/ansible/backend.go:424-431 | the always-quoted rendering runs its argv: no word is taken for syntax |
| ShellQuoting.SparinglyQuotedRunsExactly | src/config/build.go:35-47 | the sparing rendering runs its argv if and only if the first part is not left bare as a reserved word or an assignment |
| Ledger.State.Upsert | src/cistate/state.go:342-357 | replaces the first record of that name, or appends; results are kept when the new record has none |
| Ledger.State.OverlayShards | src/cistate/state.go:240-269 | folds every usable shard in listing order, skipping directories, other files and unreadable or unnamed records |
| LedgerLaws.RecordsExactly | src/cistate/state.go:253-264 | a read takes in exactly the parsed records with a name, from files that end in .json |
| LedgerLaws.ShardFilesAreRead | src/cistate/state.go:294-308 | every file the writer names is one the reader takes for a shard |
| LedgerLaws.WholeDirectoryIsRead | src/cistate/state.go:247-269 | reading a directory the writer keeps folds exactly its named records, each once, in listing order |
| Ledger.State.MergeResults | src/cistate/state.go:387-407 | merges facts into the record of that name, or adds a record with the facts alone |
| Ledger.State.PipelineStatus | src/cistate/state.go:110-163 | failing if any attempted record fails, else unknown if none was attempted, else warning if any warns, else passing |
| LedgerLaws.StatusAsDocumentedExactly | src/cistate/state.go:110-163 | for every ledger, the documented and the computed status agree if and only if a condition on outcome, required, allow_failure and attempted holds |
| LedgerLaws.RequiredMayFail | src/cistate/state.go:110-163 | a failed subsystem that is required and allowed to fail: documented as failing, computed as a warning |
| Ledger.BuildShardFileName | src/cistate/state.go:294-308 | the file name character by character |
| Ledger.WriteShards | src/cistate/state.go:271-292 | the directory after writing every record to its file |
| LedgerLaws.FoldIsUnion | src/cistate/state.go:240-269 | folding uniquely named shards is a union by name: the shard wins, keeping the ledger's results if it has none, and names stay unique exactly if they were |
| LedgerLaws.FoldAnyOrder | src/cistate/state.go:240-269 | every fold order gives the same records and the same pipeline status |
| LedgerLaws.FactsAndOutcomeCommuteExactly | src/cistate/state.go:334-357 | recording an outcome and merging facts commute if and only if the outcome carries no results or already all the facts |
| LedgerLaws.FactsLeaveStatus | src/cistate/state.go:387-407 | merging facts changes no lifecycle field and not the pipeline status |
| LedgerLaws.FactsAreMerged | src/cistate/state.go:387-407 | facts go to the record of that name, new values over old, and to no other; no facts change nothing |
| LedgerLaws.ShardNamesCollideExactly | src/cistate/state.go:294-308 | two names share a file if and only if they differ only where both have an underscore or an unsafe character |
| LedgerLaws.ShardsRestoreExactly | src/cistate/state.go:222-292 | a job whose ledger lacks the subsystems sees each as written if and only if it has a pipeline.json, every record has a name, and no two names share a file |
| LedgerLaws.DownloadOrderDoesNotMatter | src/cistate/state.go:20-34 | two jobs' shard directories give the same records in either download order if and only if the copies of every shared file agree over the pipeline.json that won |
| LedgerLaws.PipelineRaceExactly | src/cistate/state.go:240-246 | two pipeline.json files read alike over one shard directory if and only if they hold the same facts where a shard has none and the same record where there is no shard |
| LedgerLaws.RaceExactly | src/cistate/state.go:240-269 | two reads, of any pipeline.json and directory each, give the same records if and only if they find the same under every name |
| LedgerLaws.DownloadsUnite | src/cistate/state.go:240-269 | with agreeing copies, either order gives one status and every named record of both directories |
| LedgerLaws.MirroredCopiesAgree | src/cistate/state.go:310-332 | a job that mirrors another's records next to its own leaves agreeing copies, whatever pipeline.json wins, if no two names share a file |
| LedgerLaws.DisagreeingCopiesChangeStatus | src/cistate/state.go:20-34 | a failing and a passing copy of one shard: the status follows the download order |

## Left out

- go-git internals, object encoding, hashing, transport: a commit value stands for its hash, a blob hash for its content, and flattening and writing a tree are inverse.
- WorktreeState.Checkout.OperatorCollisions: does not model submodules, symlinks above a path and unreadable paths; ignored paths are an arbitrary predicate.
- Renames as tree diffs: a diff never produces one; the change handlers' rename branches are modelled.
- Moves of the branch and edits between a failed checkout and its rollback, edits during one checkout, and the order in which directories come and go inside it.
- Replay.Repository.Run: promises a commit made between the swap and the checkout only the fate LaterCommitKeptExactly describes, because the code orphans it.
- Containment.ReplayCommitOntoTip: a tree with a file above another is a result here as it is in the code; what go-git and a server do with such a tree is not modelled.
- Push acknowledgements that are lost after the remote accepted the push; the non-fast-forward classification of error text; log lines and the returned result's names.
- Worktree guard: umask, creation of parent directories, signal re-raising, and surfacing artifacts of earlier runs; the read and the write of one path are single steps.
- The resolver works on node values; sharing between nodes is modelled for DeepMerge alone (NodeHeap). Provenance entries, YAML parsing and the governance payload's later resolution.
- The reflection walks that find the strings to substitute, default-path concretization, and the collection of identity tokens.
- StencilGraph.FindStencilCycle: the reported cycle is a sequence of names; joining it with arrows into one string is not modelled.
- Content store: digests whose hex part holds path separators, read errors of single files, NoopStore and the capability check.
- FontHead.SameFontSameBytes: promises nothing where the run-time fields overlap what the search for the head reads or the head table its own directory checksum; OverlapBreaksReproducibility shows that some such fonts fail, which of them still normalize alike is left open. A head table behind its own record never overlaps.
- FontHead.Idempotent: under the same condition, and with the same half left open.
- Font loading, subsetting, SVG rendering.
- Double quotes, expansions, redirections, comments and aliases of the shell: a command that holds an unquoted special character has no words in the model, and neither rendering produces one.
- Ledger: the session list, JSON encoding apart from dropping an empty result map, atomic file writing, and the map shared between records after an upsert.
