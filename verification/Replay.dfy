/**
  Replay: the rebase of the local branch onto its upstream as a transaction over branch, index and
  worktree (gogit_replay.go). Other processes move the branch or the upstream ref between its steps,
  and either checkout may fail at any step.
 */
module Replay {
  import opened Wrappers
  import opened Trees
  import opened ChangeSets
  import opened Commits
  import opened ReplayChain
  import opened WorktreeState

  datatype Error =
    | DetachedHead
    | NoUpstream
    | MergeBases(count: nat)
    | NothingToReplay
    | Unsafe(violations: seq<Violation>)
    | Build(cause: ReplayError)
    | UpstreamMoved
    | BranchMoved
    | UncommittedConflict(paths: set<Path>)
    | OperatorOwned(paths: set<Path>)
    | SwapLost
    | CheckoutFailed
    | RollbackFailed

  /** Index and worktree as someone else leaves them. */
  datatype Edit = Edit(index: Tree, worktree: Tree)

  /** What other processes and the filesystem do while the replay runs; edit: between pre-check and swap. */
  datatype Interference = Interference(
    upstreamAtRefresh: Option<Commit>,
    branchAtRefresh: Option<Commit>,
    edit: Option<Edit>,
    branchAtSwap: Option<Commit>,
    branchAfterSwap: Option<Commit>,
    checkout: Fault,
    rollback: Fault)

  const QUIET := Interference(None, None, None, None, None, NoFault, NoFault)

  function Or<T>(o: Option<T>, d: T): T {
    if o.Some? then o.value else d
  }

  // ---- collecting the local commits -------------------------------------------------------------

  /** The walk up to, and without, the merge base. */
  function BeforeBase(walk: seq<Commit>, base: Commit): (r: seq<Commit>)
    ensures |r| <= |walk| && r == walk[..|r|]
    ensures forall i :: 0 <= i < |r| ==> walk[i] != base
    ensures |r| < |walk| ==> walk[|r|] == base
  {
    if walk == [] || walk[0] == base then [] else [walk[0]] + BeforeBase(walk[1..], base)
  }

  function Reversed(s: seq<Commit>): (r: seq<Commit>)
    ensures |r| == |s| && forall k :: 0 <= k < |s| ==> r[k] == s[|s| - 1 - k]
  {
    if s == [] then [] else Reversed(s[1..]) + [s[0]]
  }

  /** Local commits oldest-first: the log from HEAD up to the merge base, reversed in place. */
  method CollectLocal(walk: seq<Commit>, base: Commit) returns (commits: seq<Commit>)
    ensures commits == Reversed(BeforeBase(walk, base))
  {
    commits := [];
    var n := 0;
    while n < |walk| && walk[n] != base
      invariant 0 <= n <= |walk| && commits == walk[..n]
      invariant forall i :: 0 <= i < n ==> walk[i] != base
    {
      commits := commits + [walk[n]];
      n := n + 1;
    }
    assert commits == BeforeBase(walk, base);
    commits := SwapEnds(commits);
  }

  method SwapEnds(collected: seq<Commit>) returns (commits: seq<Commit>)
    ensures commits == Reversed(collected)
  {
    commits := collected;
    var i, j := 0, |commits| - 1;
    while i < j
      invariant |commits| == |collected| && 0 <= i && i + j == |commits| - 1 && i <= j + 1
      invariant forall k :: 0 <= k < i ==> commits[k] == collected[|commits| - 1 - k]
      invariant forall k :: i <= k <= j ==> commits[k] == collected[k]
      invariant forall k :: j < k < |commits| ==> commits[k] == collected[|commits| - 1 - k]
    {
      commits := commits[i := commits[j]][j := commits[i]];
      i, j := i + 1, j - 1;
    }
  }

  /** The local chain a replay rebuilds, given git's log and merge-base answers. */
  ghost function LocalChain(walk: seq<Commit>, base: Commit): seq<Commit> {
    Reversed(BeforeBase(walk, base))
  }

  // ---- the transaction --------------------------------------------------------------------------

  /** Steps 2 to 4 succeed and yield final: a linear, non-empty, replayable chain onto upstream. */
  ghost predicate Builds(upstream: Option<Commit>, bases: seq<Commit>, walk: seq<Commit>, times: seq<int>,
      final: Commit) {
    && upstream.Some? && |bases| == 1
    && var chain := LocalChain(walk, bases[0]);
    && chain != [] && |chain| <= |times| && Linear(chain, bases[0])
    && AcceptedUpTo(chain, upstream.value, times[..|chain|], |chain|)
    && final == TipAfter(chain, upstream.value, times[..|chain|], |chain|)
  }

  /** The paths the checkout writes hold nothing of the operator's. */
  ghost predicate ClearToWrite(index: Tree, worktree: Tree, head: Tree, final: Tree, ignored: Path -> bool) {
    forall p :: p in Differs(head, final) ==>
      p !in Uncommitted(index, worktree, head) && Collisions(worktree, head, ignored, p) == {}
  }

  class Repository {
    const checkout: Checkout
    var upstream: Option<Commit>
    const detached: bool
    const tracking: bool

    constructor (checkout: Checkout, upstream: Option<Commit>, detached: bool, tracking: bool)
      ensures this.checkout == checkout && this.upstream == upstream && this.detached == detached &&
                this.tracking == tracking
    {
      this.checkout := checkout;
      this.upstream := upstream;
      this.detached := detached;
      this.tracking := tracking;
    }

    /** Steps 1 to 4: collect, gate and build every replayed commit at the object layer. */
    method BuildHead(bases: seq<Commit>, walk: seq<Commit>, times: seq<int>) returns (r: Result<Commit, Error>)
      requires |times| >= |walk|
      ensures r.Ok? ==> !detached && tracking && Builds(upstream, bases, walk, times, r.value)
      ensures r.Ok? ==> forall final :: Builds(upstream, bases, walk, times, final) ==> final == r.value
      ensures r.Err? ==> detached || !tracking || forall final :: !Builds(upstream, bases, walk, times, final)
      ensures r.Err? ==> NotBuilt(r.error)
      // which refusal: the first that applies
      ensures r == Err(DetachedHead) <==> detached
      ensures r == Err(NoUpstream) <==> !detached && (!tracking || upstream.None?)
      ensures !detached && tracking && upstream.Some? ==>
                if |bases| != 1 then r == Err(MergeBases(|bases|))
                else
                  var chain := LocalChain(walk, bases[0]);
                  if chain == [] then r == Err(NothingToReplay)
                  else if !Linear(chain, bases[0]) then r.Err? && r.error.Unsafe?
                  else if !AcceptedUpTo(chain, upstream.value, times[..|chain|], |chain|) then r.Err? && r.error.Build?
                  else r == Ok(TipAfter(chain, upstream.value, times[..|chain|], |chain|))
    {
      if detached {
        return Err(DetachedHead);
      }
      if !tracking || upstream.None? {
        return Err(NoUpstream);
      }
      if |bases| != 1 {
        return Err(MergeBases(|bases|));
      }
      var commits := CollectLocal(walk, bases[0]);
      if commits == [] {
        return Err(NothingToReplay);
      }
      var violations := ValidateReplayGate(commits, bases[0]);
      if violations != [] {
        return Err(Unsafe(violations));
      }
      var built := ReplayAll(commits, upstream.value, times[..|commits|]);
      if built.Err? {
        return Err(Build(built.error));
      }
      return Ok(built.value);
    }

    /**
      The whole replay. A refusal changes nothing at all; past the swap, the written paths hold the
      target's state (the replayed head's, or the old head's after a rollback) and every other path
      holds what it held, or what others put there since the pre-check. Undisturbed, a checkout failure
      that rolls back restores everything but ignored files at paths HEAD does not track.
     */
    method Run(bases: seq<Commit>, walk: seq<Commit>, times: seq<int>, ignored: Path -> bool, env: Interference)
        returns (r: Result<Commit, Error>)
      requires walk != [] && walk[0] == checkout.branch && |times| >= |walk|
      requires ClashFree(checkout.worktree) && (upstream.Some? ==> ClashFree(upstream.value.tree))
      modifies this`upstream, checkout
      // the outcome is the first of these that applies: no head built, upstream moved, branch moved,
      // something of the operator's in the way, swap lost, and then as checkout and rollback go
      ensures (r.Err? && NotBuilt(r.error)) <==>
                detached || !tracking || forall final :: !Builds(old(upstream), bases, walk, times, final)
      ensures upstream ==
                if (r.Err? && NotBuilt(r.error)) || env.upstreamAtRefresh.None? then old(upstream)
                else env.upstreamAtRefresh
      ensures r == Err(UpstreamMoved) <==> upstream != old(upstream)
      ensures r == Err(BranchMoved) <==>
                !(r.Err? && NotBuilt(r.error)) && upstream == old(upstream)
                && Or(env.branchAtRefresh, old(checkout.branch)) != old(checkout.branch)
      ensures !(r.Err? && (NotBuilt(r.error) || Moved(r.error))) ==>
                forall final :: Builds(old(upstream), bases, walk, times, final) ==>
                  r == if !ClearToWrite(old(checkout.index), old(checkout.worktree), old(checkout.branch).tree,
                                        final.tree, ignored)
                       then Err(InTheWay(old(checkout.index), old(checkout.worktree), old(checkout.branch).tree,
                                         final.tree, ignored))
                       else Outcome(env, old(checkout.branch), final,
                                    Differs(old(checkout.branch).tree, final.tree))
      // a replay that lands
      ensures r.Ok? ==>
                && Builds(old(upstream), bases, walk, times, r.value) && checkout.branch == r.value
                && ClearToWrite(old(checkout.index), old(checkout.worktree), old(checkout.branch).tree, r.value.tree,
                  ignored)
                && Shows(checkout, Found(env, old(checkout.index), old(checkout.worktree)), r.value.tree,
                         Differs(old(checkout.branch).tree, r.value.tree))
                && (env.edit.None? ==> ClashFree(checkout.worktree))
      // a refusal: index and worktree untouched, and the branch is wherever it or another process left it
      ensures r.Err? && Refused(r.error) ==>
                && checkout.index == old(checkout.index) && checkout.worktree == old(checkout.worktree)
                && checkout.branch ==
                   if r.error.UpstreamMoved? || r.error.BranchMoved? then Or(env.branchAtRefresh, old(checkout.branch))
                   else old(checkout.branch)
      ensures r == Err(SwapLost) ==>
                && Edit(checkout.index, checkout.worktree) == Found(env, old(checkout.index), old(checkout.worktree))
                && checkout.branch == Or(env.branchAtSwap, old(checkout.branch))
      // past the swap: the branch was nobody else's then, and ends where checkout and rollback put it
      ensures !(r.Err? && Refused(r.error)) && r != Err(SwapLost) ==>
                && Or(env.branchAtRefresh, old(checkout.branch)) == old(checkout.branch)
                && Or(env.branchAtSwap, old(checkout.branch)) == old(checkout.branch)
                && forall final :: Builds(old(upstream), bases, walk, times, final) ==>
                     checkout.branch ==
                     BranchEnds(env, old(checkout.branch), final, Differs(old(checkout.branch).tree, final.tree))
      // a rolled-back checkout failure, and a failed rollback, which stays inside the written paths
      ensures r == Err(CheckoutFailed) ==>
                forall final :: Builds(old(upstream), bases, walk, times, final) ==>
                  Shows(checkout, Found(env, old(checkout.index), old(checkout.worktree)), old(checkout.branch).tree,
                        Differs(old(checkout.branch).tree, final.tree))
      ensures r == Err(CheckoutFailed) && env.edit.None? ==>
                Restored(checkout, old(checkout.index), old(checkout.worktree), old(checkout.branch).tree, ignored)
      ensures r == Err(RollbackFailed) ==>
                forall final :: Builds(old(upstream), bases, walk, times, final) ==>
                  Outside(checkout, Found(env, old(checkout.index), old(checkout.worktree)),
                          Differs(old(checkout.branch).tree, final.tree))
      ensures !(r.Err? && Refused(r.error)) ==> exists final :: Builds(old(upstream), bases, walk, times, final)
      // undisturbed, it succeeds exactly when the chain builds and the written paths are clear
      ensures env == QUIET && !detached && tracking ==>
                (r.Ok? <==> exists final :: Builds(old(upstream), bases, walk, times, final)
                              && ClearToWrite(old(checkout.index), old(checkout.worktree), old(checkout.branch).tree,
                                              final.tree, ignored))
    {
      hide Builds, LocalChain, ClearToWrite, ClashFree, Differs, Shows, Restored, Outside, InTheWay, Outcome;
      hide AcceptedUpTo, Linear, TipAfter, BranchEnds, Overlay, Uncommitted, Collisions;
      var built := BuildHead(bases, walk, times);
      if built.Err? {
        return built;
      }
      ghost var upstream0, index0, worktree0, head := upstream, checkout.index, checkout.worktree, checkout.branch;
      r := Land(built.value, ignored, env);
      LandedClashFree(upstream0, bases, walk, times, built.value, index0, worktree0, head.tree, ignored);
      ShowsClash(checkout, Edit(index0, worktree0), built.value.tree, Differs(head.tree, built.value.tree));
    }

    /** Steps 5 to 7: race guard, pre-check and the move itself. */
    method Land(tip: Commit, ignored: Path -> bool, env: Interference) returns (r: Result<Commit, Error>)
      requires ClashFree(checkout.worktree)
      modifies this`upstream, checkout
      ensures upstream == if env.upstreamAtRefresh.Some? then env.upstreamAtRefresh else old(upstream)
      ensures r == if upstream != old(upstream) then Err(UpstreamMoved)
                   else if Or(env.branchAtRefresh, old(checkout.branch)) != old(checkout.branch) then Err(BranchMoved)
                   else if !ClearToWrite(old(checkout.index), old(checkout.worktree), old(checkout.branch).tree,
                     tip.tree, ignored)
                   then Err(InTheWay(old(checkout.index), old(checkout.worktree), old(checkout.branch).tree, tip.tree,
                     ignored))
                   else Outcome(env, old(checkout.branch), tip, Differs(old(checkout.branch).tree, tip.tree))
      ensures r.Err? && Refused(r.error) ==>
                && checkout.index == old(checkout.index) && checkout.worktree == old(checkout.worktree)
                && checkout.branch == Or(env.branchAtRefresh, old(checkout.branch))
      ensures !(r.Err? && Refused(r.error)) ==>
                ClearToWrite(old(checkout.index), old(checkout.worktree), old(checkout.branch).tree, tip.tree, ignored)
      ensures r == Err(SwapLost) ==>
                && Edit(checkout.index, checkout.worktree) == Found(env, old(checkout.index), old(checkout.worktree))
                && checkout.branch == Or(env.branchAtSwap, old(checkout.branch))
      ensures !(r.Err? && Refused(r.error)) && r != Err(SwapLost) ==>
                && Or(env.branchAtSwap, old(checkout.branch)) == old(checkout.branch)
                && checkout.branch ==
                   BranchEnds(env, old(checkout.branch), tip, Differs(old(checkout.branch).tree, tip.tree))
      ensures r.Ok? ==> checkout.branch == r.value == tip
      ensures r.Ok? ==>
                Shows(checkout, Found(env, old(checkout.index), old(checkout.worktree)), tip.tree,
                      Differs(old(checkout.branch).tree, tip.tree))
      ensures r == Err(CheckoutFailed) ==>
                Shows(checkout, Found(env, old(checkout.index), old(checkout.worktree)), old(checkout.branch).tree,
                      Differs(old(checkout.branch).tree, tip.tree))
      ensures r == Err(CheckoutFailed) && env.edit.None? ==>
                Restored(checkout, old(checkout.index), old(checkout.worktree), old(checkout.branch).tree, ignored)
      ensures r == Err(RollbackFailed) ==>
                Outside(checkout, Found(env, old(checkout.index), old(checkout.worktree)),
                        Differs(old(checkout.branch).tree, tip.tree))
    {
      hide ClearToWrite, ClashFree, Differs, Shows, Restored, Outside, InTheWay, Overlay, Uncommitted, Collisions;
      var originalHead, fetched := checkout.branch, upstream;
      upstream := if env.upstreamAtRefresh.Some? then env.upstreamAtRefresh else upstream;
      checkout.branch := Or(env.branchAtRefresh, checkout.branch);
      if upstream != fetched {
        return Err(UpstreamMoved);
      }
      if checkout.branch != originalHead {
        return Err(BranchMoved);
      }

      var checked := PreCheck(originalHead.tree, tip, ignored);
      if checked.Err? {
        return Err(checked.error);
      }
      ghost var index0, worktree0 := checkout.index, checkout.worktree;
      if env.edit.Some? {
        checkout.index, checkout.worktree := env.edit.value.index, env.edit.value.worktree;
      }
      r := MoveTo(tip, originalHead, checked.value, env);
      ClearIsRestored(checkout, index0, worktree0, originalHead.tree, tip.tree, ignored);
    }

    /** Step 6: nothing uncommitted and nothing of the operator's lies at a path the checkout writes. */
    method PreCheck(head: Tree, tip: Commit, ignored: Path -> bool) returns (r: Result<set<Path>, Error>)
      ensures r.Ok? <==> ClearToWrite(checkout.index, checkout.worktree, head, tip.tree, ignored)
      ensures r.Ok? ==> r.value == Differs(head, tip.tree)
      ensures r.Err? ==> r.error == InTheWay(checkout.index, checkout.worktree, head, tip.tree, ignored)
    {
      hide Collisions, Uncommitted, ClearToWrite;
      var toFinal := TreeDiff(head, tip.tree);
      DiffPaths(toFinal, head, tip.tree);
      var written := ChangePathSet(toFinal);
      var uncommitted := checkout.UncommittedPaths(head);
      var conflicts := written * uncommitted;
      PreChecksMeanClear(checkout.index, checkout.worktree, head, tip.tree, ignored);
      if conflicts != {} {
        return Err(UncommittedConflict(conflicts));
      }
      var owned := checkout.OperatorCollisions(head, written, ignored);
      if owned != {} {
        return Err(OperatorOwned(owned));
      }
      return Ok(written);
    }

    /** Step 7: compare-and-swap the branch, check the written paths out, roll both back on failure. */
    method MoveTo(tip: Commit, originalHead: Commit, written: set<Path>, env: Interference)
        returns (r: Result<Commit, Error>)
      requires checkout.branch == originalHead
      modifies checkout
      ensures r == Outcome(env, originalHead, tip, written)
      ensures r == Err(SwapLost) ==>
                checkout.branch == Or(env.branchAtSwap, originalHead) &&
                checkout.index == old(checkout.index) && checkout.worktree == old(checkout.worktree)
      ensures r != Err(SwapLost) ==> checkout.branch == BranchEnds(env, originalHead, tip, written)
      ensures r.Ok? ==> Shows(checkout, old(Edit(checkout.index, checkout.worktree)), tip.tree, written)
      ensures r == Err(CheckoutFailed) ==>
                Shows(checkout, old(Edit(checkout.index, checkout.worktree)), originalHead.tree, written)
      ensures Outside(checkout, old(Edit(checkout.index, checkout.worktree)), written)
    {
      hide Overlay;
      checkout.branch := Or(env.branchAtSwap, checkout.branch);
      if checkout.branch != originalHead {
        return Err(SwapLost);
      }
      checkout.branch := Or(env.branchAfterSwap, tip);
      var ok := checkout.CheckoutPaths(tip, written, env.checkout);
      if !ok {
        ghost var index1, worktree1 := checkout.index, checkout.worktree;
        var undone := checkout.CheckoutPaths(originalHead, written, env.rollback);
        OverlayAgain(old(checkout.index), index1, originalHead.tree, written);
        OverlayAgain(old(checkout.worktree), worktree1, originalHead.tree, written);
        return Err(if undone then CheckoutFailed else RollbackFailed);
      }
      return Ok(tip);
    }
  }

  /** The head to land was not built: steps 1 to 4 refused. */
  predicate NotBuilt(e: Error) {
    || e.DetachedHead? || e.NoUpstream? || e.MergeBases? || e.NothingToReplay?
    || e.Unsafe? || (e.Build? && e.cause != Corruption)
  }

  /** The race guard of step 5 refused. */
  predicate Moved(e: Error) {
    e.UpstreamMoved? || e.BranchMoved?
  }

  /** What the pre-check reports: uncommitted work at written paths first, then the operator's files. */
  function InTheWay(index: Tree, worktree: Tree, head: Tree, final: Tree, ignored: Path -> bool): (e: Error)
    ensures e.UncommittedConflict? || e.OperatorOwned?
  {
    var ws := Differs(head, final);
    if ws * Uncommitted(index, worktree, head) != {} then UncommittedConflict(ws * Uncommitted(index, worktree, head))
    else OperatorOwned(set p, q | p in ws && q in Collisions(worktree, head, ignored, p) :: q)
  }

  /** How the swap, the checkout and the rollback end. */
  function Outcome(env: Interference, head: Commit, tip: Commit, written: set<Path>): (r: Result<Commit, Error>)
    ensures r == Ok(tip) || r in {Err(SwapLost), Err(CheckoutFailed), Err(RollbackFailed)}
    ensures env == QUIET ==> r == Ok(tip)
  {
    if Or(env.branchAtSwap, head) != head then Err(SwapLost)
    else if !Stops(env.checkout, written) then Ok(tip)
    else if !Stops(env.rollback, written) then Err(CheckoutFailed)
    else Err(RollbackFailed)
  }

  /** An outcome before the swap was attempted. */
  predicate Refused(e: Error) {
    !e.SwapLost? && !e.CheckoutFailed? && !e.RollbackFailed?
  }

  /** What the checkout finds: the state the pre-check saw, or what others made of it since. */
  function Found(env: Interference, index: Tree, worktree: Tree): Edit {
    if env.edit.Some? then env.edit.value else Edit(index, worktree)
  }

  /** Index and worktree hold the target's state at the written paths and the found state elsewhere. */
  ghost predicate Shows(c: Checkout, found: Edit, target: Tree, written: set<Path>)
    reads c
  {
    c.index == Overlay(found.index, target, written) && c.worktree == Overlay(found.worktree, target, written)
  }

  ghost predicate Outside(c: Checkout, found: Edit, written: set<Path>)
    reads c
  {
    forall p :: p !in written ==> At(c.index, p) == At(found.index, p) && At(c.worktree, p) == At(found.worktree, p)
  }

  /** Everything is as it was, except that ignored files at paths HEAD does not track may be gone. */
  ghost predicate Restored(c: Checkout, index: Tree, worktree: Tree, head: Tree, ignored: Path -> bool)
    reads c
  {
    && c.index == index
    && forall p :: At(c.worktree, p) == At(worktree, p) || (p !in head && ignored(p) && p !in c.worktree)
  }

  /** Overlaying over a state that differs at the overlaid paths only makes no difference. */
  lemma OverlayAgain(t: Tree, u: Tree, h: Tree, ps: set<Path>)
    requires forall p :: At(u, p) == At(t, p) || p in ps
    ensures Overlay(u, h, ps) == Overlay(t, h, ps)
  {
    SameTree(Overlay(u, h, ps), Overlay(t, h, ps));
  }

  lemma LandedClashFree(upstream: Option<Commit>, bases: seq<Commit>, walk: seq<Commit>, times: seq<int>,
      final: Commit, index: Tree, worktree: Tree, head: Tree, ignored: Path -> bool)
    requires Builds(upstream, bases, walk, times, final) && ClashFree(worktree)
    requires upstream.Some? ==> ClashFree(upstream.value.tree)
    ensures ClearToWrite(index, worktree, head, final.tree, ignored) ==>
              ClashFree(Overlay(worktree, final.tree, Differs(head, final.tree)))
  {
    hide Overlay, Collisions, Uncommitted, ClashFree, Differs;
    BuiltStaysClashFree(upstream, bases, walk, times, final);
    if ClearToWrite(index, worktree, head, final.tree, ignored) {
      CheckoutStaysPossible(worktree, head, final.tree, ignored);
    }
  }

  lemma ShowsClash(c: Checkout, found: Edit, target: Tree, written: set<Path>)
    ensures Shows(c, found, target, written) && ClashFree(Overlay(found.worktree, target, written)) ==>
              ClashFree(c.worktree)
  {
  }

  /** Over clear paths, putting the old head's state back restores what was there. */
  lemma ClearIsRestored(c: Checkout, index: Tree, worktree: Tree, head: Tree, final: Tree, ignored: Path -> bool)
    requires ClearToWrite(index, worktree, head, final, ignored) && ClashFree(worktree)
    ensures Shows(c, Edit(index, worktree), head, Differs(head, final)) ==> Restored(c, index, worktree, head, ignored)
  {
    RollbackRestores(index, worktree, index, worktree, head, final, ignored);
  }

  // ---- edits made by others after the pre-check -------------------------------------------------

  /**
    Which edits made after the pre-check are lost, wherever the run shows a target's state over what it
    found (Run: the replayed head's on success, the old head's after a rollback): exactly those at a
    written path that differ from the target there. The pre-check protects the state it saw only.
   */
  lemma EditLostExactly(c: Checkout, found: Edit, target: Tree, written: set<Path>, p: Path)
    requires Shows(c, found, target, written)
    ensures At(c.worktree, p) != At(found.worktree, p) <==> p in written && At(found.worktree, p) != At(target, p)
    ensures At(c.index, p) != At(found.index, p) <==> p in written && At(found.index, p) != At(target, p)
  {
  }

  // ---- commits made by others after the swap ----------------------------------------------------

  /**
    Where the branch ends once it was swapped to tip: checkout and rollback each set HEAD without
    looking at what others did to the branch since, unless they fail before that.
   */
  function BranchEnds(env: Interference, head: Commit, tip: Commit, written: set<Path>): Commit {
    if Stops(env.checkout, written) && env.rollback != AtHead then head
    else if env.checkout == AtHead then Or(env.branchAfterSwap, tip)
    else tip
  }

  /** Whatever others put on the branch after the swap is still reachable from it in the end. */
  predicate LaterCommitKept(env: Interference, head: Commit, tip: Commit, written: set<Path>) {
    env.branchAfterSwap.Some? ==> IsAncestorOf(env.branchAfterSwap.value, BranchEnds(env, head, tip, written))
  }

  /** HEAD was never overwritten: checkout and rollback both failed before moving it. */
  predicate HeadUntouched(env: Interference) {
    env.checkout == AtHead && env.rollback == AtHead
  }

  /**
    Over all interferences: what others put on the branch between the swap and the checkout survives
    exactly if there was nothing, if HEAD was never overwritten, or if it was part of the history the
    branch was set to anyway: the old head's after a rollback, the replayed tip's otherwise.
   */
  lemma LaterCommitKeptExactly(env: Interference, head: Commit, tip: Commit, written: set<Path>)
    ensures LaterCommitKept(env, head, tip, written) <==>
            || env.branchAfterSwap.None?
            || HeadUntouched(env)
            || IsAncestorOf(
                 env.branchAfterSwap.value,
                 if Stops(env.checkout, written) && env.rollback != AtHead then head else tip)
  {
    if env.branchAfterSwap.Some? {
      assert IsAncestorOf(env.branchAfterSwap.value, env.branchAfterSwap.value);
    }
  }

  /**
    For a commit made on top of the swapped tip, the normal case: it survives a finished checkout
    never, an unfinished rollback exactly if HEAD was never overwritten, and a finished rollback only
    if the old head already contained it.
   */
  lemma AppendedCommitKeptExactly(env: Interference, head: Commit, tip: Commit, written: set<Path>, x: Commit)
    requires env.branchAfterSwap == Some(x) && IsAncestorOf(tip, x) && x != tip
    ensures LaterCommitKept(env, head, tip, written) <==>
            HeadUntouched(env) || (Stops(env.checkout, written) && env.rollback != AtHead && IsAncestorOf(x, head))
  {
    LaterCommitKeptExactly(env, head, tip, written);
    if IsAncestorOf(x, tip) {
      AncestorAntisymmetric(x, tip);
    }
  }

  /** A concrete loss: nothing fails, and a commit made right after the swap is orphaned. */
  lemma CommitAfterSwapIsOrphaned(head: Commit, tip: Commit, written: set<Path>, x: Commit)
    requires x.parents == [tip]
    ensures !LaterCommitKept(QUIET.(branchAfterSwap := Some(x)), head, tip, written)
  {
    assert IsAncestorOf(tip, x.parents[0]);
    if x == tip {
      AncestorSmaller(x, tip);
    }
    AppendedCommitKeptExactly(QUIET.(branchAfterSwap := Some(x)), head, tip, written, x);
  }

  // ---- what a landed replay holds ---------------------------------------------------------------

  lemma BuiltStaysClashFree(upstream: Option<Commit>, bases: seq<Commit>, walk: seq<Commit>, times: seq<int>,
      final: Commit)
    requires Builds(upstream, bases, walk, times, final) && ClashFree(upstream.value.tree)
    ensures ClashFree(final.tree)
  {
    var chain := LocalChain(walk, bases[0]);
    ReplayStaysClashFree(chain, upstream.value, times[..|chain|], |chain|);
  }

  /**
    What a successful Run leaves on the branch, path by path: the old branch's state where a local
    commit touches the path, upstream's everywhere else; on top of upstream's history.
   */
  lemma LandedReplay(upstream: Option<Commit>, bases: seq<Commit>, walk: seq<Commit>, times: seq<int>, final: Commit,
      p: Path)
    requires walk != [] && Builds(upstream, bases, walk, times, final)
    ensures var chain := LocalChain(walk, bases[0]);
            At(final.tree, p) == if exists c <- chain :: p in Touches(c) then At(walk[0].tree, p)
              else At(upstream.value.tree, p)
    ensures IsAncestorOf(upstream.value, final)
  {
    var chain := LocalChain(walk, bases[0]);
    assert chain[|chain| - 1] == BeforeBase(walk, bases[0])[0] == walk[0];
    ReplayLandsLocalOverUpstream(chain, bases[0], upstream.value, times[..|chain|], p);
    ReplayDescendsFromUpstream(chain, upstream.value, times[..|chain|], |chain|);
  }

  lemma PreChecksMeanClear(index: Tree, worktree: Tree, head: Tree, final: Tree, ignored: Path -> bool)
    ensures ClearToWrite(index, worktree, head, final, ignored)
            <==> Differs(head, final) * Uncommitted(index, worktree, head) == {}
                 && (set p, q | p in Differs(head, final) && q in Collisions(worktree, head, ignored, p) :: q) == {}
  {
    var ws := Differs(head, final);
    var owned := set p, q | p in ws && q in Collisions(worktree, head, ignored, p) :: q;
    forall p | p in ws && owned == {} ensures Collisions(worktree, head, ignored, p) == {} {
      assert forall q | q in Collisions(worktree, head, ignored, p) :: q in owned;
    }
    assert forall p | p in ws && p in Uncommitted(index, worktree, head) ::
      p in ws * Uncommitted(index, worktree, head);
  }

  /** Checking the original tree back out over a partial checkout of clear paths undoes it. */
  lemma RollbackRestores(index0: Tree, worktree0: Tree, index1: Tree, worktree1: Tree, head: Tree, final: Tree,
      ignored: Path -> bool)
    requires ClearToWrite(index0, worktree0, head, final, ignored) && ClashFree(worktree0)
    requires forall p :: At(index1, p) == At(index0, p) || p in Differs(head, final)
    requires forall p :: At(worktree1, p) == At(worktree0, p) || p in Differs(head, final)
    ensures Overlay(index1, head, Differs(head, final)) == index0
    ensures forall p :: At(Overlay(worktree1, head, Differs(head, final)), p) == At(worktree0, p)
                        || (p !in head && ignored(p) && p !in Overlay(worktree1, head, Differs(head, final)))
  {
    var ws := Differs(head, final);
    forall p ensures At(Overlay(index1, head, ws), p) == At(index0, p) {
      if p in ws {
        CleanPath(index0, worktree0, head, p);
      }
    }
    SameTree(Overlay(index1, head, ws), index0);
    var after := Overlay(worktree1, head, ws);
    forall p ensures At(after, p) == At(worktree0, p) || (p !in head && ignored(p) && p !in after) {
      assert At(after, p) == if p in ws then At(head, p) else At(worktree1, p);
      if p in ws {
        CleanPath(index0, worktree0, head, p);
        assert Collisions(worktree0, head, ignored, p) == {};
      }
    }
  }
}
