/**
  Replaying a linear chain of local commits onto an upstream tip at the object layer: replayOnto,
  validateReplayGate and the build loop of Replay (gogit_replay.go, gogit_replay_checkout.go).
 */
module ReplayChain {
  import opened Wrappers
  import opened Trees
  import opened ChangeSets
  import opened FlatTrees
  import opened Commits

  datatype ReplayError =
    | UpstreamChanged(paths: set<Path>)
    | FileAndDirectory(paths: set<Path>)
    | Corruption

  // ---- one commit -------------------------------------------------------------------------------

  /** The tip's tree with c's end state at the paths c touches. */
  function Landed(c: Commit, tip: Tree): Tree {
    Overlay(tip, c.tree, Touches(c))
  }

  predicate AlreadyThere(c: Commit, tip: Tree) {
    Touches(c) != {} && forall p | p in Touches(c) :: At(tip, p) == At(c.tree, p)
  }

  /** replayOnto accepts c over this tip. */
  predicate Accepts(c: Commit, tip: Tree) {
    AlreadyThere(c, tip) || (Untouched(BaseTree(c), c.tree, tip) && Clashes(Landed(c, tip)) == {})
  }

  /** What an accepted replay of c produces. */
  function Replayed(c: Commit, tip: Commit, now: int): Commit {
    if AlreadyThere(c, tip.tree) then tip else Rebuilt(c, Landed(c, tip.tree), tip, now)
  }

  /**
    replayOnto. Its two verification gates never fire: the replayed change-set always equals the
    source's, so the outcome is decided by the overlap and clash checks alone.
   */
  method ReplayOnto(c: Commit, tip: Commit, flat: FlatTree, now: int) returns (r: Result<Commit, ReplayError>)
    requires flat.entries == tip.tree
    modifies flat
    ensures r.Ok? <==> Accepts(c, tip.tree)
    ensures r.Ok? ==> r.value == Replayed(c, tip, now) && flat.entries == r.value.tree
    ensures r.Err? && r.error.UpstreamChanged? ==>
              r.error.paths == (set p | p in Touches(c) && At(tip.tree, p) != At(BaseTree(c), p)) != {}
    ensures r.Err? && r.error.FileAndDirectory? ==> r.error.paths == Clashes(Landed(c, tip.tree)) != {}
    ensures r.Err? ==> !r.error.Corruption?
  {
    hide Signatures, Signature, ApplyChanges, Drift, Holds, Clashes, Overlay, IsDiff;
    var changes := TreeDiff(BaseTree(c), c.tree);
    EmptyDiff(changes, BaseTree(c), c.tree);
    AppliedMeansEndState(changes, BaseTree(c), c.tree, tip.tree);
    OverlapMeansDrift(changes, BaseTree(c), c.tree, tip.tree);
    if |changes| > 0 {
      var applied := flat.AlreadyApplied(changes);
      if applied {
        return Ok(tip);
      }
    }
    assert !AlreadyThere(c, tip.tree);
    var overlap := flat.UpstreamOverlap(changes);
    if overlap != {} {
      OverlapPaths(changes, BaseTree(c), c.tree, tip.tree);
      return Err(UpstreamChanged(overlap));
    }
    flat.ApplyChangeSet(changes);
    ApplyDiff(tip.tree, changes, BaseTree(c), c.tree);
    var clash := flat.PathClashes();
    if clash != {} {
      return Err(FileAndDirectory(clash));
    }
    var next := Rebuilt(c, flat.entries, tip, now);
    var replayed := TreeDiff(BaseTree(next), next.tree);
    GateExact(BaseTree(c), c.tree, changes, tip.tree, next.tree, replayed);
    var expected := ChangePathSet(changes);
    var actual := ChangePathSet(replayed);
    if expected != actual {
      DiffPaths(changes, BaseTree(c), c.tree);
      DiffPaths(replayed, tip.tree, next.tree);
      LandedDiffers(c, tip.tree);
      return Err(Corruption);
    }
    var same := EqualChangeSets(changes, replayed);
    if !same {
      return Err(Corruption);
    }
    return Ok(next);
  }

  lemma OverlapPaths(cs: seq<Change>, a: Tree, b: Tree, t: Tree)
    requires IsDiff(cs, a, b)
    ensures Overlap(t, cs) == set p | p in Differs(a, b) && At(t, p) != At(a, p)
  {
    DiffMembers(cs, a, b);
    forall p | p in Overlap(t, cs) ensures p in Differs(a, b) && At(t, p) != At(a, p) {
      var c :| c in cs && p in Drift(t, c);
      assert c == ChangeAt(a, b, PathOf(c));
    }
    forall p | p in Differs(a, b) && At(t, p) != At(a, p) ensures p in Overlap(t, cs) {
      var c := ChangeAt(a, b, p);
      assert c in cs && p in Drift(t, c);
    }
  }

  lemma LandedDiffers(c: Commit, tip: Tree)
    requires Untouched(BaseTree(c), c.tree, tip)
    ensures Differs(tip, Landed(c, tip)) == Touches(c)
  {
  }

  /** A commit the replay adds changes exactly what its source changes, entry for entry. */
  lemma ReplayKeepsDelta(c: Commit, tip: Commit, now: int)
    requires Accepts(c, tip.tree) && !AlreadyThere(c, tip.tree)
    ensures var n := Replayed(c, tip, now);
            && DiffSet(BaseTree(n), n.tree) == DiffSet(BaseTree(c), c.tree) && n.parents == [tip]
            && n.message == c.message && n.author == c.author && n.committer == c.committer && n.when == now
  {
    EqualDiffs(BaseTree(c), c.tree, tip.tree, Landed(c, tip.tree));
  }

  /** A commit whose whole effect upstream already has is skipped, even where upstream has drifted. */
  lemma AlreadyLandedIsSkipped(c: Commit, tip: Commit, now: int)
    requires Touches(c) != {} && forall p :: p in Touches(c) ==> At(tip.tree, p) == At(c.tree, p)
    ensures Accepts(c, tip.tree) && Replayed(c, tip, now) == tip
  {
  }

  /** Otherwise it is refused exactly if upstream has changed a touched path or the result can not exist. */
  lemma RefusedExactly(c: Commit, tip: Commit)
    requires Touches(c) == {} || exists p :: p in Touches(c) && At(tip.tree, p) != At(c.tree, p)
    ensures !Accepts(c, tip.tree) <==>
            || (exists p :: p in Touches(c) && At(tip.tree, p) != At(BaseTree(c), p))
            || !ClashFree(Overlay(tip.tree, c.tree, Touches(c)))
  {
    NoClashes(Landed(c, tip.tree));
  }

  /** Replayed onto a tree that equals its own base, a commit lands its own tree. */
  lemma ReplayedInPlace(c: Commit, tip: Commit, now: int)
    requires tip.tree == BaseTree(c) && ClashFree(c.tree)
    ensures Accepts(c, tip.tree) && Replayed(c, tip, now).tree == c.tree
  {
    SameTree(Landed(c, tip.tree), c.tree);
    NoClashes(c.tree);
    assert AlreadyThere(c, tip.tree) ==> exists p :: p in Touches(c);
  }

  // ---- the structural gate ----------------------------------------------------------------------

  datatype Violation = Merge(commit: Commit) | NonLinear(commit: Commit)

  /** What is wrong with the i-th commit as a link of the chain, if anything. */
  function Offence(commits: seq<Commit>, base: Commit, i: nat): Option<Violation>
    requires i < |commits|
  {
    var c := commits[i];
    if |c.parents| != 1 then Some(Merge(c))
    else if c.parents[0] != ChainAt(commits, base, i) then Some(NonLinear(c))
    else None
  }

  /** Every offence of the first n commits, in order. */
  function Offences(commits: seq<Commit>, base: Commit, n: nat): seq<Violation>
    requires n <= |commits|
  {
    if n == 0 then []
    else Offences(commits, base, n - 1) + match Offence(commits, base, n - 1) case Some(v) => [v] case None => []
  }

  lemma {:induction false} NoOffencesMeansLinear(commits: seq<Commit>, base: Commit, n: nat)
    requires n <= |commits|
    ensures Offences(commits, base, n) == [] <==> LinearUpTo(commits, base, n)
  {
    hide Offence, LinearUpTo;
    LinearStep(commits, base, n);
    if n > 0 {
      NoOffencesMeansLinear(commits, base, n - 1);
      LinkExactly(commits, base, n - 1);
    }
  }

  lemma LinearStep(commits: seq<Commit>, base: Commit, n: nat)
    requires n <= |commits|
    ensures LinearUpTo(commits, base, n) <==>
            n == 0 || (LinearUpTo(commits, base, n - 1) && commits[n - 1].parents == [ChainAt(commits, base, n - 1)])
  {
  }

  /** What is reported is the offences of the single commits, all of them and nothing else. */
  lemma {:induction false} OffencesExactly(commits: seq<Commit>, base: Commit, n: nat, v: Violation)
    requires n <= |commits|
    ensures v in Offences(commits, base, n) <==> exists i :: 0 <= i < n && Offence(commits, base, i) == Some(v)
  {
    hide Offence;
    if n > 0 {
      OffencesExactly(commits, base, n - 1, v);
    }
  }

  lemma LinkExactly(commits: seq<Commit>, base: Commit, i: nat)
    requires i < |commits|
    ensures Offence(commits, base, i) == None <==> commits[i].parents == [ChainAt(commits, base, i)]
    ensures Offence(commits, base, i) == Some(Merge(commits[i])) <==> |commits[i].parents| != 1
  {
  }

  /** validateReplayGate: all offences of all commits, none exactly for a linear chain. */
  method ValidateReplayGate(commits: seq<Commit>, mergeBase: Commit) returns (violations: seq<Violation>)
    ensures violations == Offences(commits, mergeBase, |commits|)
    ensures violations == [] <==> Linear(commits, mergeBase)
  {
    violations := [];
    for i := 0 to |commits|
      invariant violations == Offences(commits, mergeBase, i)
    {
      var c := commits[i];
      if |c.parents| != 1 {
        violations := violations + [Merge(c)];
      }
      if |c.parents| == 1 {
        var expected := if i > 0 then commits[i - 1] else mergeBase;
        if c.parents[0] != expected {
          violations := violations + [NonLinear(c)];
        }
      }
    }
    NoOffencesMeansLinear(commits, mergeBase, |commits|);
  }

  // ---- the whole chain --------------------------------------------------------------------------

  /** The tip after replaying the first i commits, provided they are all accepted. */
  function TipAfter(commits: seq<Commit>, upstream: Commit, times: seq<int>, i: nat): Commit
    requires i <= |commits| == |times|
  {
    if i == 0 then upstream else Replayed(commits[i - 1], TipAfter(commits, upstream, times, i - 1), times[i - 1])
  }

  ghost predicate AcceptedUpTo(commits: seq<Commit>, upstream: Commit, times: seq<int>, n: nat)
    requires n <= |commits| == |times|
  {
    forall i :: 0 <= i < n ==> Accepts(commits[i], TipAfter(commits, upstream, times, i).tree)
  }

  /** The build loop: replay every commit oldest first, stopping at the first refusal. */
  method ReplayAll(commits: seq<Commit>, upstream: Commit, times: seq<int>) returns (r: Result<Commit, ReplayError>)
    requires |times| == |commits|
    ensures r.Ok? <==> AcceptedUpTo(commits, upstream, times, |commits|)
    ensures r.Ok? ==> r.value == TipAfter(commits, upstream, times, |commits|)
    ensures r.Err? ==> !r.error.Corruption?
  {
    hide Accepts, Replayed;
    var flat := new FlatTree(upstream.tree);
    var tip := upstream;
    for i := 0 to |commits|
      invariant flat.entries == tip.tree
      invariant tip == TipAfter(commits, upstream, times, i)
      invariant AcceptedUpTo(commits, upstream, times, i)
    {
      var step := ReplayOnto(commits[i], tip, flat, times[i]);
      if step.Err? {
        return step;
      }
      tip := step.value;
    }
    return Ok(tip);
  }

  /** The rebased tree in closed form: local state at the paths touched so far, upstream elsewhere. */
  ghost function RebasedTree(commits: seq<Commit>, base: Commit, upstream: Tree, i: nat): Tree
    requires i <= |commits|
  {
    Overlay(upstream, ChainAt(commits, base, i).tree, TouchedBy(commits, i))
  }

  lemma RebaseStep(commits: seq<Commit>, base: Commit, upstream: Tree, i: nat)
    requires Linear(commits, base) && i < |commits|
    ensures Landed(commits[i], RebasedTree(commits, base, upstream, i)) == RebasedTree(commits, base, upstream, i + 1)
  {
    var c, before, after := commits[i], RebasedTree(commits, base, upstream, i),
      RebasedTree(commits, base, upstream, i + 1);
    assert c.parents == [ChainAt(commits, base, i)];
    forall p ensures At(Landed(c, before), p) == At(after, p) {
      assert p !in Touches(c) ==> At(c.tree, p) == At(BaseTree(c), p);
    }
    SameTree(Landed(c, before), after);
  }

  lemma ReplayedTree(c: Commit, tip: Commit, now: int)
    ensures Replayed(c, tip, now).tree == Landed(c, tip.tree)
  {
    SameTree(Replayed(c, tip, now).tree, Landed(c, tip.tree));
  }

  lemma {:induction false} TipIsRebased(commits: seq<Commit>, base: Commit, upstream: Commit, times: seq<int>, i: nat)
    requires Linear(commits, base) && i <= |commits| == |times|
    ensures TipAfter(commits, upstream, times, i).tree == RebasedTree(commits, base, upstream.tree, i)
  {
    hide Replayed, Landed, Overlay, RebasedTree, TouchedBy, ChainAt, Linear;
    if i == 0 {
      NothingRebased(commits, base, upstream.tree);
    } else {
      var before := TipAfter(commits, upstream, times, i - 1);
      TipIsRebased(commits, base, upstream, times, i - 1);
      ReplayedTree(commits[i - 1], before, times[i - 1]);
      RebaseStep(commits, base, upstream.tree, i - 1);
    }
  }

  lemma NothingRebased(commits: seq<Commit>, base: Commit, upstream: Tree)
    ensures RebasedTree(commits, base, upstream, 0) == upstream
  {
    SameTree(upstream, RebasedTree(commits, base, upstream, 0));
  }

  /**
    What a successful replay of a linear chain from base to its head lands: the head's state at every
    path some local commit touches, upstream's state everywhere else.
   */
  lemma ReplayLandsLocalOverUpstream(commits: seq<Commit>, base: Commit, upstream: Commit, times: seq<int>, p: Path)
    requires Linear(commits, base) && |commits| == |times|
    ensures var final := TipAfter(commits, upstream, times, |commits|).tree;
            && ((exists i :: 0 <= i < |commits| && p in Touches(commits[i])) ==>
              At(final, p) == At(ChainAt(commits, base, |commits|).tree, p))
            && ((forall i :: 0 <= i < |commits| ==> p !in Touches(commits[i])) ==> At(final, p) == At(upstream.tree, p))
  {
    TipIsRebased(commits, base, upstream, times, |commits|);
    TouchedByMember(commits, |commits|, p);
  }

  /**
    No upstream edit is overwritten: where upstream differs from the merge base at a touched path, it
    already holds what the first touching commit lands.
   */
  lemma NoUpstreamEditLost(commits: seq<Commit>, base: Commit, upstream: Commit, times: seq<int>, k: nat, p: Path)
    requires Linear(commits, base) && k < |commits| == |times|
    requires AcceptedUpTo(commits, upstream, times, |commits|)
    requires p in Touches(commits[k]) && forall j :: 0 <= j < k ==> p !in Touches(commits[j])
    ensures At(upstream.tree, p) == At(base.tree, p) || At(upstream.tree, p) == At(commits[k].tree, p)
  {
    TouchedByMember(commits, k, p);
    TipIsRebased(commits, base, upstream, times, k);
    UntouchedKeepsBase(commits, base, k, p);
    assert Accepts(commits[k], TipAfter(commits, upstream, times, k).tree);
    assert commits[k].parents == [ChainAt(commits, base, k)];
  }

  /**
    Exactly when the whole chain replays: each commit in turn is accepted over the closed-form tree,
    which depends on upstream's tree and the local chain alone.
   */
  lemma ReplaySucceedsExactly(commits: seq<Commit>, base: Commit, upstream: Commit, times: seq<int>)
    requires Linear(commits, base) && |commits| == |times|
    ensures AcceptedUpTo(commits, upstream, times, |commits|)
            <==> forall i :: 0 <= i < |commits| ==> Accepts(commits[i], RebasedTree(commits, base, upstream.tree, i))
  {
    forall i | 0 <= i < |commits|
      ensures TipAfter(commits, upstream, times, i).tree == RebasedTree(commits, base, upstream.tree, i)
    {
      TipIsRebased(commits, base, upstream, times, i);
    }
  }

  /** The replayed head descends from upstream, so pushing it is a fast-forward. */
  lemma {:induction false} ReplayDescendsFromUpstream(commits: seq<Commit>, upstream: Commit, times: seq<int>, i: nat)
    requires i <= |commits| == |times|
    ensures IsAncestorOf(upstream, TipAfter(commits, upstream, times, i))
  {
    if i > 0 {
      ReplayDescendsFromUpstream(commits, upstream, times, i - 1);
      var before, after := TipAfter(commits, upstream, times, i - 1), TipAfter(commits, upstream, times, i);
      if before != after {
        assert IsAncestorOf(upstream, after.parents[0]);
      }
    }
  }

  /** Every accepted replay onto a tree a disk can hold yields such a tree again. */
  lemma {:induction false} ReplayStaysClashFree(commits: seq<Commit>, upstream: Commit, times: seq<int>, i: nat)
    requires i <= |commits| == |times| && AcceptedUpTo(commits, upstream, times, i) && ClashFree(upstream.tree)
    ensures ClashFree(TipAfter(commits, upstream, times, i).tree)
  {
    hide Accepts, Replayed, ClashFree;
    if i > 0 {
      ReplayStaysClashFree(commits, upstream, times, i - 1);
      StepStaysClashFree(commits[i - 1], TipAfter(commits, upstream, times, i - 1), times[i - 1]);
    }
  }

  lemma StepStaysClashFree(c: Commit, tip: Commit, now: int)
    requires Accepts(c, tip.tree) && ClashFree(tip.tree)
    ensures ClashFree(Replayed(c, tip, now).tree)
  {
    hide ClashFree, Clashes, Overlay;
    NoClashes(Landed(c, tip.tree));
  }
}
