/**
  Recovering a refused detached-HEAD push: the bounded fetch, replay and push loop against a remote
  branch that other pipelines keep advancing (engine_backend_push.go).
 */
module PushLoop {
  import opened Wrappers
  import opened Strings
  import opened Trees
  import opened Commits
  import opened Containment

  const HEADS := "refs/heads/"
  const ATTEMPTS := 3

  datatype Action = Fetch | Rebase | Push

  datatype PushError =
    | NotReplayable
    | Unresolved
    | FetchFailed
    | NoRemoteTip
    | ReplayFailed(cause: ReplayError)
    | StagingFailed
    | PushRefused
    | Exhausted

  /** One attempt's surroundings: how others advance the branch, and what fails. */
  datatype Weather = Weather(
    beforeFetch: Option<Commit>,
    beforePush: Option<Commit>,
    fetchFails: bool,
    stagingFails: bool,
    pushFails: bool,
    cleanupFails: bool)

  // ---- the environment --------------------------------------------------------------------------

  /** Others may only append: a proposed tip that does not descend from the branch has no effect. */
  function Advance(tip: Commit, move: Option<Commit>): (r: Commit)
    ensures IsAncestorOf(tip, r)
  {
    if move.Some? && IsAncestorOf(tip, move.value) then move.value else tip
  }

  /** The branch when only others have moved it: left after n whole attempts. */
  function Left(tip: Commit, weather: seq<Weather>, n: nat): Commit
    requires n <= |weather|
    decreases n, 0
  {
    if n == 0 then tip else Advance(Seen(tip, weather, n - 1), weather[n - 1].beforePush)
  }

  /** The tip attempt n fetches. */
  function Seen(tip: Commit, weather: seq<Weather>, n: nat): Commit
    requires n < |weather|
    decreases n, 1
  {
    Advance(Left(tip, weather, n), weather[n].beforeFetch)
  }

  // ---- the refspec ------------------------------------------------------------------------------

  /** Source revision and branch of a branch refspec; None for anything else. */
  function ParseRefspec(refspec: string): Option<(string, string)> {
    var spec := if refspec != [] && refspec[0] == '+' then refspec[1..] else refspec;
    var i := IndexOf(spec, ':');
    if i < |spec| && HEADS <= spec[i + 1..] then Some((spec[..i], spec[i + 1..][|HEADS|..])) else None
  }

  lemma RefspecRoundTrip(force: bool, src: string, branch: string)
    requires ':' !in src && (src == [] || src[0] != '+')
    ensures ParseRefspec((if force then ['+'] else []) + (src + [':'] + (HEADS + branch))) == Some((src, branch))
  {
    hide IndexOf;
    var dst := HEADS + branch;
    var spec := src + [':'] + dst;
    IndexOfFirst(src, ':', dst);
    assert spec[0] != '+';
    assert (['+'] + spec)[1..] == spec;
    assert [] + spec == spec;
    assert spec[|src| + 1..] == dst && spec[..|src|] == src;
    assert dst[|HEADS|..] == branch;
  }

  /** The text of a branch refspec with that source and branch. */
  predicate IsBranchRefspec(spec: string, src: string, branch: string) {
    ':' !in src && spec == src + [':'] + ("refs/heads/" + branch)
  }

  /** A refspec parses exactly if it is a branch refspec, after one leading plus if there is one. */
  lemma ParsesExactly(refspec: string, src: string, branch: string)
    ensures ParseRefspec(refspec) == Some((src, branch)) <==>
            IsBranchRefspec(if refspec != [] && refspec[0] == '+' then refspec[1..] else refspec, src, branch)
  {
    hide IndexOf;
    var spec := if refspec != [] && refspec[0] == '+' then refspec[1..] else refspec;
    var i := IndexOf(spec, ':');
    if ':' !in src && spec == src + [':'] + (HEADS + branch) {
      BranchParts(spec, src, HEADS, branch);
    }
    if i < |spec| && HEADS <= spec[i + 1..] {
      PartsOfBranch(spec, i, HEADS);
    }
  }

  lemma BranchParts(spec: string, src: string, heads: string, branch: string)
    requires ':' !in src && spec == src + [':'] + (heads + branch)
    ensures var i := IndexOf(spec, ':');
            i < |spec| && spec[..i] == src && heads <= spec[i + 1..] && spec[i + 1..][|heads|..] == branch
  {
    var dst := heads + branch;
    IndexOfFirst(src, ':', dst);
    hide IndexOf;
    assert spec[|src| + 1..] == dst;
  }

  lemma PartsOfBranch(spec: string, i: nat, heads: string)
    requires i == IndexOf(spec, ':') < |spec| && heads <= spec[i + 1..]
    ensures ':' !in spec[..i] && spec == spec[..i] + [':'] + (heads + spec[i + 1..][|heads|..])
  {
    hide IndexOf;
    AtIndex(spec, i);
    StartsWith(spec[i + 1..], heads);
  }

  lemma AtIndex(s: string, i: nat)
    requires i < |s|
    ensures s == s[..i] + [s[i]] + s[i + 1..]
  {
  }

  lemma StartsWith(s: string, a: string)
    requires a <= s
    ensures s == a + s[|a|..]
  {
  }

  // ---- fast-forward -----------------------------------------------------------------------------

  /**
    Against a remote that only moves forward from the fetched tip, the replayed commit is a
    fast-forward exactly when the branch still is that tip, or already is this very commit.
   */
  lemma FastForwardExactly(local: Commit, fetched: Commit, current: Commit)
    requires |local.parents| == 1 && IsAncestorOf(fetched, current)
    ensures IsAncestorOf(current, Onto(local, fetched)) <==> current == fetched || current == Onto(local, fetched)
  {
    var next := Onto(local, fetched);
    assert next.parents == [fetched];
    if IsAncestorOf(current, next) && current != next {
      assert IsAncestorOf(current, fetched);
      AncestorAntisymmetric(current, fetched);
    }
    assert IsAncestorOf(fetched, next.parents[0]);
  }

  // ---- the loop ---------------------------------------------------------------------------------

  /** Others push past the tip attempt i fetched, and not with this very commit. */
  predicate Outrun(local: Commit, tip: Commit, weather: seq<Weather>, i: nat)
    requires i < |weather|
  {
    Left(tip, weather, i + 1) !in {Seen(tip, weather, i), Onto(local, Seen(tip, weather, i))}
  }

  predicate Fair(w: Weather) {
    !w.fetchFails && !w.stagingFails && !w.pushFails
  }

  predicate Replayable(local: Commit) {
    |local.parents| == 1 && Touches(local) != {}
  }

  function Fetches(n: nat): seq<Action> {
    if n == 0 then [] else Fetches(n - 1) + [Fetch]
  }

  /** How the first failing step of an attempt on the tip it fetches ends it; None: the remote decides. */
  function FirstFailure(local: Commit, seen: Commit, w: Weather): Option<PushError> {
    if w.fetchFails then Some(FetchFailed)
    else if |local.parents| != 1 then Some(ReplayFailed(NotSingleParent(|local.parents|)))
    else if local.parents[0] != seen && Touches(local) == {} then Some(ReplayFailed(EmptyChangeSet))
    else if w.stagingFails then Some(StagingFailed)
    else if w.pushFails then Some(PushRefused)
    else None
  }

  /** A failure before the attempt gave others the time to push. */
  predicate Early(e: PushError) {
    e.FetchFailed? || e.ReplayFailed?
  }

  /** How a run of the loop may end, by the branch's tip before and after. */
  ghost predicate PushOutcome(r: Result<seq<Action>, PushError>, attempts: nat, local: Commit, before: Commit,
      after: Commit, weather: seq<Weather>)
    requires attempts <= |weather| == ATTEMPTS
  {
    // success: one child of the fetched tip, on a branch others had left at that tip or at this commit
    && (r.Ok? ==>
          && 0 < attempts && |local.parents| == 1 && r.value == Fetches(attempts) + [Rebase, Push]
          && after == Onto(local, Seen(before, weather, attempts - 1))
          && !Outrun(local, before, weather, attempts - 1)
          // what was pushed is a tree git can hold exactly if local fits the fetched tip: nothing checks it
          && (ClashFree(local.tree) && ClashFree(Seen(before, weather, attempts - 1).tree) ==>
                (ClashFree(after.tree) <==> Fits(local, Seen(before, weather, attempts - 1).tree))))
    // every attempt but the last was outrun, and none of them, nor a successful last one, met a failure
    && (forall i :: 0 <= i < attempts - 1 ==> Outrun(local, before, weather, i))
    && (forall i :: 0 <= i < (if r.Ok? || r == Err(Exhausted) then attempts else attempts - 1) ==>
          !weather[i].fetchFails && !weather[i].stagingFails && !weather[i].pushFails)
    // failure: the branch is where others left it, and the error tells the first step that failed
    && (r.Err? && r != Err(Exhausted) ==>
          && 0 < attempts
          && FirstFailure(local, Seen(before, weather, attempts - 1), weather[attempts - 1]) == Some(r.error)
          && (r == Err(FetchFailed) <==> weather[attempts - 1].fetchFails)
          && after == if Early(r.error) then Seen(before, weather, attempts - 1) else Left(before, weather, attempts))
    // the loop gives up exactly when every attempt was outrun
    && (r == Err(Exhausted) ==>
          && attempts == 3 && after == Left(before, weather, 3)
          && forall i :: 0 <= i < 3 ==> Outrun(local, before, weather, i))
    && (Replayable(local) && (forall i :: 0 <= i < ATTEMPTS ==> Fair(weather[i])) ==> r.Ok? || r == Err(Exhausted))
  }

  /** The attempt got as far as staging the transient ref. */
  predicate Staged<T>(r: Result<T, PushError>) {
    r.Ok? || r.error in {PushRefused, Exhausted}
  }

  /** The transient ref after n staged attempts: gone, unless the last cleanup failed. */
  function RefAfter(ref: Option<Commit>, local: Commit, tip: Commit, weather: seq<Weather>, n: nat): Option<Commit>
    requires n <= |weather|
  {
    if n == 0 then ref
    else if weather[n - 1].cleanupFails then Some(Onto(local, Seen(tip, weather, n - 1)))
    else None
  }

  /** The transient ref at the end of a run: as the last staged attempt left it. */
  ghost predicate RefOutcome(r: Result<seq<Action>, PushError>, attempts: nat, local: Commit, before: Commit,
      weather: seq<Weather>, was: Option<Commit>, ref: Option<Commit>)
    requires attempts <= |weather|
  {
    0 < attempts && ref == RefAfter(was, local, before, weather, if Staged(r) then attempts else attempts - 1)
  }

  /** The destination branch on the remote and the transient local ref: all the loop ever writes. */
  class Session {
    var remoteTip: Option<Commit>
    var pushRef: Option<Commit>

    constructor (remoteTip: Option<Commit>, pushRef: Option<Commit>)
      ensures this.remoteTip == remoteTip && this.pushRef == pushRef
    {
      this.remoteTip := remoteTip;
      this.pushRef := pushRef;
    }

    /** One turn of the loop: true when the push lands, false on a non-fast-forward refusal. */
    method Attempt(local: Commit, w: Weather) returns (r: Result<bool, PushError>)
      modifies this
      ensures old(remoteTip).None? ==> remoteTip.None? && r == Err(if w.fetchFails then FetchFailed else NoRemoteTip)
      ensures w.fetchFails <==> r == Err(FetchFailed)
      ensures r.Ok? ==> !w.fetchFails && !w.stagingFails && !w.pushFails
      ensures !Staged(r) ==> pushRef == old(pushRef)
      ensures Staged(r) && old(remoteTip).Some? ==>
                pushRef == if w.cleanupFails then Some(Onto(local, Advance(old(remoteTip).value, w.beforeFetch)))
                  else None
      ensures r.Err? ==> r.error != Exhausted && r.error != NotReplayable && r.error != Unresolved
      ensures old(remoteTip).Some? && Fair(w) && Replayable(local) ==> r.Ok?
      ensures old(remoteTip).Some? ==>
                var seen := Advance(old(remoteTip).value, w.beforeFetch);
                var left := Advance(seen, w.beforePush);
                && (r.Ok? ==> |local.parents| == 1)
                && r == (match FirstFailure(local, seen, w)
                         case Some(e) => Err(e)
                         case None => Ok(left == seen || left == Onto(local, seen)))
                && remoteTip == Some(if r == Ok(true) then Onto(local, seen)
                                     else if r.Err? && Early(r.error) then seen
                                     else left)
    {
      hide Onto, Advance, IsAncestorOf, Touches;
      if remoteTip.Some? {
        remoteTip := Some(Advance(remoteTip.value, w.beforeFetch));
      }
      if w.fetchFails {
        return Err(FetchFailed);
      }
      if remoteTip.None? {
        return Err(NoRemoteTip);
      }
      var tip := remoteTip.value;
      var replayed := ReplayCommitOntoTip(local, tip);
      if replayed.Err? {
        return Err(ReplayFailed(replayed.error));
      }
      var current := Advance(tip, w.beforePush);
      remoteTip := Some(current);
      if w.stagingFails {
        return Err(StagingFailed);
      }
      pushRef := Some(replayed.value);
      var accepted := IsAncestorOf(current, replayed.value);
      FastForwardExactly(local, tip, current);
      if accepted && !w.pushFails {
        remoteTip := Some(replayed.value);
      }
      if !w.cleanupFails {
        pushRef := None;
      }
      if w.pushFails {
        return Err(PushRefused);
      }
      return Ok(accepted);
    }

    /**
      replayRefspecPush, in every interleaving with others appending to the branch and with every
      pattern of failures. The transient ref survives exactly if the cleanup of the last attempt that
      staged it failed, or none did and it was there before.
     */
    method ReplayRefspecPush(refspec: string, resolve: string -> Option<Commit>, weather: seq<Weather>)
      returns (r: Result<seq<Action>, PushError>, attempts: nat)
      requires |weather| == ATTEMPTS
      modifies this
      ensures attempts <= 3
      ensures r == Err(NotReplayable) <==> ParseRefspec(refspec).None?
      ensures attempts == 0 ==> r.Err? && remoteTip == old(remoteTip) && pushRef == old(pushRef)
      ensures attempts == 0 <==> ParseRefspec(refspec).None? || resolve(ParseRefspec(refspec).value.0).None?
      ensures r.Ok? || r == Err(Exhausted) ==> attempts > 0 && (pushRef.Some? <==> weather[attempts - 1].cleanupFails)
      ensures old(remoteTip).None? ==> r.Err? && remoteTip.None? && pushRef == old(pushRef)
      ensures old(remoteTip).Some? && attempts > 0 ==>
                var local := resolve(ParseRefspec(refspec).value.0).value;
                && remoteTip.Some? && PushOutcome(r, attempts, local, old(remoteTip).value, remoteTip.value, weather)
                && RefOutcome(r, attempts, local, old(remoteTip).value, weather, old(pushRef), pushRef)
    {
      attempts := 0;
      var parsed := ParseRefspec(refspec);
      if parsed.None? {
        return Err(NotReplayable), attempts;
      }
      var localRev := resolve(parsed.value.0);
      if localRev.None? {
        return Err(Unresolved), attempts;
      }
      hide ParseRefspec;
      r, attempts := Loop(localRev.value, weather);
    }

    method Loop(local: Commit, weather: seq<Weather>) returns (r: Result<seq<Action>, PushError>, attempts: nat)
      requires |weather| == ATTEMPTS
      modifies this
      ensures 0 < attempts <= 3
      ensures r.Err? ==> r.error != NotReplayable
      ensures r.Ok? || r == Err(Exhausted) ==> (pushRef.Some? <==> weather[attempts - 1].cleanupFails)
      ensures old(remoteTip).None? ==> r.Err? && r != Err(Exhausted) && remoteTip.None? && pushRef == old(pushRef)
      ensures r.Err? ==> r.error != Unresolved
      ensures old(remoteTip).Some? ==>
                && remoteTip.Some? && PushOutcome(r, attempts, local, old(remoteTip).value, remoteTip.value, weather)
                && RefOutcome(r, attempts, local, old(remoteTip).value, weather, old(pushRef), pushRef)
    {
      hide Onto, Advance, IsAncestorOf, Touches, ClashFree, Fits, FirstFailure;
      attempts := 0;
      var actions: seq<Action> := [];
      while attempts < ATTEMPTS
        invariant 0 <= attempts <= ATTEMPTS
        invariant remoteTip.None? <==> old(remoteTip).None?
        invariant remoteTip.Some? ==> remoteTip.value == Left(old(remoteTip).value, weather, attempts)
        invariant remoteTip.Some? ==> pushRef == RefAfter(old(pushRef), local, old(remoteTip).value, weather, attempts)
        invariant if attempts == 0 then pushRef == old(pushRef) else remoteTip.Some?
        invariant actions == Fetches(attempts)
        invariant forall i :: 0 <= i < attempts ==> Fair(weather[i])
        invariant remoteTip.Some? ==> forall i :: 0 <= i < attempts ==> Outrun(local, old(remoteTip).value, weather, i)
      {
        var step := Attempt(local, weather[attempts]);
        attempts := attempts + 1;
        if step.Err? {
          return Err(step.error), attempts;
        }
        actions := actions + [Fetch];
        if step.value {
          OntoIsClashFreeExactly(local, Seen(old(remoteTip).value, weather, attempts - 1));
          return Ok(actions + [Rebase, Push]), attempts;
        }
      }
      return Err(Exhausted), attempts;
    }
  }
}
