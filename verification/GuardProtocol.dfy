/**
  The guard's restore under concurrency (worktree_guard.go): any number of Close calls and the signal
  goroutine race for the mutex while hooks write any path at any time, also between two paths of a
  running restore and between reading a path and writing it.
 */
module GuardProtocol {
  import opened Wrappers
  import opened WorktreeGuard

  type Call = nat

  /**
    Where a call is: about to take the lock, about to read path i (clean so far or not), about to act
    on what it saw there (raced: a hook has written the path since), or returned.
   */
  datatype Pc =
    | Wanting
    | Restoring(i: nat, clean: bool)
    | Applying(i: nat, clean: bool, seen: FileState, raced: bool)
    | Returned

  datatype Sys = Sys(
    snapshot: seq<GuardedFile>,
    files: Files,
    artifact: bool,
    finalized: bool,
    watchStopped: bool,
    doneCloses: nat,
    lock: Option<Call>,
    calls: map<Call, Pc>,
    // history: who changed a file, how each path was treated, and what hooks wrote after its read
    writers: set<Call>,
    verdicts: map<Path, Verdict>,
    dirtied: set<Path>)

  datatype Step =
    | HookWrite(path: Path, state: FileState)
    | Close(call: Call)
    | SignalPeek(call: Call)
    | Acquire(call: Call)
    | ReadOne(call: Call)
    | ApplyOne(call: Call, wreck: Option<FileState>)
    | Finish(call: Call, removalFails: bool)

  /** After capture: armed with a persisted artifact, or inert when nothing was at risk. */
  ghost predicate Init(s: Sys) {
    && DistinctPaths(s.snapshot)
    && s.artifact == !s.finalized == (s.snapshot != [])
    && !s.watchStopped && s.doneCloses == 0 && s.lock == None
    && s.calls == map[] && s.writers == {} && s.verdicts == map[] && s.dirtied == {}
  }

  predicate Enabled(s: Sys, step: Step) {
    match step
    case HookWrite(_, _) => true
    case Close(c) => c !in s.calls
    case SignalPeek(c) => c !in s.calls && s.lock == None
    case Acquire(c) => c in s.calls && s.calls[c].Wanting? && s.lock == None
    case ReadOne(c) => c in s.calls && s.calls[c].Restoring? && s.calls[c].i < |s.snapshot|
    case ApplyOne(c, _) => c in s.calls && s.calls[c].Applying? && s.calls[c].i < |s.snapshot|
    case Finish(c, _) => c in s.calls && s.calls[c].Restoring? && s.calls[c].i >= |s.snapshot|
  }

  /** The lock holder has read p and not acted on it yet. */
  predicate InFlight(s: Sys, p: Path) {
    && s.lock.Some? && s.lock.value in s.calls && s.calls[s.lock.value].Applying?
    && s.calls[s.lock.value].i < |s.snapshot| && s.snapshot[s.calls[s.lock.value].i].path == p
  }

  function Next(s: Sys, step: Step): Sys
    requires Enabled(s, step)
  {
    match step
    case HookWrite(p, st) =>
      s.(files := s.files[p := st],
         dirtied := if p in s.verdicts || InFlight(s, p) then s.dirtied + {p} else s.dirtied,
         calls := if InFlight(s, p) then s.calls[s.lock.value := s.calls[s.lock.value].(raced := true)] else s.calls)
    case Close(c) => s.(calls := s.calls[c := Wanting])
    case SignalPeek(c) => s.(calls := s.calls[c := if s.finalized then Returned else Wanting])
    case Acquire(c) =>
      if s.finalized then s.(calls := s.calls[c := Returned])
      else s.(lock := Some(c), calls := s.calls[c := Restoring(0, true)])
    case ReadOne(c) =>
      var Restoring(i, clean) := s.calls[c];
      s.(calls := s.calls[c := Applying(i, clean, StateAt(s.files, s.snapshot[i].path), false)])
    case ApplyOne(c, wreck) =>
      var Applying(i, clean, seen, _) := s.calls[c];
      var f := s.snapshot[i];
      var now := StateAt(s.files, f.path);
      var (next, v) := Perform(f, Decide(f, seen), now, wreck);
      s.(files := s.files[f.path := next],
         writers := if next != now then s.writers + {c} else s.writers,
         verdicts := s.verdicts[f.path := v],
         calls := s.calls[c := Restoring(i + 1, clean && Settled(v))])
    case Finish(c, removalFails) =>
      s.(finalized := true,
         doneCloses := if s.watchStopped then s.doneCloses else s.doneCloses + 1,
         watchStopped := true,
         artifact := s.artifact && (!s.calls[c].clean || removalFails),
         lock := None,
         calls := s.calls[c := Returned])
  }

  /** The state after the given steps from s0; None when one of them is not enabled. */
  function After(s0: Sys, steps: seq<Step>): Option<Sys> {
    if steps == [] then Some(s0)
    else
      match After(s0, steps[..|steps| - 1])
      case None => None
      case Some(t) => if Enabled(t, steps[|steps| - 1]) then Some(Next(t, steps[|steps| - 1])) else None
  }

  predicate Run(s0: Sys, steps: seq<Step>, s: Sys) {
    After(s0, steps) == Some(s)
  }

  // ---- the invariant ----------------------------------------------------------------------------

  ghost predicate Treated(s: Sys, n: nat)
    requires n <= |s.snapshot|
  {
    && (forall j :: 0 <= j < |s.snapshot| ==> (s.snapshot[j].path in s.verdicts <==> j < n))
    && (forall j :: 0 <= j < n && Settled(s.verdicts[s.snapshot[j].path]) ==>
          s.snapshot[j].path in s.dirtied || HoldsCaptured(s.snapshot[j], StateAt(s.files, s.snapshot[j].path)))
  }

  ghost predicate AllSettled(s: Sys, n: nat)
    requires n <= |s.snapshot|
  {
    forall j :: 0 <= j < n && s.snapshot[j].path in s.verdicts ==> Settled(s.verdicts[s.snapshot[j].path])
  }

  predicate Holding(pc: Pc) {
    pc.Restoring? || pc.Applying?
  }

  ghost predicate LockInv(s: Sys) {
    && (forall c :: c in s.calls && Holding(s.calls[c]) ==> s.lock == Some(c))
    && (s.lock.Some? ==> s.lock.value in s.calls && Holding(s.calls[s.lock.value]) && !s.finalized)
    && s.doneCloses == (if s.watchStopped then 1 else 0)
    && (s.watchStopped ==> s.finalized)
  }

  ghost predicate WriterInv(s: Sys) {
    && (!s.finalized && s.lock.None? ==> s.writers == {})
    && (s.lock.Some? ==> s.writers <= {s.lock.value})
    && (forall a, b :: a in s.writers && b in s.writers ==> a == b)
  }

  ghost predicate RestoreInv(s: Sys) {
    && DistinctPaths(s.snapshot)
    && (!s.finalized ==> s.artifact)
    && (!s.finalized && s.lock.None? ==> Treated(s, 0))
    && (s.finalized ==> Treated(s, |s.snapshot|) && (!s.artifact ==> AllSettled(s, |s.snapshot|)))
    && (s.lock.Some? && s.lock.value in s.calls && Holding(s.calls[s.lock.value]) ==>
          var pc := s.calls[s.lock.value];
          && pc.i <= |s.snapshot| && Treated(s, pc.i) && (pc.clean <==> AllSettled(s, pc.i))
          && (pc.Applying? ==> pc.i < |s.snapshot| && WindowInv(s, s.snapshot[pc.i].path, pc)))
  }

  /** Unless a hook wrote the path since, what was read is still there. */
  ghost predicate WindowInv(s: Sys, p: Path, pc: Pc)
    requires pc.Applying?
  {
    if pc.raced then p in s.dirtied else StateAt(s.files, p) == pc.seen
  }

  ghost predicate Inv(s: Sys) {
    LockInv(s) && WriterInv(s) && RestoreInv(s)
  }

  lemma InitInv(s: Sys)
    requires Init(s)
    ensures Inv(s)
  {
  }

  lemma LockStep(s: Sys, step: Step)
    requires Inv(s) && Enabled(s, step)
    ensures LockInv(Next(s, step)) && WriterInv(Next(s, step))
  {
  }

  lemma ApplyOneStep(s: Sys, c: Call, wreck: Option<FileState>)
    requires Inv(s) && Enabled(s, ApplyOne(c, wreck))
    ensures RestoreInv(Next(s, ApplyOne(c, wreck)))
  {
    var Applying(i, clean, seen, raced) := s.calls[c];
    var f := s.snapshot[i];
    if !raced {
      SettledHoldsCaptured(f, seen, wreck);
    }
    hide Perform, Decide, HoldsCaptured;
  }

  lemma HookStep(s: Sys, p: Path, st: FileState)
    requires Inv(s)
    ensures RestoreInv(Next(s, HookWrite(p, st)))
  {
    hide Perform, Decide, HoldsCaptured;
  }

  lemma RestoreStep(s: Sys, step: Step)
    requires Inv(s) && Enabled(s, step)
    ensures RestoreInv(Next(s, step))
  {
    hide Perform, Decide, HoldsCaptured;
    match step
    case ApplyOne(c, wreck) => ApplyOneStep(s, c, wreck);
    case ReadOne(c) =>
    case HookWrite(p, st) => HookStep(s, p, st);
    case Close(c) =>
    case SignalPeek(c) =>
    case Acquire(c) =>
    case Finish(c, removalFails) =>
  }

  lemma {:induction false} RunInv(s0: Sys, steps: seq<Step>, s: Sys)
    requires Init(s0) && Run(s0, steps, s)
    ensures Inv(s) && s.snapshot == s0.snapshot
  {
    if steps == [] {
      InitInv(s0);
    } else {
      var front, last := steps[..|steps| - 1], steps[|steps| - 1];
      var t := After(s0, front).value;
      RunInv(s0, front, t);
      LockStep(t, last);
      RestoreStep(t, last);
    }
  }

  // ---- the guarantees ---------------------------------------------------------------------------

  /** In every run at most one call ever changes a file, and the done channel closes at most once. */
  lemma OneWriter(s0: Sys, steps: seq<Step>, s: Sys)
    requires Init(s0) && Run(s0, steps, s)
    ensures forall a, b :: a in s.writers && b in s.writers ==> a == b
    ensures |s.writers| <= 1 && s.doneCloses <= 1
  {
    RunInv(s0, steps, s);
    if a :| a in s.writers {
      assert s.writers == {a};
    }
  }

  /**
    Nothing is lost. Whatever the interleaving: until some restore has finalized the artifact is on
    disk, and afterwards each captured path holds the operator's content, was rewritten by a hook
    after the guard had treated it, or still has the artifact.
   */
  lemma NothingLost(s0: Sys, steps: seq<Step>, s: Sys, f: GuardedFile)
    requires Init(s0) && Run(s0, steps, s) && f in s.snapshot
    ensures s.artifact || f.path in s.dirtied || HoldsCaptured(f, StateAt(s.files, f.path))
  {
    RunInv(s0, steps, s);
    var j :| 0 <= j < |s.snapshot| && s.snapshot[j] == f;
    if !s.artifact {
      assert Treated(s, |s.snapshot|) && AllSettled(s, |s.snapshot|);
      assert s.snapshot[j].path in s.verdicts;
    }
  }

  /**
    No step of the guard touches a path outside the snapshot, and what it read before changing a path
    was unreadable or the index baseline; unless a hook wrote the path since, that is what it replaces.
   */
  lemma GuardOnlyUndoesWipes(s0: Sys, steps: seq<Step>, s: Sys, step: Step, p: Path)
    requires Init(s0) && Run(s0, steps, s) && Enabled(s, step) && !step.HookWrite?
    requires StateAt(Next(s, step).files, p) != StateAt(s.files, p)
    ensures step.ApplyOne?
    ensures var pc := s.calls[step.call];
            && s.snapshot[pc.i].path == p
            && (!Readable(pc.seen) || MatchesBaseline(s.snapshot[pc.i], pc.seen))
            && (pc.raced || StateAt(s.files, p) == pc.seen)
  {
    RunInv(s0, steps, s);
  }

  /**
    When a hook's new content is overwritten, failing writes included: exactly if the hook wrote the path
    after the guard had read it, what the guard had read was a wipe it was going to undo, and the write
    did not fail leaving everything as it was. Content that was there when the guard read the path is
    always safe.
   */
  lemma NewContentOverwrittenExactly(s0: Sys, steps: seq<Step>, s: Sys, c: Call, wreck: Option<FileState>)
    requires Init(s0) && Run(s0, steps, s) && Enabled(s, ApplyOne(c, wreck))
    requires NewContent(s.snapshot[s.calls[c].i], StateAt(s.files, s.snapshot[s.calls[c].i].path))
    ensures var pc := s.calls[c];
            var f := s.snapshot[pc.i];
            var now := StateAt(s.files, f.path);
            StateAt(Next(s, ApplyOne(c, wreck)).files, f.path) != now
            <==> pc.raced && Decide(f, pc.seen) in {Write, Remove} && wreck != Some(now)
  {
    RunInv(s0, steps, s);
  }

  lemma AfterOneMore(s0: Sys, steps: seq<Step>, s: Sys, step: Step)
    requires Run(s0, steps, s) && Enabled(s, step)
    ensures Run(s0, steps + [step], Next(s, step))
  {
    assert (steps + [step])[..|steps|] == steps;
  }

  /**
    Such a run exists for every captured edit with an index baseline: the file is reset to the
    baseline, the guard reads it, a hook writes new content, and the guard replaces that with the
    captured content and clears the artifact. The hook's content is gone.
   */
  lemma HookWriteIsLost(s0: Sys, f: GuardedFile, content: Content) returns (s: Sys, steps: seq<Step>)
    requires Init(s0) && s0.snapshot == [f] && !f.deleted && f.baseline.Some?
    requires f.baseline != Some(f.content) && content != f.content && f.baseline != Some(content)
    ensures Run(s0, steps, s) && HookWrite(f.path, File(content, 0, true)) in steps &&
              NewContent(f, File(content, 0, true))
    ensures StateAt(s.files, f.path) == File(f.content, 0, true) && s.finalized && !s.artifact
  {
    s, steps := OpenWindow(s0, f);
    s, steps := Extend(s0, steps, s, HookWrite(f.path, File(content, 0, true)));
    hide Decide, Perform;
    s, steps := LoseContent(s0, f, s, steps);
  }

  /** The guard has read the baseline at its only path and is about to act on it. */
  predicate AtWindow(s: Sys, f: GuardedFile) {
    && s.snapshot == [f] && s.lock == Some(0) && 0 in s.calls && !s.finalized
    && s.calls[0].Applying? && s.calls[0].i == 0 && s.calls[0].clean && MatchesBaseline(f, s.calls[0].seen)
  }

  lemma OpenWindow(s0: Sys, f: GuardedFile) returns (s: Sys, steps: seq<Step>)
    requires Init(s0) && s0.snapshot == [f] && f.baseline.Some?
    ensures Run(s0, steps, s) && AtWindow(s, f)
  {
    s, steps := s0, [];
    s, steps := Extend(s0, steps, s, HookWrite(f.path, File(f.baseline.value, 0, true)));
    s, steps := Extend(s0, steps, s, Close(0));
    s, steps := Extend(s0, steps, s, Acquire(0));
    s, steps := Extend(s0, steps, s, ReadOne(0));
  }

  lemma LoseContent(s0: Sys, f: GuardedFile, s: Sys, steps: seq<Step>) returns (t: Sys, more: seq<Step>)
    requires Run(s0, steps, s) && AtWindow(s, f) && !f.deleted && f.baseline != Some(f.content)
    requires StateAt(s.files, f.path).File? && StateAt(s.files, f.path).mode == 0 && StateAt(s.files, f.path).readable
    ensures Run(s0, more, t) && steps <= more
    ensures StateAt(t.files, f.path) == File(f.content, 0, true) && t.finalized && !t.artifact
  {
    t, more := Extend(s0, steps, s, ApplyOne(0, None));
    t, more := Extend(s0, more, t, Finish(0, false));
  }

  lemma Extend(s0: Sys, steps: seq<Step>, s: Sys, step: Step) returns (next: Sys, more: seq<Step>)
    requires Run(s0, steps, s) && Enabled(s, step)
    ensures Run(s0, more, next) && next == Next(s, step) && more == steps + [step]
  {
    AfterOneMore(s0, steps, s, step);
    next, more := Next(s, step), steps + [step];
  }

  /**
    When a restore finishes, the artifact goes exactly if every captured path was settled and the file
    could be removed: a conflict or a failed write keeps it.
   */
  lemma ArtifactClearedExactly(s0: Sys, steps: seq<Step>, s: Sys, c: Call, removalFails: bool)
    requires Init(s0) && Run(s0, steps, s) && Enabled(s, Finish(c, removalFails))
    ensures var t := Next(s, Finish(c, removalFails));
            && t.finalized && (forall f <- s.snapshot :: f.path in t.verdicts)
            && (!t.artifact <==> !removalFails && forall f <- s.snapshot :: Settled(t.verdicts[f.path]))
  {
    RunInv(s0, steps, s);
    forall f <- s.snapshot ensures f.path in s.verdicts {
      var j :| 0 <= j < |s.snapshot| && s.snapshot[j] == f;
    }
  }

  /** Once a restore has finalized, every later call returns without changing anything. */
  lemma FinalizedIsInert(s0: Sys, steps: seq<Step>, s: Sys, step: Step)
    requires Init(s0) && Run(s0, steps, s) && s.finalized && Enabled(s, step) && !step.HookWrite?
    ensures var t := Next(s, step);
            t.files == s.files && t.artifact == s.artifact && t.finalized && t.doneCloses == s.doneCloses
  {
    RunInv(s0, steps, s);
  }

  // ---- undisturbed writes -----------------------------------------------------------------------

  /** No write of the guard fails, and no hook puts a directory anywhere. */
  predicate Calm(step: Step) {
    match step
    case ApplyOne(_, wreck) => wreck.None?
    case HookWrite(_, st) => !st.Directory?
    case _ => true
  }

  ghost predicate NoDirectories(files: Files) {
    forall p <- files :: !files[p].Directory?
  }

  /** The verdict describes the state: a conflict is new content, anything else the captured state. */
  predicate AsJudged(f: GuardedFile, s: FileState, v: Verdict) {
    if v == Conflict then NewContent(f, s) else HoldsCaptured(f, s)
  }

  /** The paths treated so far hold the captured state or new content, unless a hook wrote them since. */
  ghost predicate CalmInv(s: Sys) {
    && NoDirectories(s.files)
    && (forall f <- s.snapshot :: f.path in s.verdicts ==>
          f.path in s.dirtied || AsJudged(f, StateAt(s.files, f.path), s.verdicts[f.path]))
    && (forall f <- s.snapshot :: f.path in s.verdicts ==> s.verdicts[f.path] != Failed)
  }

  lemma CalmApply(s: Sys, c: Call)
    requires Inv(s) && CalmInv(s) && Enabled(s, ApplyOne(c, None))
    ensures CalmInv(Next(s, ApplyOne(c, None)))
  {
    var Applying(i, clean, seen, raced) := s.calls[c];
    var f := s.snapshot[i];
    var now := StateAt(s.files, f.path);
    var (next, v) := Perform(f, Decide(f, seen), now, None);
    var t := Next(s, ApplyOne(c, None));
    assert !now.Directory?;
    FailedExactly(f, seen, now, None);
    assert !next.Directory?;
    if !raced {
      VerdictExactly(f, seen, None);
      SettledHoldsCaptured(f, seen, None);
    }
    assert raced ==> f.path in s.dirtied;
    assert !raced ==> AsJudged(f, next, v);
    hide Perform, Decide, HoldsCaptured, NewContent, Wiped, AsJudged;
    forall g <- s.snapshot | g.path == f.path ensures g == f {
      var j :| 0 <= j < |s.snapshot| && s.snapshot[j] == g;
    }
    assert forall g <- s.snapshot :: g.path != f.path ==> StateAt(t.files, g.path) == StateAt(s.files, g.path);
  }

  lemma CalmStep(s: Sys, step: Step)
    requires Inv(s) && CalmInv(s) && Enabled(s, step) && Calm(step)
    ensures CalmInv(Next(s, step))
  {
    hide Perform, Decide, HoldsCaptured, NewContent, AsJudged;
    match step
    case ApplyOne(c, wreck) => CalmApply(s, c);
    case HookWrite(p, st) =>
    case ReadOne(c) =>
    case Close(c) =>
    case SignalPeek(c) =>
    case Acquire(c) =>
    case Finish(c, removalFails) =>
  }

  lemma {:induction false} CalmRun(s0: Sys, steps: seq<Step>, s: Sys)
    requires Init(s0) && NoDirectories(s0.files) && Run(s0, steps, s) && forall step <- steps :: Calm(step)
    ensures CalmInv(s)
  {
    if steps != [] {
      var front, last := steps[..|steps| - 1], steps[|steps| - 1];
      var t := After(s0, front).value;
      CalmRun(s0, front, t);
      RunInv(s0, front, t);
      CalmStep(t, last);
    }
  }

  /**
    Where no write fails and no directory is in the way, restoring succeeds: once a restore has
    finalized, every captured path that no hook wrote after it was read holds the operator's state, or
    new content that was there when it was read.
   */
  lemma CalmRunRestores(s0: Sys, steps: seq<Step>, s: Sys, f: GuardedFile)
    requires Init(s0) && NoDirectories(s0.files) && Run(s0, steps, s) && forall step <- steps :: Calm(step)
    requires s.finalized && f in s.snapshot && f.path !in s.dirtied
    ensures f.path in s.verdicts && s.verdicts[f.path] in {Kept, Restored, Conflict}
    ensures if s.verdicts[f.path] == Conflict then NewContent(f, StateAt(s.files, f.path))
            else HoldsCaptured(f, StateAt(s.files, f.path))
  {
    CalmRun(s0, steps, s);
    RunInv(s0, steps, s);
    var j :| 0 <= j < |s.snapshot| && s.snapshot[j] == f;
  }
}
