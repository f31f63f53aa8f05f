/**
  The guard that preserves the operator's unstaged worktree state across commit hooks: capture,
  conflict-classified restore and the on-disk recovery artifact (worktree_guard.go).

  A blob hash is identified with its content. A failed write may leave any state behind.
 */
module WorktreeGuard {
  import opened Wrappers

  type Path = string
  type Content = string

  /** What lies at a path; an unreadable file fails every read but can still be written. */
  datatype FileState =
    | Absent
    | Directory(empty: bool)
    | File(content: Content, mode: nat, readable: bool)

  type Files = map<Path, FileState>

  datatype GuardedFile = GuardedFile(path: Path, content: Content, mode: nat, deleted: bool, baseline: Option<Content>)

  datatype Verdict = Kept | Restored | Conflict | Failed

  const DEFAULT_MODE := 0x1A4 // 0o644

  function StateAt(files: Files, p: Path): FileState {
    if p in files then files[p] else Absent
  }

  /** os.ReadFile succeeds. */
  predicate Readable(s: FileState) {
    s.File? && s.readable
  }

  predicate MatchesBaseline(f: GuardedFile, s: FileState) {
    Readable(s) && f.baseline == Some(s.content)
  }

  /** os.WriteFile: creates with the captured mode, but keeps the mode of a file already there. */
  function Written(f: GuardedFile, cur: FileState): FileState {
    var mode := if cur.File? then cur.mode else if f.mode == 0 then DEFAULT_MODE else f.mode;
    File(f.content, mode, cur.File? ==> cur.readable)
  }

  /** What restore decides to do with a path. */
  datatype Action = Leave | Refuse | Write | Remove

  /** restore's classification of what it read at one snapshotted path. */
  function Decide(f: GuardedFile, seen: FileState): Action {
    if f.deleted then
      if !Readable(seen) then Leave else if MatchesBaseline(f, seen) then Remove else Refuse
    else if Readable(seen) && seen.content == f.content then Leave
    else if !Readable(seen) || MatchesBaseline(f, seen) then Write
    else Refuse
  }

  /** The decision carried out on what is there by then; wreck is what a failure leaves behind. */
  function Perform(f: GuardedFile, action: Action, now: FileState, wreck: Option<FileState>): (FileState, Verdict) {
    match action
    case Leave => (now, Kept)
    case Refuse => (now, Conflict)
    case Write =>
      if wreck.Some? then (wreck.value, Failed)
      else if now.Directory? then (now, Failed)
      else (Written(f, now), Restored)
    case Remove =>
      if wreck.Some? then (wreck.value, Failed)
      else if now.Directory? && !now.empty then (now, Failed)
      else (Absent, Restored)
  }

  /** restore's treatment of one path that nobody else touches meanwhile. */
  function RestorePath(f: GuardedFile, cur: FileState, wreck: Option<FileState>): (FileState, Verdict) {
    Perform(f, Decide(f, cur), cur, wreck)
  }

  /** Readable content that is neither the captured one nor the index baseline. */
  predicate NewContent(f: GuardedFile, s: FileState) {
    Readable(s) && !MatchesBaseline(f, s) && (f.deleted || s.content != f.content)
  }

  /** The path again holds what the operator had, as far as a read can tell. */
  predicate HoldsCaptured(f: GuardedFile, s: FileState) {
    if f.deleted then !Readable(s) else s.File? && s.content == f.content
  }

  predicate Settled(v: Verdict) {
    v.Kept? || v.Restored?
  }

  // ---- one path, undisturbed: the cases the protocol's results rest on --------------------------

  lemma SettledHoldsCaptured(f: GuardedFile, cur: FileState, wreck: Option<FileState>)
    ensures var (s, v) := RestorePath(f, cur, wreck); Settled(v) ==> HoldsCaptured(f, s)
  {
  }

  /**
    New content is never overwritten: a path changes only if it was empty, wiped to the index
    baseline or unreadable, and a conflict leaves it exactly as found.
   */
  lemma NewContentSurvives(f: GuardedFile, cur: FileState, wreck: Option<FileState>)
    ensures var (s, v) := RestorePath(f, cur, wreck);
            && (s != cur ==> !Readable(cur) || (MatchesBaseline(f, cur) && (f.deleted || cur.content != f.content)))
            && (v.Conflict? <==> Readable(cur) && !MatchesBaseline(f, cur) && (f.deleted || cur.content != f.content))
            && (v.Conflict? ==> s == cur)
  {
  }

  /**
    Without write failures, readable content that is neither captured nor baseline survives; content
    that cannot be read is taken for a wiped file and replaced. Exactly the readable content is safe.
   */
  lemma OverwritesExactly(f: GuardedFile, cur: FileState)
    requires !f.deleted && cur.File? && cur.content != f.content && f.baseline != Some(cur.content)
    ensures RestorePath(f, cur, None).0 == cur <==> cur.readable
  {
  }

  /** A deletion the operator made is honoured unless new content, or something unreadable, took the path. */
  lemma DeletionHonouredExactly(f: GuardedFile, cur: FileState)
    requires f.deleted
    ensures RestorePath(f, cur, None).0 == Absent <==> cur == Absent || MatchesBaseline(f, cur)
  {
  }

  /**
    File modes are only restored when the file is recreated. A hook that resets the mode of a file
    leaves it reset, and the verdict still counts as settled.
   */
  lemma ModeRestoredExactly(f: GuardedFile, cur: FileState)
    requires !f.deleted && f.mode != 0 && Settled(RestorePath(f, cur, None).1)
    ensures RestorePath(f, cur, None).0.File?
    ensures RestorePath(f, cur, None).0.mode == f.mode <==> cur.File? ==> cur.mode == f.mode
  {
  }

  // ---- the guard --------------------------------------------------------------------------------

  // ---- one path, every outcome ------------------------------------------------------------------

  /** What a hook left at a path was a wipe: nothing, nothing readable, or the index baseline again. */
  predicate Wiped(f: GuardedFile, cur: FileState) {
    if f.deleted then Readable(cur) && f.baseline == Some(cur.content)
    else cur.Absent? || cur.Directory? || !cur.readable || (f.baseline == Some(cur.content) && cur.content != f.content)
  }

  /**
    A wiped edit comes back whenever nothing fails and no directory is in the way: the file holds the
    captured content, with the captured mode if it had to be created, and counts as restored.
   */
  lemma WipedEditComesBack(f: GuardedFile, cur: FileState)
    requires !f.deleted && Wiped(f, cur) && !cur.Directory?
    ensures var (s, v) := RestorePath(f, cur, None);
            && v == Restored && s.File? && s.content == f.content
            && s.mode == (if cur.File? then cur.mode else if f.mode == 0 then 420 else f.mode)
  {
  }

  /** A deletion that was wiped, the file being back at its baseline, is carried out again. */
  lemma WipedDeletionComesBack(f: GuardedFile, cur: FileState)
    requires f.deleted && Wiped(f, cur)
    ensures RestorePath(f, cur, None) == (Absent, Restored)
  {
  }

  /** Which verdict a path gets, on everything it may hold and with or without a failing write. */
  lemma VerdictExactly(f: GuardedFile, cur: FileState, wreck: Option<FileState>)
    ensures var (s, v) := RestorePath(f, cur, wreck);
            && (v == Conflict <==> NewContent(f, cur))
            && (v == Kept <==> !Wiped(f, cur) && !NewContent(f, cur))
            && (v == Failed <==> Wiped(f, cur) && (wreck.Some? || cur.Directory?))
            && (v == Restored <==> Wiped(f, cur) && wreck.None? && !cur.Directory?)
            && (v in {Kept, Conflict} ==> s == cur)
            && (v == Failed ==> s == if wreck.Some? then wreck.value else cur)
  {
  }

  /** The verdict Failed comes from a failing change, or from a directory where the file should go or went. */
  lemma FailedExactly(f: GuardedFile, seen: FileState, now: FileState, wreck: Option<FileState>)
    ensures Perform(f, Decide(f, seen), now, wreck).1 == Failed <==>
            Wiped(f, seen) && (wreck.Some? || (now.Directory? && (f.deleted ==> !now.empty)))
  {
  }

  ghost predicate DistinctPaths(snapshot: seq<GuardedFile>) {
    forall i, j :: 0 <= i < j < |snapshot| ==> snapshot[i].path != snapshot[j].path
  }

  ghost function Guarded(snapshot: seq<GuardedFile>): set<Path> {
    set f | f in snapshot :: f.path
  }

  /** f is the capture of one at-risk path. */
  predicate Captures(f: GuardedFile, files: Files, index: map<Path, Content>) {
    && f.baseline == (if f.path in index then Some(index[f.path]) else None)
    && (if f.deleted then StateAt(files, f.path).Absent?
        else
          var s := StateAt(files, f.path);
          Readable(s) && s.content == f.content && s.mode == f.mode)
  }

  /** Capture and restore are inverse: a file a hook deletes comes back as it was, content and mode. */
  lemma CapturedComesBack(f: GuardedFile, files: Files, index: map<Path, Content>)
    requires Captures(f, files, index) && StateAt(files, f.path).File? && StateAt(files, f.path).mode != 0
    ensures RestorePath(f, Absent, None) == (StateAt(files, f.path), Restored)
  {
  }

  /** A deletion of a tracked file that a hook undoes from the index is carried out again. */
  lemma CapturedDeletionComesBack(f: GuardedFile, files: Files, index: map<Path, Content>, mode: nat)
    requires Captures(f, files, index) && StateAt(files, f.path).Absent? && f.path in index
    ensures RestorePath(f, File(index[f.path], mode, true), None) == (Absent, Restored)
  {
  }

  lemma OneMoreGuarded(snapshot: seq<GuardedFile>, f: GuardedFile)
    ensures Guarded(snapshot + [f]) == Guarded(snapshot) + {f.path}
    ensures DistinctPaths(snapshot) && f.path !in Guarded(snapshot) ==> DistinctPaths(snapshot + [f])
  {
    assert forall g :: g in snapshot ==> g.path in Guarded(snapshot);
    assert forall g :: g in snapshot + [f] <==> g in snapshot || g == f;
  }

  class Disk {
    var files: Files
    var artifact: Option<seq<GuardedFile>>

    constructor (files: Files)
      ensures this.files == files && artifact == None
    {
      this.files := files;
      artifact := None;
    }
  }

  class Guard {
    const disk: Disk
    var snapshot: seq<GuardedFile>
    var finalized: bool
    var watchStopped: bool
    /** How often the done channel was closed; a second close would panic. */
    var doneCloses: nat

    ghost predicate Valid()
      reads this, disk
    {
      && DistinctPaths(snapshot)
      && doneCloses == (if watchStopped then 1 else 0)
      && (watchStopped ==> finalized)
      && (!finalized ==> snapshot != [] && disk.artifact == Some(snapshot))
    }

    /** An inert guard: nothing captured, nothing to restore. */
    constructor (disk: Disk)
      ensures this.disk == disk && snapshot == [] && finalized && !watchStopped && doneCloses == 0
    {
      this.disk := disk;
      snapshot := [];
      finalized := true;
      watchStopped := false;
      doneCloses := 0;
    }

    /**
      captureWorktreeGuard over the paths whose worktree state diverges from the index. When it
      succeeds with anything at risk, the artifact is on disk before any hook runs.
     */
    method Capture(index: map<Path, Content>, atRisk: set<Path>, persistFails: bool) returns (ok: bool)
      requires snapshot == [] && finalized && !watchStopped && doneCloses == 0
      modifies this, disk
      ensures disk.files == old(disk.files)
      ensures ok ==> Valid() && (finalized <==> atRisk == {})
      ensures ok ==> Guarded(snapshot) == atRisk
      ensures ok ==> forall f :: f in snapshot ==> Captures(f, disk.files, index)
      ensures ok && atRisk == {} ==> disk.artifact == old(disk.artifact)
      ensures ok <==> (forall p :: p in atRisk ==>
                StateAt(disk.files, p).Absent? || Readable(StateAt(disk.files, p))) && (atRisk == {} || !persistFails)
    {
      var rest := atRisk;
      while rest != {}
        invariant rest <= atRisk
        invariant finalized && !watchStopped && doneCloses == 0
        invariant disk.files == old(disk.files) && disk.artifact == old(disk.artifact)
        invariant DistinctPaths(snapshot)
        invariant Guarded(snapshot) == atRisk - rest
        invariant forall f :: f in snapshot ==> Captures(f, disk.files, index)
        invariant forall p :: p in atRisk - rest ==> StateAt(disk.files, p).Absent? || Readable(StateAt(disk.files, p))
        decreases rest
      {
        hide Captures, Readable, DistinctPaths, Guarded;
        var p :| p in rest;
        var f := CaptureOne(p, index);
        if f == None {
          return false;
        }
        OneMoreGuarded(snapshot, f.value);
        snapshot := snapshot + [f.value];
        rest := rest - {p};
      }
      if snapshot == [] {
        return true;
      }
      assert snapshot[0].path in Guarded(snapshot);
      if persistFails {
        return false;
      }
      disk.artifact := Some(snapshot);
      finalized := false;
      return true;
    }

    /** One path at risk: a deletion, or the content and mode found; None if it can not be read. */
    method CaptureOne(p: Path, index: map<Path, Content>) returns (f: Option<GuardedFile>)
      ensures f.Some? <==> StateAt(disk.files, p).Absent? || Readable(StateAt(disk.files, p))
      ensures f.Some? ==> f.value.path == p && Captures(f.value, disk.files, index)
    {
      var baseline := if p in index then Some(index[p]) else None;
      var cur := StateAt(disk.files, p);
      if cur.Absent? {
        return Some(GuardedFile(p, "", 0, true, baseline));
      }
      if !Readable(cur) {
        return None;
      }
      return Some(GuardedFile(p, cur.content, cur.mode, false, baseline));
    }

    /**
      restore: every path once, then finalize, stop the signal watch exactly once, and clear the
      artifact only if every path settled. Later calls do nothing.
     */
    method Restore(wrecks: seq<Option<FileState>>, removalFails: bool)
        returns (failures: set<Path>, conflicts: set<Path>)
      requires Valid() && |wrecks| == |snapshot|
      modifies this, disk
      ensures Valid() && finalized && snapshot == old(snapshot)
      ensures old(finalized) ==>
                disk.files == old(disk.files) && disk.artifact == old(disk.artifact) &&
                doneCloses == old(doneCloses) && failures == conflicts == {}
      ensures !old(finalized) ==> watchStopped && doneCloses == 1
      ensures !old(finalized) ==>
                forall i :: 0 <= i < |snapshot| ==>
                  var (s, v) := RestorePath(snapshot[i], StateAt(old(disk.files), snapshot[i].path), wrecks[i]);
                  && StateAt(disk.files, snapshot[i].path) == s
                  && (v.Failed? <==> snapshot[i].path in failures)
                  && (v.Conflict? <==> snapshot[i].path in conflicts)
      ensures forall p :: (forall i :: 0 <= i < |snapshot| ==> snapshot[i].path != p) ==>
                StateAt(disk.files, p) == StateAt(old(disk.files), p)
      ensures !old(finalized) ==> disk.artifact == if failures == {} && conflicts == {} && !removalFails then None
                else Some(snapshot)
    {
      failures, conflicts := {}, {};
      if finalized {
        return;
      }
      ghost var files0 := disk.files;
      for i := 0 to |snapshot|
        invariant snapshot == old(snapshot) && !finalized && Valid()
        invariant doneCloses == old(doneCloses) && disk.artifact == old(disk.artifact)
        invariant forall j :: 0 <= j < i ==>
                    var (s, v) := RestorePath(snapshot[j], StateAt(files0, snapshot[j].path), wrecks[j]);
                    && StateAt(disk.files, snapshot[j].path) == s
                    && (v.Failed? <==> snapshot[j].path in failures)
                    && (v.Conflict? <==> snapshot[j].path in conflicts)
        invariant forall p :: (forall j :: 0 <= j < i ==> snapshot[j].path != p) ==>
                    StateAt(disk.files, p) == StateAt(files0, p) && p !in failures && p !in conflicts
      {
        hide RestorePath;
        var f := snapshot[i];
        var (s, v) := RestorePath(f, StateAt(disk.files, f.path), wrecks[i]);
        disk.files := disk.files[f.path := s];
        if v.Failed? {
          failures := failures + {f.path};
        } else if v.Conflict? {
          conflicts := conflicts + {f.path};
        }
      }
      finalized := true;
      if !watchStopped {
        doneCloses := doneCloses + 1;
        watchStopped := true;
      }
      if failures != {} || conflicts != {} {
        return;
      }
      if !removalFails {
        disk.artifact := None;
      }
    }
  }
}
