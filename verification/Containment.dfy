/**
  Rebuilding one machine-generated commit onto a moved tip, gated by path-scoped containment
  (replay_onto.go).
 */
module Containment {
  import opened Wrappers
  import opened Trees
  import opened ChangeSets
  import opened FlatTrees
  import opened Commits

  // ---- the gate ---------------------------------------------------------------------------------

  /** The end state the source lands at a path: its last change that writes there. */
  function AuthorizedTo(source: seq<Change>): map<Path, Entry> {
    if source == [] then map[] else
      var rest, ch := AuthorizedTo(source[..|source| - 1]), source[|source| - 1];
      if ch.to.name != "" then rest[ch.to.name := ch.to.entry] else rest
  }

  /** The paths the source removes content from. */
  function Departed(source: seq<Change>): set<Path> {
    if source == [] then {} else
      var rest, ch := Departed(source[..|source| - 1]), source[|source| - 1];
      if ch.from.name != "" && ch.from.name != ch.to.name then rest + {ch.from.name} else rest
  }

  /** One replayed change is covered by the source. */
  predicate Authorized(to: map<Path, Entry>, departed: set<Path>, ch: Change) {
    if ch.to.name != "" then
      && ch.to.name in to && to[ch.to.name] == ch.to.entry
      && (ch.from.name != "" && ch.from.name != ch.to.name ==> ch.from.name in departed)
    else
      ch.from.name != "" ==> ch.from.name in departed
  }

  ghost predicate Contained(source: seq<Change>, replayed: seq<Change>) {
    forall ch :: ch in replayed ==> Authorized(AuthorizedTo(source), Departed(source), ch)
  }

  method VerifyContainment(source: seq<Change>, replayed: seq<Change>) returns (violations: seq<Change>)
    ensures violations == [] <==> Contained(source, replayed)
  {
    var authorizedTo: map<Path, Entry> := map[];
    var departed: set<Path> := {};
    for i := 0 to |source|
      invariant authorizedTo == AuthorizedTo(source[..i]) && departed == Departed(source[..i])
    {
      var ch := source[i];
      assert source[..i + 1][..i] == source[..i];
      if ch.to.name != "" {
        authorizedTo := authorizedTo[ch.to.name := ch.to.entry];
      }
      if ch.from.name != "" && ch.from.name != ch.to.name {
        departed := departed + {ch.from.name};
      }
    }
    assert source[..|source|] == source;
    violations := [];
    for i := 0 to |replayed|
      invariant violations == [] <==> forall j :: 0 <= j < i ==> Authorized(authorizedTo, departed, replayed[j])
    {
      var ch := replayed[i];
      if ch.to.name != "" {
        if ch.to.name !in authorizedTo || authorizedTo[ch.to.name] != ch.to.entry {
          violations := violations + [ch];
        }
        if ch.from.name != "" && ch.from.name != ch.to.name && ch.from.name !in departed {
          violations := violations + [ch];
        }
      } else if ch.from.name != "" {
        if ch.from.name !in departed {
          violations := violations + [ch];
        }
      }
    }
  }

  // ---- what it decides --------------------------------------------------------------------------

  /**
    Wherever applying a change-set moves a tree, the move is authorized by that change-set. No
    path-uniqueness is needed: the last change at a path decides both sides.
   */
  lemma {:induction false} ApplyIsAuthorized(t: Tree, source: seq<Change>, p: Path)
    ensures var n := ApplyChanges(t, source);
            || At(n, p) == At(t, p)
            || (p !in n && p in Departed(source))
            || (p in n && p in AuthorizedTo(source) && AuthorizedTo(source)[p] == n[p])
  {
    if source != [] {
      ApplyIsAuthorized(t, source[..|source| - 1], p);
    }
  }

  /** Completeness: applying any source change-set to any tip passes the gate. */
  lemma AppliedIsContained(tip: Tree, source: seq<Change>, replayed: seq<Change>)
    requires IsDiff(replayed, tip, ApplyChanges(tip, source))
    ensures Contained(source, replayed)
  {
    var n := ApplyChanges(tip, source);
    DiffMembers(replayed, tip, n);
    forall ch | ch in replayed ensures Authorized(AuthorizedTo(source), Departed(source), ch) {
      assert ch == ChangeAt(tip, n, PathOf(ch));
      ApplyIsAuthorized(tip, source, PathOf(ch));
    }
  }

  /** For a diff of a and b: a path is authorized or departed exactly as b's state there says. */
  lemma {:induction false} DiffAuthorizes(source: seq<Change>, a: Tree, b: Tree, p: Path)
    requires forall c | c in source :: PathOf(c) in Differs(a, b) && c == ChangeAt(a, b, PathOf(c))
    ensures p in AuthorizedTo(source) <==> p in b && p in set c | c in source :: PathOf(c)
    ensures p in AuthorizedTo(source) ==> AuthorizedTo(source)[p] == b[p]
    ensures p in Departed(source) <==> p !in b && p in set c | c in source :: PathOf(c)
  {
    if source != [] {
      var front, last := source[..|source| - 1], source[|source| - 1];
      assert source == front + [last];
      DiffAuthorizes(front, a, b, p);
      assert last == ChangeAt(a, b, PathOf(last));
    }
  }

  lemma AuthorizedMeansSource(a: Tree, b: Tree, source: seq<Change>, tip: Tree, n: Tree, p: Path)
    requires IsDiff(source, a, b) && p in Differs(tip, n)
    ensures Authorized(AuthorizedTo(source), Departed(source), ChangeAt(tip, n, p)) <==>
              p in Differs(a, b) && At(n, p) == At(b, p)
  {
    DiffMembers(source, a, b);
    DiffCovers(source, a, b);
    DiffAuthorizes(source, a, b, p);
  }

  /**
    Soundness and completeness in one: a tree passes exactly when every path holds either the tip's
    state or, where the source commit changed it, the source's end state.
   */
  lemma GateMeansTipOrSource(a: Tree, b: Tree, source: seq<Change>, tip: Tree, n: Tree, replayed: seq<Change>)
    requires IsDiff(source, a, b) && IsDiff(replayed, tip, n)
    ensures Contained(source, replayed) <==>
            forall p :: At(n, p) == At(tip, p) || (p in Differs(a, b) && At(n, p) == At(b, p))
  {
    hide Authorized, AuthorizedTo, Departed;
    DiffMembers(replayed, tip, n);
    forall p | p in Differs(tip, n)
      ensures Authorized(AuthorizedTo(source), Departed(source), ChangeAt(tip, n, p)) <==>
                p in Differs(a, b) && At(n, p) == At(b, p)
      ensures ChangeAt(tip, n, p) in replayed
    {
      AuthorizedMeansSource(a, b, source, tip, n, p);
    }
    if forall p :: At(n, p) == At(tip, p) || (p in Differs(a, b) && At(n, p) == At(b, p)) {
      forall ch | ch in replayed ensures Authorized(AuthorizedTo(source), Departed(source), ch) {
        assert ch == ChangeAt(tip, n, PathOf(ch));
      }
    }
  }

  /** The gate alone does not require the change to land: the unchanged tip passes it too. */
  lemma TipAlonePasses(tip: Tree, source: seq<Change>, replayed: seq<Change>)
    requires IsDiff(replayed, tip, tip)
    ensures Contained(source, replayed)
  {
    EmptyDiff(replayed, tip, tip);
  }

  /** A replayed rename is authorized only if the source also takes content away where it comes from. */
  lemma RenameNeedsDeparture(source: seq<Change>, ch: Change)
    requires ch.from.name != "" && ch.to.name != "" && ch.from.name != ch.to.name
    ensures Authorized(AuthorizedTo(source), Departed(source), ch) <==>
            && ch.to.name in AuthorizedTo(source) && AuthorizedTo(source)[ch.to.name] == ch.to.entry
            && exists c <- source :: c.from.name == ch.from.name != c.to.name
  {
    DepartedExactly(source, ch.from.name);
  }

  lemma {:induction false} DepartedExactly(source: seq<Change>, p: Path)
    ensures p in Departed(source) <==> p != "" && exists c <- source :: c.from.name == p != c.to.name
  {
    if source != [] {
      DepartedExactly(source[..|source| - 1], p);
      assert source == source[..|source| - 1] + [source[|source| - 1]];
    }
  }

  // ---- the rebuild ------------------------------------------------------------------------------

  datatype ReplayError = NotSingleParent(count: nat) | EmptyChangeSet | Corruption

  /**
    replayCommitOntoTip: the commit itself when its parent already is the tip, otherwise the same
    commit rebuilt with its end state laid over the tip's tree. The gate never refuses it.
   */
  method ReplayCommitOntoTip(local: Commit, tip: Commit) returns (r: Result<Commit, ReplayError>)
    ensures r.Err? <==> |local.parents| != 1 || (local.parents[0] != tip && Touches(local) == {})
    ensures r.Err? ==> r.error == if |local.parents| != 1 then NotSingleParent(|local.parents|) else EmptyChangeSet
    ensures r.Ok? ==> |local.parents| == 1 && r.value == Onto(local, tip)
    ensures r.Ok? && ClashFree(local.tree) && ClashFree(tip.tree) ==>
              (ClashFree(r.value.tree) <==> Fits(local, tip.tree))
  {
    hide ClashFree, Fits;
    OntoIsClashFreeExactly(local, tip);
    if |local.parents| != 1 {
      return Err(NotSingleParent(|local.parents|));
    }
    if local.parents[0] == tip {
      return Ok(local);
    }
    var sourceDelta := TreeDiff(local.parents[0].tree, local.tree);
    EmptyDiff(sourceDelta, BaseTree(local), local.tree);
    if |sourceDelta| == 0 {
      return Err(EmptyChangeSet);
    }
    var flat := new FlatTree(tip.tree);
    flat.ApplyChangeSet(sourceDelta);
    ApplyDiff(tip.tree, sourceDelta, BaseTree(local), local.tree);
    var next := Rebuilt(local, flat.entries, tip, local.when);
    var replayed := TreeDiff(BaseTree(next), next.tree);
    AppliedIsContained(tip.tree, sourceDelta, replayed);
    var violations := VerifyContainment(sourceDelta, replayed);
    if violations != [] {
      return Err(Corruption);
    }
    return Ok(next);
  }

  /** local replayed onto tip. */
  function Onto(local: Commit, tip: Commit): Commit {
    if local.parents == [tip] then local
    else Rebuilt(local, Overlay(tip.tree, local.tree, Touches(local)), tip, local.when)
  }

  /**
    The replayed commit is one child of the tip, keeps every tip path the source does not touch, and
    lands the source's end state at every path it does: last writer wins on overlap.
   */
  lemma OntoLandsSource(local: Commit, tip: Commit, p: Path)
    requires |local.parents| == 1
    ensures var n := Onto(local, tip);
            && n.parents == [tip] && n.message == local.message
            && n.author == local.author && n.committer == local.committer && n.when == local.when
    ensures At(Onto(local, tip).tree, p) == if p in Touches(local) then At(local.tree, p) else At(tip.tree, p)
  {
  }

  /** No file local writes lies above or below a file of the tip that local leaves alone. */
  ghost predicate Fits(local: Commit, tip: Tree) {
    forall w, t :: w in Touches(local) && w in local.tree && t in tip && t !in Touches(local) ==>
      !IsAncestor(w, t) && !IsAncestor(t, w)
  }

  /**
    The rebuild, unlike the rebase, does not look for clashes: its tree is one that git and a disk can
    hold exactly if local fits the tip.
   */
  lemma OntoIsClashFreeExactly(local: Commit, tip: Commit)
    ensures |local.parents| == 1 && ClashFree(local.tree) && ClashFree(tip.tree) ==>
              (ClashFree(Onto(local, tip).tree) <==> Fits(local, tip.tree))
  {
    if |local.parents| == 1 && ClashFree(local.tree) && ClashFree(tip.tree) {
      var n := Onto(local, tip).tree;
      forall p ensures At(n, p) == if p in Touches(local) then At(local.tree, p) else At(tip.tree, p) {
        OntoLandsSource(local, tip, p);
      }
      if ClashFree(n) {
        forall w, t | w in Touches(local) && w in local.tree && t in tip.tree && t !in Touches(local)
          ensures !IsAncestor(w, t) && !IsAncestor(t, w)
        {
          assert At(n, w).Some? && At(n, t).Some?;
        }
      }
      if Fits(local, tip.tree) {
        forall d, p | d in n && IsAncestor(d, p) ensures p !in n {
          assert At(n, d) == if d in Touches(local) then At(local.tree, d) else At(tip.tree, d);
          assert At(n, p) == if p in Touches(local) then At(local.tree, p) else At(tip.tree, p);
        }
      }
    }
  }

  /** Adding "a/b" onto a tip that holds the file "a": every tree is sound but the rebuilt one. */
  lemma FileAboveIsNotNoticed(e: Entry, root: Commit, tip: Commit, local: Commit)
    requires root.tree == EMPTY_TREE && tip.tree == map["a" := e] && local.tree == map["a/b" := e] &&
               local.parents == [root]
    ensures ClashFree(root.tree) && ClashFree(tip.tree) && ClashFree(local.tree)
    ensures !Fits(local, tip.tree) && !ClashFree(Onto(local, tip).tree)
  {
    assert At(local.tree, "a/b") != At(root.tree, "a/b") && At(local.tree, "a") == At(root.tree, "a");
    assert IsAncestor("a", "a/b");
    OntoIsClashFreeExactly(local, tip);
  }
}
