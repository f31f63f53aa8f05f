/**
  The local repository a replay moves: branch, index and worktree, the checks made right before the
  write, and go-git's scoped checkout (gogit_replay_checkout.go).

  The worktree maps each file to its content and mode; a directory exists where a file lies below it.
 */
module WorktreeState {
  import opened Wrappers
  import opened Trees
  import opened FlatTrees
  import opened Commits

  /** Where a checkout may fail: moving HEAD, writing the index, or after some worktree paths. */
  datatype Fault = NoFault | AtHead | AtIndex | AfterPaths(count: nat)

  /** The checkout of these paths stops there. */
  predicate Stops(fault: Fault, paths: set<Path>) {
    match fault
    case NoFault => false
    case AtHead => true
    case AtIndex => paths != {}
    case AfterPaths(n) => n < |paths|
  }

  predicate IsDirectory(worktree: Tree, d: Path) {
    exists q :: q in worktree && IsAncestor(d, q)
  }

  /** Paths holding work not committed: staged differently from head, or edited after staging. */
  function Uncommitted(index: Tree, worktree: Tree, head: Tree): (ps: set<Path>)
    ensures forall p :: p in ps <==> At(index, p) != At(head, p) || (p in index && At(worktree, p) != At(index, p))
  {
    set p | p in index.Keys + head.Keys && (At(index, p) != At(head, p) ||
      (p in index && At(worktree, p) != At(index, p)))
  }

  /** The untracked file, if any, sitting where a directory at dir or above is needed. */
  function Blocker(worktree: Tree, head: Tree, dir: Path): set<Path>
    decreases |dir|
  {
    if dir == "" then {}
    else if IsDirectory(worktree, dir) then {}
    else if dir in worktree then (if dir in head then {} else {dir})
    else Blocker(worktree, head, ParentPath(dir))
  }

  /** The operator's files that checking out p would overwrite, remove or run into. */
  function Collisions(worktree: Tree, head: Tree, ignored: Path -> bool, p: Path): set<Path> {
    if IsDirectory(worktree, p) then set q | q in worktree && IsAncestor(p, q) && q !in head
    else if p in worktree then (if p in head || ignored(p) then {} else {p})
    else Blocker(worktree, head, ParentPath(p))
  }

  class Checkout {
    var branch: Commit
    var index: Tree
    var worktree: Tree

    constructor (branch: Commit, index: Tree, worktree: Tree)
      ensures this.branch == branch && this.index == index && this.worktree == worktree
    {
      this.branch := branch;
      this.index := index;
      this.worktree := worktree;
    }

    method UncommittedPaths(head: Tree) returns (out: set<Path>)
      ensures out == Uncommitted(index, worktree, head)
    {
      out := {};
      var rest := index.Keys;
      while rest != {}
        invariant rest <= index.Keys
        invariant forall p :: p in out <==> p in index && p !in rest && At(head, p) != At(index, p)
        decreases rest
      {
        var p :| p in rest;
        if p !in head || head[p] != index[p] {
          out := out + {p};
        }
        rest := rest - {p};
      }
      rest := head.Keys;
      while rest != {}
        invariant rest <= head.Keys
        invariant forall p :: p in out <==>
                    (p in index && At(head, p) != At(index, p)) || (p in head && p !in rest && p !in index)
        decreases rest
      {
        var p :| p in rest;
        if p !in index {
          out := out + {p};
        }
        rest := rest - {p};
      }
      rest := index.Keys;
      while rest != {}
        invariant rest <= index.Keys
        invariant forall p :: p in out <==>
                    At(index, p) != At(head, p) || (p in index && p !in rest && At(worktree, p) != At(index, p))
        decreases rest
      {
        var p :| p in rest;
        if p !in worktree || worktree[p] != index[p] {
          out := out + {p};
        }
        rest := rest - {p};
      }
    }

    method OperatorCollisions(head: Tree, paths: set<Path>, ignored: Path -> bool) returns (found: set<Path>)
      ensures found == set p, q | p in paths && q in Collisions(worktree, head, ignored, p) :: q
    {
      found := {};
      var rest := paths;
      while rest != {}
        invariant rest <= paths
        invariant found == set p, q | p in paths - rest && q in Collisions(worktree, head, ignored, p) :: q
        decreases rest
      {
        var p :| p in rest;
        ghost var before := found;
        if IsDirectory(worktree, p) {
          found := found + set q | q in worktree && IsAncestor(p, q) && q !in head;
        } else if p in worktree {
          if p !in head && !ignored(p) {
            found := found + {p};
          }
        } else {
          var dir := ParentPath(p);
          while dir != ""
            invariant found == before
            invariant Blocker(worktree, head, ParentPath(p)) == Blocker(worktree, head, dir)
            decreases |dir|
          {
            if IsDirectory(worktree, dir) {
              break;
            }
            if dir in worktree {
              if dir !in head {
                found := found + {dir};
              }
              break;
            }
            dir := ParentPath(dir);
          }
        }
        assert found == before + Collisions(worktree, head, ignored, p);
        rest := rest - {p};
      }
    }

    /** checkoutPaths: HEAD, then the index at the paths, then their worktree files one by one. */
    method CheckoutPaths(to: Commit, paths: set<Path>, fault: Fault) returns (ok: bool)
      modifies this
      ensures ok <==> !Stops(fault, paths)
      ensures branch == if fault == AtHead then old(branch) else to
      ensures ok ==> index == Overlay(old(index), to.tree, paths) && worktree == Overlay(old(worktree), to.tree, paths)
      ensures forall p :: At(index, p) == At(old(index), p) || (p in paths && At(index, p) == At(to.tree, p))
      ensures forall p :: At(worktree, p) == At(old(worktree), p) || (p in paths && At(worktree, p) == At(to.tree, p))
    {
      if fault == AtHead {
        return false;
      }
      branch := to;
      if paths == {} {
        SameTree(index, Overlay(index, to.tree, paths));
        SameTree(worktree, Overlay(worktree, to.tree, paths));
        return true;
      }
      if fault == AtIndex {
        return false;
      }
      index := Overlay(index, to.tree, paths);
      var rest := paths;
      var written := 0;
      ghost var worktree0 := worktree;
      while rest != {}
        invariant rest <= paths && branch == to && index == Overlay(old(index), to.tree, paths)
        invariant written == |paths| - |rest| && (fault.AfterPaths? ==> written <= fault.count)
        invariant forall p :: At(worktree, p) == if p in paths - rest then At(to.tree, p) else At(worktree0, p)
        decreases rest
      {
        if fault == AfterPaths(written) {
          return false;
        }
        var p :| p in rest;
        worktree := Overlay(worktree, to.tree, {p});
        rest := rest - {p};
        written := written + 1;
      }
      SameTree(worktree, Overlay(worktree0, to.tree, paths));
      return true;
    }
  }

  // ---- why the pre-check suffices ---------------------------------------------------------------

  /** p holds nothing of the operator's: head's own file everywhere, or untracked and unstaged. */
  lemma CleanPath(index: Tree, worktree: Tree, head: Tree, p: Path)
    requires p !in Uncommitted(index, worktree, head)
    ensures At(index, p) == At(head, p) && (p in head ==> At(worktree, p) == At(head, p))
  {
  }

  lemma {:induction false} BlockerFindsFile(worktree: Tree, head: Tree, dir: Path, d: Path)
    requires ClashFree(worktree) && d in worktree && d !in head && (d == dir || IsAncestor(d, dir))
    ensures d in Blocker(worktree, head, dir)
    decreases |dir|
  {
    if d != dir {
      forall q | IsAncestor(dir, q) ensures q !in worktree {
        AncestorOfAncestor(d, dir, q);
      }
      BlockerFindsFile(worktree, head, ParentPath(dir), d);
    }
  }

  lemma {:induction false} BlockerExactly(worktree: Tree, head: Tree, dir: Path, q: Path)
    requires ClashFree(worktree)
    ensures q in Blocker(worktree, head, dir) <==>
              dir != "" && q in worktree && q !in head && (q == dir || IsAncestor(q, dir))
    decreases |dir|
  {
    if dir == "" {
    } else if IsDirectory(worktree, dir) {
      var x :| x in worktree && IsAncestor(dir, x);
      if q in worktree && IsAncestor(q, dir) {
        AncestorOfAncestor(q, dir, x);
      }
    } else if dir in worktree {
      assert IsAncestor(q, dir) ==> q !in worktree;
    } else {
      BlockerExactly(worktree, head, ParentPath(dir), q);
    }
  }

  /**
    The operator's files in the way of p, on any worktree a disk can hold: the untracked files at p,
    below p and above p; an ignored file counts below and above, and is expendable at p itself.
   */
  lemma CollisionsExactly(worktree: Tree, head: Tree, ignored: Path -> bool, p: Path, q: Path)
    requires ClashFree(worktree)
    ensures q in Collisions(worktree, head, ignored, p) <==>
            && q in worktree && q !in head
            && ((q == p && !ignored(p)) || IsAncestor(p, q) || IsAncestor(q, p))
  {
    if IsDirectory(worktree, p) {
      var x :| x in worktree && IsAncestor(p, x);
      if q in worktree && IsAncestor(q, p) {
        AncestorOfAncestor(q, p, x);
      }
    } else if p in worktree {
      assert IsAncestor(q, p) ==> q !in worktree;
    } else {
      BlockerExactly(worktree, head, ParentPath(p), q);
    }
  }

  /** An untracked file above p is reported as a collision of p. */
  lemma FileInTheWayIsFound(worktree: Tree, head: Tree, ignored: Path -> bool, d: Path, p: Path)
    requires ClashFree(worktree) && d in worktree && d !in head && IsAncestor(d, p)
    ensures d in Collisions(worktree, head, ignored, p)
  {
    forall q | IsAncestor(p, q) ensures q !in worktree {
      AncestorOfAncestor(d, p, q);
    }
    BlockerFindsFile(worktree, head, ParentPath(p), d);
  }

  /**
    Writing the paths where head and final differ over the operator's worktree never leaves a file
    where a directory is needed: the collision pre-check makes the whole checkout possible.
   */
  lemma CheckoutStaysPossible(worktree: Tree, head: Tree, final: Tree, ignored: Path -> bool)
    requires ClashFree(worktree) && ClashFree(final)
    requires forall p :: p in Differs(head, final) ==> Collisions(worktree, head, ignored, p) == {}
    ensures ClashFree(Overlay(worktree, final, Differs(head, final)))
  {
    var ws, after := Differs(head, final), Overlay(worktree, final, Differs(head, final));
    assert forall q :: At(after, q) == if q in ws then At(final, q) else At(worktree, q);
    forall d, p | d in after && IsAncestor(d, p) ensures p !in after {
      assert At(after, d) == (if d in ws then At(final, d) else At(worktree, d)) != None;
      assert At(after, p) == if p in ws then At(final, p) else At(worktree, p);
      if d in ws && p !in ws {
        // p would stay below the new file d: it is tracked, so final would clash
        assert p in worktree ==> p in Collisions(worktree, head, ignored, d) || p in head;
        assert At(head, p) == At(final, p);
      } else if d !in ws && p in ws {
        assert d in head by {
          if d !in head {
            FileInTheWayIsFound(worktree, head, ignored, d, p);
          }
        }
        assert At(head, d) == At(final, d);
      }
    }
  }
}
