/**
  Commits and linear local chains. A commit value stands for its hash: equal hashes mean equal
  commits, all the way down the history.
 */
module Commits {
  import opened Trees

  datatype Commit = Commit(
    author: string,
    committer: string,
    when: int,
    message: string,
    tree: Tree,
    parents: seq<Commit>)

  /** The tree a commit's change-set starts from: its first parent's, or the empty tree for a root. */
  function BaseTree(c: Commit): Tree {
    if c.parents == [] then EMPTY_TREE else c.parents[0].tree
  }

  /** The paths a commit changes. */
  function Touches(c: Commit): set<Path> {
    Differs(BaseTree(c), c.tree)
  }

  /** src rebuilt on a parent: src's author and message, the given committer time. */
  function Rebuilt(src: Commit, tree: Tree, parent: Commit, when: int): Commit {
    Commit(src.author, src.committer, when, src.message, tree, [parent])
  }

  /** The chain base, commits[0], commits[1], ...: its element i is the parent of commits[i]. */
  function ChainAt(commits: seq<Commit>, base: Commit, i: nat): Commit
    requires i <= |commits|
  {
    if i == 0 then base else commits[i - 1]
  }

  /** The first n commits, oldest first, are each the single child of the one before. */
  ghost predicate LinearUpTo(commits: seq<Commit>, base: Commit, n: nat)
    requires n <= |commits|
  {
    forall i :: 0 <= i < n ==> commits[i].parents == [ChainAt(commits, base, i)]
  }

  ghost predicate Linear(commits: seq<Commit>, base: Commit) {
    LinearUpTo(commits, base, |commits|)
  }

  /** The paths some of the first n commits change. */
  ghost function TouchedBy(commits: seq<Commit>, n: nat): set<Path>
    requires n <= |commits|
  {
    if n == 0 then {} else TouchedBy(commits, n - 1) + Touches(commits[n - 1])
  }

  lemma {:induction false} TouchedByMember(commits: seq<Commit>, n: nat, p: Path)
    requires n <= |commits|
    ensures p in TouchedBy(commits, n) <==> exists i :: 0 <= i < n && p in Touches(commits[i])
  {
    hide Touches;
    if n > 0 {
      TouchedByMember(commits, n - 1, p);
    }
  }

  /** Outside the touched paths, a linear chain leaves the base tree alone. */
  lemma {:induction false} UntouchedKeepsBase(commits: seq<Commit>, base: Commit, n: nat, p: Path)
    requires Linear(commits, base) && n <= |commits| && p !in TouchedBy(commits, n)
    ensures At(ChainAt(commits, base, n).tree, p) == At(base.tree, p)
  {
    hide Touches;
    if n > 0 {
      UntouchedKeepsBase(commits, base, n - 1, p);
      assert commits[n - 1].parents == [ChainAt(commits, base, n - 1)];
      UntouchedStep(commits[n - 1], p);
    }
  }

  lemma UntouchedStep(c: Commit, p: Path)
    requires |c.parents| == 1 && p !in Touches(c)
    ensures At(c.tree, p) == At(c.parents[0].tree, p)
  {
  }

  /** anc is c or reachable from it through parents. */
  predicate IsAncestorOf(anc: Commit, c: Commit) {
    anc == c || exists i :: 0 <= i < |c.parents| && IsAncestorOf(anc, c.parents[i])
  }

  lemma {:induction false} AncestorTrans(a: Commit, b: Commit, c: Commit)
    requires IsAncestorOf(a, b) && IsAncestorOf(b, c)
    ensures IsAncestorOf(a, c)
  {
    if b != c {
      var i :| 0 <= i < |c.parents| && IsAncestorOf(b, c.parents[i]);
      AncestorTrans(a, b, c.parents[i]);
    }
  }

  /** No commit is a proper ancestor of itself. */
  lemma {:induction false} AncestorAntisymmetric(a: Commit, b: Commit)
    requires IsAncestorOf(a, b) && IsAncestorOf(b, a)
    ensures a == b
  {
    if a != b {
      AncestorSmaller(a, b);
      AncestorSmaller(b, a);
    }
  }

  function Depth(c: Commit): nat {
    1 + MaxDepth(c.parents)
  }

  function MaxDepth(cs: seq<Commit>): (d: nat)
    ensures forall i :: 0 <= i < |cs| ==> Depth(cs[i]) <= d
  {
    if cs == [] then 0 else
      var d, r := Depth(cs[0]), MaxDepth(cs[1..]);
      assert forall i :: 1 <= i < |cs| ==> cs[i] == cs[1..][i - 1];
      if d < r then r else d
  }

  lemma {:induction false} AncestorSmaller(a: Commit, b: Commit)
    requires IsAncestorOf(a, b) && a != b
    ensures Depth(a) < Depth(b)
  {
    var i :| 0 <= i < |b.parents| && IsAncestorOf(a, b.parents[i]);
    if a != b.parents[i] {
      AncestorSmaller(a, b.parents[i]);
    }
  }
}
