/**
  The mutable flattened tree a replay works on: the checks that read it and the one operation that
  changes it (gogit_replay_checkout.go).
 */
module FlatTrees {
  import opened Wrappers
  import opened Trees
  import opened ChangeSets

  /** t already holds the end state of one change. */
  predicate Holds(t: Tree, ch: Change) {
    && (ch.from.name != "" && ch.from.name != ch.to.name ==> ch.from.name !in t)
    && (ch.to.name != "" ==> At(t, ch.to.name) == Some(ch.to.entry))
  }

  /** The paths where t no longer matches what one change starts from. */
  function Drift(t: Tree, ch: Change): set<Path> {
    (if ch.from.name != "" && At(t, ch.from.name) != Some(ch.from.entry) then {ch.from.name} else {})
    + (if ch.to.name != "" && ch.to.name != ch.from.name && ch.to.name in t then {ch.to.name} else {})
  }

  ghost function Overlap(t: Tree, cs: seq<Change>): set<Path> {
    set c, p | c in cs && p in Drift(t, c) :: p
  }

  /** The parent of p, "" at the top: everything before the last slash. */
  function ParentPath(p: Path): (d: Path)
    ensures d != "" ==> IsAncestor(d, p)
    ensures forall a :: IsAncestor(a, p) <==> d != "" && (a == d || IsAncestor(a, d))
  {
    LastSlashIsParent(p, |p|);
    ParentUpTo(p, |p|)
  }

  function ParentUpTo(p: Path, n: nat): Path
    requires n <= |p|
  {
    if n <= 1 then "" else if p[n - 1] == '/' then p[..n - 1] else ParentUpTo(p, n - 1)
  }

  lemma {:induction false} LastSlashIsParent(p: Path, n: nat)
    requires n <= |p|
    ensures var d := ParentUpTo(p, n);
            && (|d| < n || d == "")
            && (d != "" ==> IsAncestor(d, p))
            && forall a :: IsAncestor(a, p) && |a| < n <==> d != "" && (a == d || IsAncestor(a, d))
  {
    if n > 1 {
      LastSlashIsParent(p, n - 1);
      if p[n - 1] == '/' {
        var d := p[..n - 1];
        forall a ensures IsAncestor(a, p) && |a| < n <==> a == d || IsAncestor(a, d) {
          if |a| < n - 1 {
            assert d[..|a|] == p[..|a|];
          }
        }
      }
    }
  }

  class FlatTree {
    var entries: Tree

    constructor (t: Tree)
      ensures entries == t
    {
      entries := t;
    }

    /** alreadyApplied: every end state of the change-set is already here. */
    method AlreadyApplied(cs: seq<Change>) returns (applied: bool)
      ensures applied <==> forall c :: c in cs ==> Holds(entries, c)
    {
      for i := 0 to |cs|
        invariant forall j :: 0 <= j < i ==> Holds(entries, cs[j])
      {
        var ch := cs[i];
        assert ch in cs;
        if ch.from.name != "" && ch.from.name != ch.to.name {
          if ch.from.name in entries {
            return false;
          }
        }
        if ch.to.name != "" {
          if ch.to.name !in entries || entries[ch.to.name] != ch.to.entry {
            return false;
          }
        }
      }
      return true;
    }

    /** upstreamOverlap: the paths where the tree no longer matches a change's start. */
    method UpstreamOverlap(cs: seq<Change>) returns (found: set<Path>)
      ensures found == Overlap(entries, cs)
    {
      found := {};
      for i := 0 to |cs|
        invariant found == Overlap(entries, cs[..i])
      {
        var ch := cs[i];
        ghost var before := found;
        assert cs[..i + 1] == cs[..i] + [ch];
        if ch.from.name != "" {
          if ch.from.name !in entries || entries[ch.from.name] != ch.from.entry {
            found := found + {ch.from.name};
          }
        }
        if ch.to.name != "" && ch.to.name != ch.from.name {
          if ch.to.name in entries {
            found := found + {ch.to.name};
          }
        }
        assert found == before + Drift(entries, ch);
      }
      assert cs[..|cs|] == cs;
    }

    /** applyChangesToFlat: the change-set applied in place. */
    method ApplyChangeSet(cs: seq<Change>)
      modifies this
      ensures entries == ApplyChanges(old(entries), cs)
    {
      for i := 0 to |cs|
        invariant entries == ApplyChanges(old(entries), cs[..i])
      {
        var ch := cs[i];
        assert cs[..i + 1][..i] == cs[..i];
        if ch.from.name != "" && ch.from.name != ch.to.name {
          entries := entries - {ch.from.name};
        }
        if ch.to.name != "" {
          entries := entries[ch.to.name := ch.to.entry];
        }
      }
      assert cs[..|cs|] == cs;
    }

    /** pathClashes: entries that are a file here and the parent directory of another entry. */
    method PathClashes() returns (found: set<Path>)
      ensures found == Clashes(entries)
    {
      found := {};
      var rest := entries.Keys;
      while rest != {}
        invariant rest <= entries.Keys
        invariant forall d :: d in found <==> d in entries && exists p :: p in entries && p !in rest && IsAncestor(d, p)
        decreases rest
      {
        var p :| p in rest;
        ghost var before := found;
        var dir := ParentPath(p);
        while dir != ""
          invariant dir != "" ==> IsAncestor(dir, p)
          invariant forall d :: d in found <==>
                      d in before ||
                      (d in entries && IsAncestor(d, p) && !(dir != "" && (d == dir || IsAncestor(d, dir))))
          decreases |dir|
        {
          if dir in entries {
            found := found + {dir};
          }
          ghost var dir0 := dir;
          dir := ParentPath(dir);
          assert forall a :: IsAncestor(a, dir0) <==> dir != "" && (a == dir || IsAncestor(a, dir));
          assert forall a | IsAncestor(a, dir0) :: a != dir0;
        }
        assert forall d :: d in found <==> d in before || (d in entries && IsAncestor(d, p));
        rest := rest - {p};
      }
    }
  }

  // ---- what the checks mean for a tree diff -----------------------------------------------------

  lemma AppliedMeansEndState(cs: seq<Change>, a: Tree, b: Tree, t: Tree)
    requires IsDiff(cs, a, b)
    ensures (forall c :: c in cs ==> Holds(t, c)) <==> forall p :: p in Differs(a, b) ==> At(t, p) == At(b, p)
  {
    DiffMembers(cs, a, b);
    if forall c :: c in cs ==> Holds(t, c) {
      forall p | p in Differs(a, b) ensures At(t, p) == At(b, p) {
        assert ChangeAt(a, b, p) in cs;
      }
    }
  }

  lemma OverlapMeansDrift(cs: seq<Change>, a: Tree, b: Tree, t: Tree)
    requires IsDiff(cs, a, b)
    ensures Overlap(t, cs) == {} <==> Untouched(a, b, t)
  {
    DiffMembers(cs, a, b);
    if Overlap(t, cs) == {} {
      forall p | p in Differs(a, b) ensures At(t, p) == At(a, p) {
        var c := ChangeAt(a, b, p);
        assert c in cs;
        assert p !in Drift(t, c) by {
          assert p in Drift(t, c) ==> p in Overlap(t, cs);
        }
      }
    }
    if Untouched(a, b, t) {
      forall c | c in cs ensures Drift(t, c) == {} {
        assert c == ChangeAt(a, b, PathOf(c));
      }
    }
  }
}
