/**
  Flattened git trees (full path -> blob and mode) and the change-sets between them.

  A tree is the map FlattenTree yields; WriteTreeFromFlat is its inverse, so a tree object and its
  flat map are one value here. A change carries both sides, each with a full path ("" = absent), so
  that the code's rename branches are modelled even though a tree diff never produces a rename.
 */
module Trees {
  import opened Wrappers

  type Path = string

  /** A blob id in hex: 40 characters. */
  type Oid = s: string | |s| == 40 witness "0000000000000000000000000000000000000000"

  /** A rendered file mode: 7 octal digits. */
  type Mode = s: string | |s| == 7 witness "0000000"

  const NO_OID: Oid := "0000000000000000000000000000000000000000"
  const NO_MODE: Mode := "0000000"

  datatype Entry = Entry(hash: Oid, mode: Mode)

  /** No entry lives at the empty path. */
  type Tree = t: map<Path, Entry> | "" !in t

  const EMPTY_TREE: Tree := map[]

  datatype Side = Side(name: Path, entry: Entry)

  datatype Change = Change(from: Side, to: Side)

  const ABSENT := Side("", Entry(NO_OID, NO_MODE))

  function At(t: Tree, p: Path): Option<Entry> {
    if p in t then Some(t[p]) else None
  }

  lemma SameTree(a: Tree, b: Tree)
    requires forall p :: At(a, p) == At(b, p)
    ensures a == b
  {
    forall p ensures p in a <==> p in b {
      assert At(a, p) == At(b, p);
    }
    forall p | p in a ensures a[p] == b[p] {
      assert At(a, p) == At(b, p);
    }
  }

  /** The paths at which two trees hold different entries. */
  function Differs(a: Tree, b: Tree): (ps: set<Path>)
    ensures forall p :: p in ps <==> At(a, p) != At(b, p)
    ensures "" !in ps
  {
    set p | p in a.Keys + b.Keys && At(a, p) != At(b, p)
  }

  function SideAt(t: Tree, p: Path): Side {
    if p in t then Side(p, t[p]) else ABSENT
  }

  /** The insert, delete or modify that turns a's entry at p into b's. */
  function ChangeAt(a: Tree, b: Tree, p: Path): Change {
    Change(SideAt(a, p), SideAt(b, p))
  }

  function PathOf(c: Change): Path {
    if c.to.name != "" then c.to.name else c.from.name
  }

  lemma PathOfChangeAt(a: Tree, b: Tree, p: Path)
    requires p in Differs(a, b)
    ensures PathOf(ChangeAt(a, b, p)) == p
  {
  }

  ghost function DiffSet(a: Tree, b: Tree): set<Change> {
    set p | p in Differs(a, b) :: ChangeAt(a, b, p)
  }

  /** cs lists the change of every differing path once, in some order. */
  ghost predicate IsDiff(cs: seq<Change>, a: Tree, b: Tree) {
    multiset(cs) == multiset(DiffSet(a, b))
  }

  lemma DiffMembers(cs: seq<Change>, a: Tree, b: Tree)
    requires IsDiff(cs, a, b)
    ensures forall c :: c in cs <==> c in DiffSet(a, b)
    ensures forall c | c in cs :: PathOf(c) in Differs(a, b) && c == ChangeAt(a, b, PathOf(c))
    ensures forall p | p in Differs(a, b) :: ChangeAt(a, b, p) in cs
  {
    forall c ensures c in cs <==> c in DiffSet(a, b) {
      assert c in cs <==> c in multiset(cs);
    }
    forall c | c in cs ensures PathOf(c) in Differs(a, b) && c == ChangeAt(a, b, PathOf(c)) {
      var p :| p in Differs(a, b) && c == ChangeAt(a, b, p);
      PathOfChangeAt(a, b, p);
    }
  }

  lemma EmptyDiff(cs: seq<Change>, a: Tree, b: Tree)
    requires IsDiff(cs, a, b)
    ensures cs == [] <==> Differs(a, b) == {}
  {
    DiffMembers(cs, a, b);
    if cs != [] {
      assert cs[0] in cs;
    }
  }

  /** Tree.Diff; the order in which the paths come out is not specified. */
  method TreeDiff(a: Tree, b: Tree) returns (cs: seq<Change>)
    ensures IsDiff(cs, a, b)
  {
    var rest := Differs(a, b);
    cs := [];
    ghost var done: set<Change> := {};
    while rest != {}
      invariant rest <= Differs(a, b)
      invariant multiset(cs) == multiset(done)
      invariant done == set p | p in Differs(a, b) - rest :: ChangeAt(a, b, p)
      decreases rest
    {
      var p :| p in rest;
      var c := ChangeAt(a, b, p);
      assert c !in done by {
        PathOfChangeAt(a, b, p);
        if c in done {
          var q :| q in Differs(a, b) - rest && c == ChangeAt(a, b, q);
          PathOfChangeAt(a, b, q);
        }
      }
      cs := cs + [c];
      done := done + {c};
      rest := rest - {p};
    }
    assert done == DiffSet(a, b);
  }

  /** t with h's state (an entry or nothing) at every path of ps. */
  function Overlay(t: Tree, h: Tree, ps: set<Path>): (r: Tree)
    ensures forall p :: At(r, p) == if p in ps then At(h, p) else At(t, p)
  {
    map p | p in t.Keys + h.Keys && (if p in ps then p in h else p in t) :: if p in ps then h[p] else t[p]
  }

  /** d is a parent directory of p. */
  predicate IsAncestor(d: Path, p: Path) {
    0 < |d| < |p| && p[..|d|] == d && p[|d|] == '/'
  }

  /** Paths that are a file in t and the parent directory of another entry. */
  function Clashes(t: Tree): set<Path> {
    set d, p | p in t && d in t && IsAncestor(d, p) :: d
  }

  /** No entry is both a file and a parent directory: what a git tree or a directory can hold. */
  ghost predicate ClashFree(t: Tree) {
    forall d, p | d in t && p in t :: !IsAncestor(d, p)
  }

  lemma NoClashes(t: Tree)
    ensures Clashes(t) == {} <==> ClashFree(t)
  {
    if Clashes(t) == {} {
      forall d, p | d in t && p in t ensures !IsAncestor(d, p) {
        assert IsAncestor(d, p) ==> d in Clashes(t);
      }
    }
  }

  lemma AncestorOfAncestor(a: Path, b: Path, c: Path)
    requires IsAncestor(a, b) && IsAncestor(b, c)
    ensures IsAncestor(a, c)
  {
    assert c[..|a|] == b[..|a|];
  }
}
