/**
  Directory trees, the order filepath.Walk visits them in, and what a copy that follows that order
  leaves behind when it is cut off (copyTree and copyFile of src/cas/cas.go).
 */
module Layouts {
  import opened Wrappers

  type Bytes = seq<bv8>
  type Path = seq<string>

  datatype Tree = File(data: Bytes) | Dir(children: seq<Child>)
  datatype Child = Child(name: string, tree: Tree)

  /** What lies at one path of a file system. */
  datatype Node = Directory | Blob(data: Bytes)
  datatype Entry = Entry(path: Path, node: Node)

  /** The content under one directory, by path relative to it. */
  type Layout = map<Path, Node>

  /** Byte order of file names. */
  predicate Less(a: string, b: string) {
    b != [] && (a == [] || a[0] < b[0] || (a[0] == b[0] && Less(a[1..], b[1..])))
  }

  /** Every directory is listed in name order, each name once. */
  ghost predicate Listed(t: Tree) {
    t.Dir? ==>
      && (forall i, j :: 0 <= i < j < |t.children| ==> Less(t.children[i].name, t.children[j].name))
      && (forall i :: 0 <= i < |t.children| ==> Listed(t.children[i].tree))
  }

  // ---- the walk ---------------------------------------------------------------------------------

  /** filepath.Walk: the path itself, then its children in order, each walked completely. */
  function Walk(at: Path, t: Tree): (es: seq<Entry>)
    ensures es != [] && es[0].path == at
    decreases t, if t.Dir? then |t.children| + 1 else 0
  {
    match t
    case File(data) => [Entry(at, Blob(data))]
    case Dir(children) => [Entry(at, Directory)] + WalkFrom(at, t, 0)
  }

  function WalkFrom(at: Path, t: Tree, i: nat): seq<Entry>
    requires t.Dir? && i <= |t.children|
    decreases t, |t.children| - i
  {
    if i == |t.children| then []
    else Walk(at + [t.children[i].name], t.children[i].tree) + WalkFrom(at, t, i + 1)
  }

  ghost predicate Under(at: Path, p: Path) {
    at <= p
  }

  ghost predicate AllUnder(at: Path, es: seq<Entry>) {
    forall k :: 0 <= k < |es| ==> Under(at, es[k].path)
  }

  /** Each entry lies under one of the children from i on. */
  ghost predicate UnderChildren(at: Path, t: Tree, i: nat, es: seq<Entry>)
    requires t.Dir?
  {
    forall k :: 0 <= k < |es| ==>
      Under(at, es[k].path) && |es[k].path| > |at| &&
      exists c :: i <= c < |t.children| && es[k].path[|at|] == t.children[c].name
  }

  lemma {:induction false} WalkStaysUnder(at: Path, t: Tree)
    ensures AllUnder(at, Walk(at, t))
    decreases t, if t.Dir? then |t.children| + 1 else 0
  {
    if t.Dir? {
      WalkFromStaysUnder(at, t, 0);
    }
  }

  lemma {:induction false} WalkFromStaysUnder(at: Path, t: Tree, i: nat)
    requires t.Dir? && i <= |t.children|
    ensures UnderChildren(at, t, i, WalkFrom(at, t, i))
    decreases t, |t.children| - i
  {
    if i < |t.children| {
      var here := at + [t.children[i].name];
      var first := Walk(here, t.children[i].tree);
      WalkStaysUnder(here, t.children[i].tree);
      WalkFromStaysUnder(at, t, i + 1);
      forall k | 0 <= k < |first|
        ensures Under(at, first[k].path) && |first[k].path| > |at| && first[k].path[|at|] == t.children[i].name
      {
        assert Under(here, first[k].path);
      }
    }
  }

  ghost predicate DistinctPaths(es: seq<Entry>) {
    forall j, k :: 0 <= j < k < |es| ==> es[j].path != es[k].path
  }

  lemma {:induction false} LessIsStrict(a: string, b: string)
    requires Less(a, b)
    ensures a != b && !Less(b, a)
  {
    if a != [] && a[0] == b[0] {
      LessIsStrict(a[1..], b[1..]);
    }
  }

  /** The walk visits no path twice. */
  lemma {:induction false} WalkIsDistinct(at: Path, t: Tree)
    requires Listed(t)
    ensures DistinctPaths(Walk(at, t))
    decreases t, if t.Dir? then |t.children| + 1 else 0
  {
    if t.Dir? {
      WalkFromIsDistinct(at, t, 0);
      WalkFromStaysUnder(at, t, 0);
    }
  }

  lemma {:induction false} WalkFromIsDistinct(at: Path, t: Tree, i: nat)
    requires t.Dir? && i <= |t.children| && Listed(t)
    ensures DistinctPaths(WalkFrom(at, t, i))
    decreases t, |t.children| - i
  {
    if i < |t.children| {
      var here := at + [t.children[i].name];
      WalkIsDistinct(here, t.children[i].tree);
      WalkFromIsDistinct(at, t, i + 1);
      WalkStaysUnder(here, t.children[i].tree);
      WalkFromStaysUnder(at, t, i + 1);
      var first, more := Walk(here, t.children[i].tree), WalkFrom(at, t, i + 1);
      forall a, b | 0 <= a < |first| && 0 <= b < |more| ensures first[a].path != more[b].path {
        var p := more[b].path;
        var c :| i + 1 <= c < |t.children| && p[|at|] == t.children[c].name;
        LessIsStrict(t.children[i].name, t.children[c].name);
        assert Under(here, first[a].path);
      }
    }
  }

  /** Within a directory, whatever lies under an earlier name is visited before what lies under a later one. */
  ghost predicate InNameOrder(at: Path, es: seq<Entry>) {
    forall j, k :: 0 <= j < k < |es| && |es[j].path| > |at| && |es[k].path| > |at| ==>
      es[j].path[|at|] == es[k].path[|at|] || Less(es[j].path[|at|], es[k].path[|at|])
  }

  lemma {:induction false} WalkFromInNameOrder(at: Path, t: Tree, i: nat)
    requires t.Dir? && i <= |t.children| && Listed(t)
    ensures InNameOrder(at, WalkFrom(at, t, i))
    decreases |t.children| - i
  {
    if i < |t.children| {
      var here := at + [t.children[i].name];
      var first, more := Walk(here, t.children[i].tree), WalkFrom(at, t, i + 1);
      WalkFromInNameOrder(at, t, i + 1);
      WalkStaysUnder(here, t.children[i].tree);
      WalkFromStaysUnder(at, t, i + 1);
      forall a | 0 <= a < |first| ensures |first[a].path| > |at| && first[a].path[|at|] == t.children[i].name {
        assert Under(here, first[a].path);
      }
      forall b | 0 <= b < |more| ensures Less(t.children[i].name, more[b].path[|at|]) {
        var c :| i + 1 <= c < |t.children| && more[b].path[|at|] == t.children[c].name;
      }
    }
  }

  lemma WalkInNameOrder(t: Tree)
    requires Listed(t)
    ensures InNameOrder([], Walk([], t))
  {
    if t.Dir? {
      WalkFromInNameOrder([], t, 0);
    }
  }

  // ---- what the walk lists ----------------------------------------------------------------------

  /** What a tree holds at a path below it, found by descending name by name. */
  function NodeAt(t: Tree, p: Path): Option<Node>
    decreases |p|, if t.Dir? then |t.children| + 1 else 0
  {
    if p == [] then Some(if t.File? then Blob(t.data) else Directory)
    else if t.File? then None
    else ChildAt(t.children, p)
  }

  function ChildAt(cs: seq<Child>, p: Path): Option<Node>
    requires p != []
    decreases |p|, |cs|
  {
    if cs == [] then None
    else if cs[0].name == p[0] then NodeAt(cs[0].tree, p[1..])
    else ChildAt(cs[1..], p)
  }

  /** The walk lists exactly what the tree holds, path by path. */
  lemma {:induction false} WalkExactly(at: Path, t: Tree, p: Path, n: Node)
    requires Listed(t)
    ensures Entry(at + p, n) in Walk(at, t) <==> NodeAt(t, p) == Some(n)
    decreases t, if t.Dir? then |t.children| + 1 else 0
  {
    if p == [] {
      assert at + p == at;
    } else {
      assert at + p != at by {
        assert |at + p| > |at|;
      }
    }
    if t.Dir? {
      if p == [] {
        WalkFromStaysUnder(at, t, 0);
        NotBelow(at, t, n);
      } else {
        WalkFromExactly(at, t, 0, p, n);
        assert t.children[0..] == t.children;
      }
    }
  }

  /** The directory itself is not among what lies below it. */
  lemma NotBelow(at: Path, t: Tree, n: Node)
    requires t.Dir? && UnderChildren(at, t, 0, WalkFrom(at, t, 0))
    ensures Entry(at, n) !in WalkFrom(at, t, 0)
  {
  }

  lemma {:induction false} WalkFromExactly(at: Path, t: Tree, i: nat, p: Path, n: Node)
    requires t.Dir? && i <= |t.children| && Listed(t) && p != []
    ensures Entry(at + p, n) in WalkFrom(at, t, i) <==> ChildAt(t.children[i..], p) == Some(n)
    decreases t, |t.children| - i
  {
    if i < |t.children| {
      var c := t.children[i];
      var here := at + [c.name];
      assert t.children[i..][0] == c && t.children[i..][1..] == t.children[i + 1..];
      WalkFromExactly(at, t, i + 1, p, n);
      WalkStaysUnder(here, c.tree);
      if p[0] == c.name {
        WalkExactly(here, c.tree, p[1..], n);
        assert here + p[1..] == at + p;
        LaterNamesDiffer(at, t, i, p, n);
      } else {
        assert (at + p)[|at|] == p[0];
        assert forall e <- Walk(here, c.tree) :: e.path != at + p by {
          forall e | e in Walk(here, c.tree) ensures e.path != at + p {
            assert Under(here, e.path);
            assert e.path[|at|] == c.name;
          }
        }
      }
    }
  }

  /** A later child does not bring up the name again. */
  lemma LaterNamesDiffer(at: Path, t: Tree, i: nat, p: Path, n: Node)
    requires t.Dir? && i < |t.children| && Listed(t) && p != [] && p[0] == t.children[i].name
    ensures Entry(at + p, n) !in WalkFrom(at, t, i + 1)
  {
    WalkFromStaysUnder(at, t, i + 1);
    forall e | e in WalkFrom(at, t, i + 1) ensures e.path != at + p {
      var c :| i + 1 <= c < |t.children| && e.path[|at|] == t.children[c].name;
      LessIsStrict(t.children[i].name, t.children[c].name);
    }
  }

  // ---- copying ----------------------------------------------------------------------------------

  /** What creating the entries one after the other leaves at the destination. */
  function Copied(es: seq<Entry>): Layout {
    if es == [] then map[] else Copied(es[..|es| - 1])[es[|es| - 1].path := es[|es| - 1].node]
  }

  lemma {:induction false} CopiedHolds(es: seq<Entry>)
    requires DistinctPaths(es)
    ensures forall k :: 0 <= k < |es| ==> es[k].path in Copied(es) && Copied(es)[es[k].path] == es[k].node
    ensures forall p <- Copied(es) :: exists k :: 0 <= k < |es| && es[k].path == p
  {
    if es != [] {
      var front, last := es[..|es| - 1], es[|es| - 1];
      CopiedHolds(front);
      forall k | 0 <= k < |es| ensures es[k].path in Copied(es) && Copied(es)[es[k].path] == es[k].node {
        assert k < |front| ==> front[k] == es[k];
      }
      forall p <- Copied(es) ensures exists k :: 0 <= k < |es| && es[k].path == p {
        assert es[|es| - 1].path == last.path;
        if p != last.path {
          assert p in Copied(front);
          var k :| 0 <= k < |front| && front[k].path == p;
          assert es[k].path == p;
        }
      }
    }
  }

  lemma CopiedSomething(es: seq<Entry>)
    ensures Copied(es) == map[] <==> es == []
  {
    assert es != [] ==> es[|es| - 1].path in Copied(es);
  }

  /** Where a copy stops: after so many entries, with perhaps the first bytes of the next file. */
  datatype Cut = Cut(steps: nat, partial: Option<nat>)

  function CutOff(es: seq<Entry>, cut: Cut): Layout {
    if cut.steps >= |es| then Copied(es)
    else
      var done := Copied(es[..cut.steps]);
      var next := es[cut.steps];
      if next.node.Blob? && cut.partial.Some? then done[next.path := Blob(Head(next.node.data, cut.partial.value))]
      else done
  }

  function Head(data: Bytes, n: nat): Bytes {
    if n < |data| then data[..n] else data
  }

  /** The whole tree as a file system holds it. */
  function Flatten(t: Tree): Layout {
    Copied(Walk([], t))
  }

  /** The whole copy holds exactly what the tree holds, path by path. */
  lemma FlattenExactly(t: Tree, p: Path)
    requires Listed(t)
    ensures NodeAt(t, p) == if p in Flatten(t) then Some(Flatten(t)[p]) else None
  {
    var es := Walk([], t);
    WalkIsDistinct([], t);
    CopiedHolds(es);
    assert [] + p == p;
    if p in Flatten(t) {
      var k :| 0 <= k < |es| && es[k].path == p;
      WalkExactly([], t, p, es[k].node);
      assert es[k] in es;
    }
    if NodeAt(t, p).Some? {
      WalkExactly([], t, p, NodeAt(t, p).value);
      var k :| 0 <= k < |es| && es[k] == Entry(p, NodeAt(t, p).value);
      assert es[k].path in Copied(es);
    }
  }

  /** A path is in a cut-off copy exactly if it was reached; only the one being written can differ from the source. */
  lemma CutOffHolds(es: seq<Entry>, cut: Cut, k: nat)
    requires DistinctPaths(es) && k < |es|
    ensures k < cut.steps ==> es[k].path in CutOff(es, cut) && CutOff(es, cut)[es[k].path] == es[k].node
    ensures k > cut.steps ==> es[k].path !in CutOff(es, cut)
    ensures k == cut.steps ==>
              (es[k].path in CutOff(es, cut) <==> es[k].node.Blob? && cut.partial.Some?) &&
              (es[k].path in CutOff(es, cut) ==>
                 CutOff(es, cut)[es[k].path] == Blob(Head(es[k].node.data, cut.partial.value)))
  {
    if cut.steps < |es| {
      var front := es[..cut.steps];
      CopiedHolds(front);
      forall j | 0 <= j < cut.steps && front[j].path == es[k].path ensures j == k {}
    } else {
      CopiedHolds(es);
    }
  }

  /** A cut-off copy holds nothing the source lacks. */
  lemma CutOffAddsNothing(es: seq<Entry>, cut: Cut)
    requires DistinctPaths(es)
    ensures forall p <- CutOff(es, cut) :: exists k :: 0 <= k < |es| && es[k].path == p
  {
    CopiedHolds(es);
    if cut.steps < |es| {
      var front := es[..cut.steps];
      CopiedHolds(front);
      forall p <- CutOff(es, cut) ensures exists k :: 0 <= k < |es| && es[k].path == p {
        if p != es[cut.steps].path {
          var k :| 0 <= k < |front| && front[k].path == p;
          assert es[k].path == p;
        }
      }
    }
  }
}
