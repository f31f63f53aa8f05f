/**
  DeepMerge: override laid over base, mapping by mapping (preset.go).
 */
module DeepMerge {
  import opened Wrappers
  import opened Nodes

  // ---- as the code computes it ------------------------------------------------------------------

  /** The pair list after merging override's keys from the i-th on into acc, one mapSet at a time. */
  function Folded(acc: seq<Pair>, over: Node, i: nat): seq<Pair>
    requires i <= |Keys(over)|
    decreases Size(over), |Keys(over)| - i
  {
    if i == |Keys(over)| then acc
    else
      var k := Keys(over)[i];
      var ov := Get(over, k).value;
      Folded(Put(acc, k, MergedValue(Find(acc, k), ov)), over, i + 1)
  }

  function MergedValue(bv: Option<Node>, ov: Node): Node
    decreases Size(ov), |Keys(ov)| + 1
  {
    if bv.Some? && bv.value.Mapping? && ov.Mapping? then Mapping(Folded(bv.value.pairs, ov, 0)) else ov
  }

  /** DeepMerge: a shallow clone of base, then one Set per override key. */
  method Merged(base: Node, over: Node) returns (r: Node)
    ensures r == MergedValue(Some(base), over)
    decreases Size(over)
  {
    if !base.Mapping? || !over.Mapping? {
      return over;
    }
    var result := new MappingNode(base.pairs);
    var keys := Keys(over);
    for i := 0 to |keys|
      invariant Folded(result.pairs, over, i) == Folded(base.pairs, over, 0)
    {
      var k := keys[i];
      var ov := Get(over, k).value;
      var bv := Find(result.pairs, k);
      if bv.Some? && bv.value.Mapping? && ov.Mapping? {
        var m := Merged(bv.value, ov);
        result.Set(k, m);
      } else {
        result.Set(k, ov);
      }
    }
    return Mapping(result.pairs);
  }

  // ---- as a reader would define it --------------------------------------------------------------

  /** Merge by key: override wins, mappings on both sides merge, base's order first. */
  function Merge(base: Node, over: Node): Node
    decreases Size(over), 1, 0
  {
    if base.Mapping? && over.Mapping? then Mapping(Updated(base.pairs, over) + Added(base.pairs, over.pairs)) else over
  }

  /** What a key holds after merging: b if only base has it, o if only override does. */
  function MergeOption(b: Option<Node>, o: Option<Node>): Option<Node> {
    if o.None? then b else if b.None? then o else Some(Merge(b.value, o.value))
  }

  function Updated(ps: seq<Pair>, over: Node): seq<Pair>
    requires over.Mapping?
    decreases Size(over), 0, |ps|
  {
    if ps == [] then []
    else
      var ov := Get(over, ps[0].key);
      [Pair(ps[0].key, if ov.None? then ps[0].value else Merge(ps[0].value, ov.value))] + Updated(ps[1..], over)
  }

  function Added(base: seq<Pair>, ps: seq<Pair>): seq<Pair> {
    if ps == [] then []
    else (if ps[0].key in PairKeys(base) then [] else [ps[0]]) + Added(base, ps[1..])
  }

  /** The keys of xs that ys lacks, in order. */
  function Minus(xs: seq<string>, ys: seq<string>): (r: seq<string>)
    ensures forall k :: k in r <==> k in xs && k !in ys
  {
    if xs == [] then [] else (if xs[0] in ys then [] else [xs[0]]) + Minus(xs[1..], ys)
  }

  // ---- key order and lookup ---------------------------------------------------------------------

  lemma PairKeysConcat(a: seq<Pair>, b: seq<Pair>)
    ensures PairKeys(a + b) == PairKeys(a) + PairKeys(b)
  {
  }

  lemma FindConcat(a: seq<Pair>, b: seq<Pair>, k: string)
    ensures Find(a + b, k) == if k in PairKeys(a) then Find(a, k) else Find(b, k)
  {
    if a != [] {
      assert (a + b)[1..] == a[1..] + b;
      FindConcat(a[1..], b, k);
    } else {
      assert a + b == b;
    }
  }

  lemma {:induction false} UpdatedFinds(ps: seq<Pair>, over: Node, k: string)
    requires over.Mapping?
    ensures PairKeys(Updated(ps, over)) == PairKeys(ps)
    ensures Find(Updated(ps, over), k) == if k in PairKeys(ps) then MergeOption(Find(ps, k), Get(over, k)) else None
  {
    if ps != [] {
      UpdatedFinds(ps[1..], over, k);
      var u := Updated(ps, over);
      assert u[1..] == Updated(ps[1..], over);
    }
  }

  lemma {:induction false} AddedKeys(base: seq<Pair>, ps: seq<Pair>)
    ensures PairKeys(Added(base, ps)) == Minus(PairKeys(ps), PairKeys(base))
  {
    if ps != [] {
      AddedKeys(base, ps[1..]);
      PairKeysConcat(if ps[0].key in PairKeys(base) then [] else [ps[0]], Added(base, ps[1..]));
      assert PairKeys(ps) == [ps[0].key] + PairKeys(ps[1..]);
    }
  }

  lemma {:induction false} AddedFinds(base: seq<Pair>, ps: seq<Pair>, k: string)
    ensures Find(Added(base, ps), k) == if k in PairKeys(base) then None else Find(ps, k)
  {
    if ps != [] {
      AddedFinds(base, ps[1..], k);
      FindConcat(if ps[0].key in PairKeys(base) then [] else [ps[0]], Added(base, ps[1..]), k);
    }
  }

  /** Base's key order, then override's new keys in order; each key merged on its own. */
  lemma MergeByKey(base: Node, over: Node, k: string)
    requires base.Mapping? && over.Mapping?
    ensures Keys(Merge(base, over)) == Keys(base) + Minus(Keys(over), Keys(base))
    ensures Get(Merge(base, over), k) == MergeOption(Get(base, k), Get(over, k))
  {
    UpdatedFinds(base.pairs, over, k);
    AddedKeys(base.pairs, over.pairs);
    AddedFinds(base.pairs, over.pairs, k);
    PairKeysConcat(Updated(base.pairs, over), Added(base.pairs, over.pairs));
    FindConcat(Updated(base.pairs, over), Added(base.pairs, over.pairs), k);
  }

  lemma MergeShape(base: Node, over: Node)
    ensures Merge(base, over).Mapping? <==> over.Mapping?
    ensures !(base.Mapping? && over.Mapping?) ==> Merge(base, over) == over
  {
  }

  lemma MergeKeys(base: Node, over: Node)
    requires base.Mapping? && over.Mapping?
    ensures Merge(base, over).Mapping? && Keys(Merge(base, over)) == Keys(base) + Minus(Keys(over), Keys(base))
  {
    MergeByKey(base, over, "");
  }

  lemma {:induction false} MinusDistinct(xs: seq<string>, ys: seq<string>)
    requires Distinct(xs)
    ensures Distinct(Minus(xs, ys))
  {
    if xs != [] {
      MinusDistinct(xs[1..], ys);
      assert forall j :: 1 <= j < |xs| ==> xs[j] == xs[1..][j - 1];
      assert xs[0] !in xs[1..];
    }
  }

  lemma DistinctConcat(a: seq<string>, b: seq<string>)
    requires Distinct(a) && Distinct(b) && forall k :: k in b ==> k !in a
    ensures Distinct(a + b)
  {
    forall i, j | 0 <= i < j < |a + b| ensures (a + b)[i] != (a + b)[j] {
      if j >= |a| {
        assert (a + b)[j] == b[j - |a|];
        assert b[j - |a|] in b;
      }
    }
  }

  lemma MergeDistinct(base: Node, over: Node)
    requires base.Mapping? && over.Mapping? && Distinct(Keys(base)) && Distinct(Keys(over))
    ensures Merge(base, over).Mapping? && Distinct(Keys(Merge(base, over)))
  {
    MergeByKey(base, over, "");
    MinusDistinct(Keys(over), Keys(base));
    hide Merge, Keys, Minus;
    DistinctConcat(Keys(base), Minus(Keys(over), Keys(base)));
  }

  /** No key is repeated by a merge of unique-key trees, at any depth. */
  lemma {:induction false} MergeUnique(base: Node, over: Node)
    requires UniqueKeys(base) && UniqueKeys(over)
    ensures UniqueKeys(Merge(base, over))
    decreases Size(over)
  {
    if base.Mapping? && over.Mapping? {
      var m := Merge(base, over);
      MergeDistinct(base, over);
      forall i | 0 <= i < |m.pairs| ensures UniqueKeys(m.pairs[i].value) {
        var k := m.pairs[i].key;
        FindAt(m.pairs, i);
        MergeByKey(base, over, k);
        if Get(base, k).Some? {
          UniqueGet(base, k);
        }
        if Get(over, k).Some? {
          UniqueGet(over, k);
          if Get(base, k).Some? {
            MergeUnique(Get(base, k).value, Get(over, k).value);
          }
        }
      }
      AllUnique(m.pairs);
    }
  }

  lemma {:induction false} AllUnique(ps: seq<Pair>)
    requires forall i :: 0 <= i < |ps| ==> UniqueKeys(ps[i].value)
    ensures UniqueValues(ps)
  {
    if ps != [] {
      AllUnique(ps[1..]);
    }
  }

  // ---- the code computes the merge --------------------------------------------------------------

  lemma FoldedKeysStep(x: string, rest: seq<string>, ka: seq<string>)
    requires x !in rest
    ensures var kb := if x in ka then ka else ka + [x];
            kb + Minus(rest, kb) == ka + Minus([x] + rest, ka)
  {
    assert ([x] + rest)[1..] == rest;
    if x !in ka {
      MinusMore(rest, ka, x);
    }
  }

  lemma SplitFirst(ks: seq<string>, i: nat)
    requires i < |ks| && Distinct(ks)
    ensures ks[i..] == [ks[i]] + ks[i + 1..] && ks[i] !in ks[i + 1..]
  {
  }

  /** One key of override. */
  lemma FoldStep(acc: seq<Pair>, o: Node, i: nat)
    requires i < |Keys(o)|
    ensures var k := Keys(o)[i];
            && Get(o, k) == (if o.Mapping? then Find(o.pairs, k) else None)
            && Folded(acc, o, i) == Folded(Put(acc, k, MergedValue(Find(acc, k), Get(o, k).value)), o, i + 1)
  {
  }

  lemma {:induction false} FoldedKeys(acc: seq<Pair>, over: Node, i: nat)
    requires over.Mapping? && i <= |Keys(over)| && Distinct(Keys(over))
    ensures PairKeys(Folded(acc, over, i)) == PairKeys(acc) + Minus(Keys(over)[i..], PairKeys(acc))
    decreases |Keys(over)| - i
  {
    hide MergedValue, Put, PairKeys, Find, Get, Minus, Keys;
    var ka := PairKeys(acc);
    if i < |Keys(over)| {
      SplitFirst(Keys(over), i);
      FoldStep(acc, over, i);
      hide Distinct, Folded;
      var k, rest := Keys(over)[i], Keys(over)[i + 1..];
      var v := MergedValue(Find(acc, k), Get(over, k).value);
      PutKeys(acc, k, v);
      FoldedKeys(Put(acc, k, v), over, i + 1);
      FoldedKeysStep(k, rest, ka);
      assert Keys(over)[i..] == [k] + rest;
    } else {
      MinusNone([], ka);
      assert Keys(over)[i..] == [] && ka + [] == ka;
    }
  }

  lemma {:induction false} FoldedFinds(acc: seq<Pair>, over: Node, i: nat, k: string)
    requires over.Mapping? && i <= |Keys(over)| && Distinct(Keys(over))
    ensures Find(Folded(acc, over, i), k) ==
            if k in Keys(over)[i..] then Some(MergedValue(Find(acc, k), Get(over, k).value)) else Find(acc, k)
    decreases |Keys(over)| - i
  {
    hide MergedValue, Put, Find, PairKeys, Keys, Get;
    if i < |Keys(over)| {
      SplitFirst(Keys(over), i);
      FoldStep(acc, over, i);
      hide Distinct, Folded;
      var ki, rest := Keys(over)[i], Keys(over)[i + 1..];
      var v := MergedValue(Find(acc, ki), Get(over, ki).value);
      PutKeys(acc, ki, v);
      FoldedFinds(Put(acc, ki, v), over, i + 1, k);
      assert k in Keys(over)[i..] <==> k == ki || k in rest;
    } else {
      assert Keys(over)[i..] == [];
    }
  }

  /** Removing one more key that does not occur changes nothing. */
  lemma {:induction false} MinusMore(xs: seq<string>, ys: seq<string>, k: string)
    requires k !in xs
    ensures Minus(xs, ys + [k]) == Minus(xs, ys)
  {
    if xs != [] {
      MinusMore(xs[1..], ys, k);
    }
  }

  /** On unique-key trees the loop of mapSet calls computes exactly the merge by key. */
  lemma {:induction false} CodeComputesMerge(base: Node, over: Node)
    requires UniqueKeys(base) && UniqueKeys(over)
    ensures MergedValue(Some(base), over) == Merge(base, over)
    decreases Size(over)
  {
    if base.Mapping? && over.Mapping? {
      var r, m := MergedValue(Some(base), over), Merge(base, over);
      MergeDistinct(base, over);
      FoldedKeys(base.pairs, over, 0);
      MergeByKey(base, over, "");
      assert Keys(over)[0..] == Keys(over);
      forall k | k in Keys(r) ensures Get(r, k) == Get(m, k) {
        FoldedFinds(base.pairs, over, 0, k);
        MergeByKey(base, over, k);
        if Get(over, k).Some? && Get(base, k).Some? {
          UniqueGet(base, k);
          UniqueGet(over, k);
          CodeComputesMerge(Get(base, k).value, Get(over, k).value);
        }
      }
      SameMapping(r, m);
    }
  }

  // ---- override wins exactly where it reaches ---------------------------------------------------

  /** Override decides this path: it has a node there, or a leaf above it. */
  predicate Reaches(over: Node, path: seq<string>) {
    path == [] || !over.Mapping? || (Get(over, path[0]).Some? && Reaches(Get(over, path[0]).value, path[1..]))
  }

  function LeafAt(n: Node, path: seq<string>): Option<Node> {
    match At(n, path)
    case None => None
    case Some(v) => if v.Mapping? then None else Some(v)
  }

  /**
    Every leaf of a merge, path by path: override's where override reaches, base's everywhere else.
   */
  lemma {:induction false} MergeLeaves(base: Node, over: Node, path: seq<string>)
    ensures LeafAt(Merge(base, over), path) == if Reaches(over, path) then LeafAt(over, path) else LeafAt(base, path)
    decreases |path|
  {
    hide Merge, Get, MergeOption;
    MergeShape(base, over);
    if !Reaches(over, path) {
      UnreachedIsEmpty(over, path);
    }
    if path != [] && over.Mapping? && base.Mapping? {
      LeafStep(base, path);
      LeafStep(over, path);
      LeafStep(Merge(base, over), path);
      MergeByKey(base, over, path[0]);
      if Get(base, path[0]).Some? && Get(over, path[0]).Some? {
        MergeLeaves(Get(base, path[0]).value, Get(over, path[0]).value, path[1..]);
      }
      OptionLeaves(Get(base, path[0]), Get(over, path[0]));
    }
  }

  lemma LeafStep(n: Node, path: seq<string>)
    requires path != []
    ensures LeafAt(n, path) == if Get(n, path[0]).Some? then LeafAt(Get(n, path[0]).value, path[1..]) else None
  {
  }

  lemma OptionLeaves(b: Option<Node>, o: Option<Node>)
    ensures MergeOption(b, o) == if b.Some? && o.Some? then Some(Merge(b.value, o.value)) else if o.Some? then o else b
  {
  }

  lemma {:induction false} UnreachedIsEmpty(over: Node, path: seq<string>)
    requires !Reaches(over, path)
    ensures At(over, path) == None
  {
    if Get(over, path[0]).Some? {
      UnreachedIsEmpty(Get(over, path[0]).value, path[1..]);
    }
  }

  // ---- absorption and idempotence ---------------------------------------------------------------

  /** over repeats all of base's structure, in base's order: its keys begin with base's, recursively. */
  predicate Covers(over: Node, base: Node)
    decreases Size(over)
  {
    base.Mapping? && over.Mapping? ==>
      && Keys(base) <= Keys(over)
      && forall k :: k in Keys(base) && k in Keys(over) ==> Covers(Get(over, k).value, Get(base, k).value)
  }

  lemma PrefixRestores(xs: seq<string>, ys: seq<string>)
    requires Distinct(ys) && xs <= ys
    ensures xs + Minus(ys, xs) == ys
  {
    var rest := ys[|xs|..];
    assert ys == xs + rest;
    forall k | k in rest ensures k !in xs {
      var i :| 0 <= i < |rest| && rest[i] == k;
      assert ys[|xs| + i] == k && forall j :: 0 <= j < |xs| ==> ys[j] == xs[j];
    }
    hide Distinct, Minus;
    MinusSplit(xs, rest, xs);
    MinusAll(xs, xs);
    MinusNone(rest, xs);
    assert [] + rest == rest;
  }

  lemma {:induction false} MinusSplit(a: seq<string>, b: seq<string>, ys: seq<string>)
    ensures Minus(a + b, ys) == Minus(a, ys) + Minus(b, ys)
  {
    if a == [] {
      assert a + b == b;
    } else {
      assert (a + b)[1..] == a[1..] + b;
      MinusSplit(a[1..], b, ys);
    }
  }

  lemma {:induction false} MinusAll(xs: seq<string>, ys: seq<string>)
    requires forall k :: k in xs ==> k in ys
    ensures Minus(xs, ys) == []
  {
    if xs != [] {
      MinusAll(xs[1..], ys);
    }
  }

  lemma {:induction false} MinusNone(xs: seq<string>, ys: seq<string>)
    requires forall k :: k in xs ==> k !in ys
    ensures Minus(xs, ys) == xs
  {
    if xs != [] {
      MinusNone(xs[1..], ys);
    }
  }

  lemma AbsorbedByKey(base: Node, over: Node)
    requires base.Mapping? && over.Mapping? && Distinct(Keys(base)) && Distinct(Keys(over))
    requires Keys(base) <= Keys(over)
    requires forall k :: k in Keys(base) && k in Keys(over) ==>
               Merge(Get(base, k).value, Get(over, k).value) == Get(over, k).value
    ensures Merge(base, over) == over
  {
    var m := Merge(base, over);
    MergeDistinct(base, over);
    MergeKeys(base, over);
    PrefixRestores(Keys(base), Keys(over));
    hide Merge, Keys, Get, Distinct, Minus;
    forall k | k in Keys(m) ensures Get(m, k) == Get(over, k) {
      MergeByKey(base, over, k);
    }
    SameMapping(m, over);
  }

  lemma AbsorbsByKey(base: Node, over: Node)
    requires base.Mapping? && over.Mapping? && Merge(base, over) == over
    ensures Keys(base) <= Keys(over)
    ensures forall k :: k in Keys(base) && k in Keys(over) ==>
              Merge(Get(base, k).value, Get(over, k).value) == Get(over, k).value
  {
    MergeKeys(base, over);
    forall k | k in Keys(base) && k in Keys(over)
      ensures Merge(Get(base, k).value, Get(over, k).value) == Get(over, k).value
    {
      MergeByKey(base, over, k);
    }
  }

  /** Merging over base gives over back exactly when over covers base. */
  lemma {:induction false} MergeAbsorbs(base: Node, over: Node)
    requires UniqueKeys(base) && UniqueKeys(over)
    ensures Merge(base, over) == over <==> Covers(over, base)
    decreases Size(over)
  {
    if base.Mapping? && over.Mapping? {
      forall k | k in Keys(base) && k in Keys(over)
        ensures Merge(Get(base, k).value, Get(over, k).value) == Get(over, k).value <==>
                  Covers(Get(over, k).value, Get(base, k).value)
      {
        UniqueGet(base, k);
        UniqueGet(over, k);
        MergeAbsorbs(Get(base, k).value, Get(over, k).value);
      }
      if Covers(over, base) {
        AbsorbedByKey(base, over);
      }
      if Merge(base, over) == over {
        AbsorbsByKey(base, over);
      }
    }
  }

  lemma {:induction false} CoversItself(n: Node)
    ensures Covers(n, n)
    decreases Size(n)
  {
    if n.Mapping? {
      forall k | k in Keys(n) ensures Covers(Get(n, k).value, Get(n, k).value) {
        CoversItself(Get(n, k).value);
      }
    }
  }

  lemma MergeIdempotent(n: Node)
    requires UniqueKeys(n)
    ensures Merge(n, n) == n
  {
    CoversItself(n);
    MergeAbsorbs(n, n);
  }

  // ---- associativity ----------------------------------------------------------------------------

  /**
    Along the keys all three trees share: wherever a and c hold mappings, b does too, or c covers a
    there (so that it makes no difference whether a's mapping is seen through b's leaf).
   */
  predicate Associates(a: Node, b: Node, c: Node)
    decreases Size(c)
  {
    a.Mapping? && c.Mapping? ==>
      if b.Mapping? then
        forall k :: k in Keys(a) && k in Keys(b) && k in Keys(c) ==>
          Associates(Get(a, k).value, Get(b, k).value, Get(c, k).value)
      else Covers(c, a)
  }

  lemma {:induction false} MinusTwice(c: seq<string>, b: seq<string>, a: seq<string>)
    ensures Minus(Minus(c, b), a) == Minus(c, a + Minus(b, a))
  {
    if c != [] {
      MinusTwice(c[1..], b, a);
      MinusSplit(if c[0] in b then [] else [c[0]], Minus(c[1..], b), a);
    }
  }

  lemma KeysAssociate(a: Node, b: Node, c: Node)
    requires a.Mapping? && b.Mapping? && c.Mapping?
    ensures Keys(Merge(Merge(a, b), c)) == Keys(Merge(a, Merge(b, c)))
  {
    hide Merge, Keys, Minus;
    MergeKeys(a, b);
    MergeKeys(b, c);
    MergeKeys(Merge(a, b), c);
    MergeKeys(a, Merge(b, c));
    var ka, kb, kc := Keys(a), Keys(b), Keys(c);
    MinusSplit(kb, Minus(kc, kb), ka);
    MinusTwice(kc, kb, ka);
  }

  /**
    Grouping of layers matters exactly where a leaf sits between two mappings: merging is
    associative on three unique-key trees if and only if they associate.
   */
  lemma {:induction false} MergeAssociatesExactly(a: Node, b: Node, c: Node)
    requires UniqueKeys(a) && UniqueKeys(b) && UniqueKeys(c)
    ensures Merge(Merge(a, b), c) == Merge(a, Merge(b, c)) <==> Associates(a, b, c)
    decreases Size(c)
  {
    if a.Mapping? && b.Mapping? && c.Mapping? {
      var l, r := Merge(Merge(a, b), c), Merge(a, Merge(b, c));
      KeysAssociate(a, b, c);
      forall k
        ensures Get(l, k) == Get(r, k) <==>
                (k in Keys(a) && k in Keys(b) && k in Keys(c) ==>
                  Associates(Get(a, k).value, Get(b, k).value, Get(c, k).value))
      {
        ValuesAssociate(a, b, c, k);
        if k in Keys(a) && k in Keys(b) && k in Keys(c) {
          UniqueGet(a, k);
          UniqueGet(b, k);
          UniqueGet(c, k);
          MergeAssociatesExactly(Get(a, k).value, Get(b, k).value, Get(c, k).value);
        }
      }
      if Associates(a, b, c) {
        MergeDistinct(a, b);
        MergeDistinct(Merge(a, b), c);
        SameMapping(l, r);
      }
    } else if a.Mapping? && c.Mapping? {
      MergeAbsorbs(a, c);
    }
  }

  lemma ValuesAssociate(a: Node, b: Node, c: Node, k: string)
    requires a.Mapping? && b.Mapping? && c.Mapping?
    ensures Get(Merge(Merge(a, b), c), k) == MergeOption(MergeOption(Get(a, k), Get(b, k)), Get(c, k))
    ensures Get(Merge(a, Merge(b, c)), k) == MergeOption(Get(a, k), MergeOption(Get(b, k), Get(c, k)))
  {
    MergeByKey(a, b, k);
    MergeByKey(b, c, k);
    MergeByKey(Merge(a, b), c, k);
    MergeByKey(a, Merge(b, c), k);
  }
}
