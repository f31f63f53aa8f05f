/**
  DeepMerge on nodes as the code has them: heap objects that a merge result shares with its inputs
  (cloneShallow, mapGet, mapSet and DeepMerge of preset.go).
 */
module NodeHeap {
  import opened Wrappers
  import opened Nodes
  import opened DeepMerge

  datatype Kind = ScalarKind | SequenceKind | MappingKind

  /** A mapping has one key for each content node, the other kinds have none. */
  class YamlNode {
    var kind: Kind
    var value: string
    var keys: seq<string>
    var content: seq<YamlNode>

    /** cloneShallow: an own pair list over shared value nodes. */
    constructor Clone(m: YamlNode)
      ensures kind == MappingKind && keys == m.keys && content == m.content
    {
      kind := MappingKind;
      value := "";
      keys := m.keys;
      content := m.content;
    }

    /** mapGet */
    method Lookup(key: string) returns (found: Option<YamlNode>)
      requires |keys| == |content|
      ensures found == if First(keys, key) < |keys| then Some(content[First(keys, key)]) else None
    {
      for i := 0 to |keys|
        invariant i <= First(keys, key)
      {
        if keys[i] == key {
          return Some(content[i]);
        }
      }
      return None;
    }

    /** mapSet */
    method Set(key: string, node: YamlNode)
      requires |keys| == |content|
      modifies this
      ensures kind == old(kind)
      ensures var i := First(old(keys), key);
              if i < |old(keys)| then keys == old(keys) && content == old(content)[i := node]
              else keys == old(keys) + [key] && content == old(content) + [node]
    {
      for i := 0 to |keys|
        invariant i <= First(keys, key) && keys == old(keys) && content == old(content) && kind == old(kind)
      {
        if keys[i] == key {
          content := content[i := node];
          return;
        }
      }
      keys, content := keys + [key], content + [node];
    }
  }

  /** The first position of key, |ks| if there is none. */
  function First(ks: seq<string>, key: string): (i: nat)
    ensures i <= |ks| && (i < |ks| ==> ks[i] == key) && forall j :: 0 <= j < i ==> ks[j] != key
  {
    if ks == [] || ks[0] == key then 0 else 1 + First(ks[1..], key)
  }

  /** n and everything below it lie in the region and spell out the tree t; nodes may be shared. */
  ghost predicate Holds(n: YamlNode, t: Node, region: set<YamlNode>)
    reads region
    decreases t
  {
    && n in region
    && match t
       case Scalar(v) => n.kind == ScalarKind && n.value == v
       case Sequence(items) =>
         && n.kind == SequenceKind && |n.content| == |items|
         && forall i :: 0 <= i < |items| ==> Holds(n.content[i], items[i], region)
       case Mapping(ps) => n.kind == MappingKind && HoldsPairs(n.keys, n.content, ps, region)
  }

  ghost predicate HoldsPairs(keys: seq<string>, content: seq<YamlNode>, ps: seq<Pair>, region: set<YamlNode>)
    reads region
    decreases ps
  {
    && |keys| == |content| == |ps|
    && forall i :: 0 <= i < |ps| ==> keys[i] == ps[i].key && Holds(content[i], ps[i].value, region)
  }

  lemma {:induction false} HoldsInMore(n: YamlNode, t: Node, region: set<YamlNode>, more: set<YamlNode>)
    requires Holds(n, t, region) && region <= more
    ensures Holds(n, t, more)
    decreases t
  {
    match t
    case Scalar(_) =>
    case Sequence(items) =>
      forall i | 0 <= i < |items| ensures Holds(n.content[i], items[i], more) {
        HoldsInMore(n.content[i], items[i], region, more);
      }
    case Mapping(ps) => PairsHoldInMore(n.keys, n.content, ps, region, more);
  }

  lemma {:induction false} PairsHoldInMore(keys: seq<string>, content: seq<YamlNode>, ps: seq<Pair>,
      region: set<YamlNode>, more: set<YamlNode>)
    requires HoldsPairs(keys, content, ps, region) && region <= more
    ensures HoldsPairs(keys, content, ps, more)
    decreases ps
  {
    forall i | 0 <= i < |ps| ensures Holds(content[i], ps[i].value, more) {
      HoldsInMore(content[i], ps[i].value, region, more);
    }
  }

  /** What the node operations find and change, in terms of the trees they spell out. */
  lemma {:induction false} FirstFinds(ps: seq<Pair>, key: string)
    ensures var i := First(PairKeys(ps), key);
            Find(ps, key) == if i < |ps| then Some(ps[i].value) else None
  {
    hide Size, PairsSize, PairKeys;
    assert ps != [] ==> PairKeys(ps)[1..] == PairKeys(ps[1..]);
    if ps != [] && ps[0].key != key {
      FirstFinds(ps[1..], key);
    }
  }

  lemma SetHolds(keys: seq<string>, content: seq<YamlNode>, ps: seq<Pair>, region: set<YamlNode>, key: string,
      node: YamlNode, value: Node)
    requires HoldsPairs(keys, content, ps, region) && Holds(node, value, region)
    ensures var i := First(keys, key);
            if i < |keys| then HoldsPairs(keys, content[i := node], Put(ps, key, value), region)
            else HoldsPairs(keys + [key], content + [node], Put(ps, key, value), region)
  {
    hide Put, Holds, First;
    var i := First(keys, key);
    forall j | 0 <= j < i ensures ps[j].key != key {
      assert keys[j] == ps[j].key;
    }
    PutAt(ps, i, key, value);
  }

  /**
    DeepMerge: the result spells out the merged tree, built of shared old nodes and fresh mappings; no
    old node changes, so both inputs, and whatever else shares their nodes, are what they were.
   */
  method MergeNodes(base: YamlNode, over: YamlNode, ghost b: Node, ghost o: Node, ghost region: set<YamlNode>)
    returns (r: YamlNode, ghost added: set<YamlNode>)
    requires Holds(base, b, region) && Holds(over, o, region)
    ensures fresh(added)
    ensures Holds(r, MergedValue(Some(b), o), region + added)
    ensures unchanged(region) && Holds(base, b, region) && Holds(over, o, region)
    decreases Size(o), 1
  {
    hide Folded, Find, Put, Holds, HoldsPairs, Keys, Get, PairKeys, MergedValue;
    KindMeansMapping(base, b, region);
    KindMeansMapping(over, o, region);
    if base.kind != MappingKind || over.kind != MappingKind {
      assert region + {} == region;
      ReplacedValue(Some(b), o);
      return over, {};
    }
    var result := new YamlNode.Clone(base);
    added := {};
    ghost var acc := b.pairs;
    var keys := over.keys;
    SameKeys(over, o, region);
    SameKeys(base, b, region);
    assert region + added == region;
    for i := 0 to |keys|
      invariant fresh(added) && fresh(result) && result !in region + added && result.kind == MappingKind
      invariant unchanged(region)
      invariant HoldsPairs(result.keys, result.content, acc, region + added)
      invariant Folded(acc, o, i) == Folded(b.pairs, o, 0)
    {
      HoldsInMore(over, o, region, region + added);
      var v, more := MergedEntry(result, over, keys[i], acc, o, region + added);
      FoldStep(acc, o, i);
      Regrouped(region, added, more);
      added := added + more;
      ghost var value := MergedValue(Find(acc, keys[i]), Get(o, keys[i]).value);
      Place(result, keys[i], v, acc, value, region + added);
      acc := Put(acc, keys[i], value);
    }
    r := result;
    PairsHoldInMore(result.keys, result.content, acc, region + added, region + added + {result});
    Regrouped(region, added, {result});
    added := added + {result};
    AllMerged(result, acc, b, o, region + added);
  }

  lemma AllMerged(result: YamlNode, acc: seq<Pair>, b: Node, o: Node, region: set<YamlNode>)
    requires result in region && result.kind == MappingKind && HoldsPairs(result.keys, result.content, acc, region)
    requires b.Mapping? && o.Mapping? && Folded(acc, o, |Keys(o)|) == Folded(b.pairs, o, 0)
    ensures Holds(result, MergedValue(Some(b), o), region)
  {
  }

  /** The new value of one key of override: mappings merge, anything else replaces. */
  method MergedEntry(result: YamlNode, over: YamlNode, k: string, ghost acc: seq<Pair>, ghost o: Node,
      ghost region: set<YamlNode>)
    returns (v: YamlNode, ghost more: set<YamlNode>)
    requires Holds(over, o, region) && over.kind == MappingKind && k in Keys(o)
    requires result !in region && HoldsPairs(result.keys, result.content, acc, region)
    ensures fresh(more)
    ensures Holds(v, MergedValue(Find(acc, k), Get(o, k).value), region + more)
    ensures HoldsPairs(result.keys, result.content, acc, region + more)
    decreases Size(o), 0
  {
    SameKeys(over, o, region);
    LookupsHold(over.keys, over.content, o.pairs, region, k);
    LookupsHold(result.keys, result.content, acc, region, k);
    ghost var ot, bt := Get(o, k).value, Find(acc, k);
    hide Find, Put, Holds, HoldsPairs, Keys, PairKeys, Get, MergedValue, First;
    var ov := over.Lookup(k);
    var bv := result.Lookup(k);
    KindMeansMapping(ov.value, ot, region);
    if bv.Some? {
      KindMeansMapping(bv.value, bt.value, region);
    }
    if bv.Some? && bv.value.kind == MappingKind && ov.value.kind == MappingKind {
      v, more := MergeNodes(bv.value, ov.value, bt.value, ot, region);
      PairsHoldInMore(result.keys, result.content, acc, region, region + more);
    } else {
      v, more := ov.value, {};
      assert region + more == region;
      ReplacedValue(bt, ot);
    }
  }

  /** mapSet on the fresh result: its pairs spell out the updated list. */
  method Place(result: YamlNode, k: string, v: YamlNode, ghost acc: seq<Pair>, ghost value: Node,
      ghost region: set<YamlNode>)
    requires result !in region && HoldsPairs(result.keys, result.content, acc, region) && Holds(v, value, region)
    modifies result
    ensures result.kind == old(result.kind)
    ensures HoldsPairs(result.keys, result.content, Put(acc, k, value), region)
  {
    hide Put, Holds, First;
    SetHolds(result.keys, result.content, acc, region, k, v, value);
    result.Set(k, v);
  }

  lemma ReplacedValue(b: Option<Node>, o: Node)
    requires !(b.Some? && b.value.Mapping? && o.Mapping?)
    ensures MergedValue(b, o) == o
  {
  }

  lemma Regrouped(a: set<YamlNode>, b: set<YamlNode>, c: set<YamlNode>)
    ensures a + b + c == a + (b + c)
  {
  }

  lemma KindMeansMapping(n: YamlNode, t: Node, region: set<YamlNode>)
    requires Holds(n, t, region)
    ensures n.kind == MappingKind <==> t.Mapping?
  {
  }

  lemma SameKeys(n: YamlNode, t: Node, region: set<YamlNode>)
    requires Holds(n, t, region) && n.kind == MappingKind
    ensures t.Mapping? && n.keys == Keys(t) && HoldsPairs(n.keys, n.content, t.pairs, region)
  {
  }

  /** What mapGet returns spells out what the tree has under the key. */
  lemma LookupsHold(keys: seq<string>, content: seq<YamlNode>, ps: seq<Pair>, region: set<YamlNode>, key: string)
    requires HoldsPairs(keys, content, ps, region)
    ensures var i := First(keys, key);
            |keys| == |content| &&
            if i < |keys| then Find(ps, key).Some? && Holds(content[i], Find(ps, key).value, region)
              else Find(ps, key).None?
  {
    assert keys == PairKeys(ps);
    FirstFinds(ps, key);
  }
}
