/**
  Order-preserving YAML nodes and the accessor kit the preset layer runs on (preset.go).
 */
module Nodes {
  import opened Wrappers

  datatype Pair = Pair(key: string, value: Node)

  datatype Node = Scalar(value: string) | Sequence(items: seq<Node>) | Mapping(pairs: seq<Pair>)

  // ---- size, for termination --------------------------------------------------------------------

  function Size(n: Node): nat {
    match n
    case Scalar(_) => 1
    case Sequence(_) => 1
    case Mapping(ps) => 1 + PairsSize(ps)
  }

  function PairsSize(ps: seq<Pair>): nat {
    if ps == [] then 0 else 1 + Size(ps[0].value) + PairsSize(ps[1..])
  }

  // ---- reading ----------------------------------------------------------------------------------

  function PairKeys(ps: seq<Pair>): (ks: seq<string>)
    ensures |ks| == |ps| && forall i :: 0 <= i < |ps| ==> ks[i] == ps[i].key
  {
    if ps == [] then [] else [ps[0].key] + PairKeys(ps[1..])
  }

  /** mapKeys: a mapping's keys in document order, nothing for any other node. */
  function Keys(n: Node): seq<string> {
    if n.Mapping? then PairKeys(n.pairs) else []
  }

  function Find(ps: seq<Pair>, key: string): (r: Option<Node>)
    ensures r.Some? <==> key in PairKeys(ps)
    ensures r.Some? ==> Size(r.value) < PairsSize(ps)
    ensures r.Some? ==> exists i :: 0 <= i < |ps| && ps[i] == Pair(key, r.value)
  {
    if ps == [] then None
    else if ps[0].key == key then Some(ps[0].value)
    else
      var r := Find(ps[1..], key);
      assert r.Some? ==> forall i :: 0 <= i < |ps| - 1 ==> ps[i + 1] == ps[1..][i];
      r
  }

  /** mapGet: the first value under key. */
  function Get(n: Node, key: string): (r: Option<Node>)
    ensures r.Some? <==> key in Keys(n)
    ensures r.Some? ==> n.Mapping? && Size(r.value) < Size(n)
  {
    if n.Mapping? then Find(n.pairs, key) else None
  }

  /** The node a key path leads to. */
  function At(n: Node, path: seq<string>): Option<Node> {
    if path == [] then Some(n)
    else
      match Get(n, path[0])
      case None => None
      case Some(v) => At(v, path[1..])
  }

  // ---- unique keys ------------------------------------------------------------------------------

  predicate Distinct(ks: seq<string>) {
    forall i, j :: 0 <= i < j < |ks| ==> ks[i] != ks[j]
  }

  /** No mapping below n, outside sequences, repeats a key. */
  predicate UniqueKeys(n: Node)
    decreases Size(n)
  {
    n.Mapping? ==> Distinct(PairKeys(n.pairs)) && UniqueValues(n.pairs)
  }

  predicate UniqueValues(ps: seq<Pair>)
    decreases PairsSize(ps)
  {
    ps != [] ==> UniqueKeys(ps[0].value) && UniqueValues(ps[1..])
  }

  lemma {:induction false} UniqueBelow(ps: seq<Pair>, i: nat)
    requires UniqueValues(ps) && i < |ps|
    ensures UniqueKeys(ps[i].value)
  {
    if i > 0 {
      UniqueBelow(ps[1..], i - 1);
    }
  }

  lemma UniqueGet(n: Node, key: string)
    requires UniqueKeys(n) && Get(n, key).Some?
    ensures UniqueKeys(Get(n, key).value)
  {
    var i :| 0 <= i < |n.pairs| && n.pairs[i] == Pair(key, Get(n, key).value);
    UniqueBelow(n.pairs, i);
  }

  lemma {:induction false} FindAt(ps: seq<Pair>, i: nat)
    requires i < |ps| && Distinct(PairKeys(ps))
    ensures Find(ps, ps[i].key) == Some(ps[i].value)
  {
    if i > 0 {
      assert PairKeys(ps)[0] != PairKeys(ps)[i];
      assert PairKeys(ps[1..]) == PairKeys(ps)[1..];
      FindAt(ps[1..], i - 1);
    }
  }

  /** A unique-key mapping is determined by its key order and what each key holds. */
  lemma SameMapping(a: Node, b: Node)
    requires a.Mapping? && b.Mapping? && Distinct(Keys(a)) && Keys(a) == Keys(b)
    requires forall k :: k in Keys(a) ==> Get(a, k) == Get(b, k)
    ensures a == b
  {
    forall i | 0 <= i < |a.pairs| ensures a.pairs[i] == b.pairs[i] {
      FindAt(a.pairs, i);
      FindAt(b.pairs, i);
      assert Keys(a)[i] == Keys(b)[i];
      assert Get(a, Keys(a)[i]) == Get(b, Keys(a)[i]);
    }
  }

  // ---- writing ----------------------------------------------------------------------------------

  /** mapSet: the first pair under key gets the value, or a new pair is appended. */
  function Put(ps: seq<Pair>, key: string, value: Node): seq<Pair> {
    if ps == [] then [Pair(key, value)]
    else if ps[0].key == key then [Pair(key, value)] + ps[1..]
    else [ps[0]] + Put(ps[1..], key, value)
  }

  lemma {:induction false} PutKeys(ps: seq<Pair>, key: string, value: Node)
    ensures PairKeys(Put(ps, key, value)) == if key in PairKeys(ps) then PairKeys(ps) else PairKeys(ps) + [key]
    ensures forall k :: Find(Put(ps, key, value), k) == if k == key then Some(value) else Find(ps, k)
  {
    if ps != [] {
      PutKeys(ps[1..], key, value);
      var r := Put(ps, key, value);
      if ps[0].key == key {
        assert r[1..] == ps[1..];
      } else {
        assert r[1..] == Put(ps[1..], key, value);
        assert PairKeys(r) == [ps[0].key] + PairKeys(r[1..]);
      }
    }
  }

  /** Where Put writes: at the first pair under key, or at the end. */
  lemma {:induction false} PutAt(ps: seq<Pair>, i: nat, key: string, value: Node)
    requires i <= |ps| && forall j :: 0 <= j < i ==> ps[j].key != key
    requires i < |ps| ==> ps[i].key == key
    ensures Put(ps, key, value) == if i < |ps| then ps[i := Pair(key, value)] else ps + [Pair(key, value)]
  {
    if i > 0 {
      PutAt(ps[1..], i - 1, key, value);
      assert ps == [ps[0]] + ps[1..];
    }
  }

  /** A mapping under construction: the only node the code changes in place. */
  class MappingNode {
    var pairs: seq<Pair>

    constructor (pairs: seq<Pair>)
      ensures this.pairs == pairs
    {
      this.pairs := pairs;
    }

    method Set(key: string, value: Node)
      modifies this
      ensures pairs == Put(old(pairs), key, value)
    {
      for i := 0 to |pairs|
        invariant pairs == old(pairs)
        invariant forall j :: 0 <= j < i ==> pairs[j].key != key
      {
        if pairs[i].key == key {
          PutAt(pairs, i, key, value);
          pairs := pairs[i := Pair(key, value)];
          return;
        }
      }
      PutAt(pairs, |pairs|, key, value);
      pairs := pairs + [Pair(key, value)];
    }
  }
}
