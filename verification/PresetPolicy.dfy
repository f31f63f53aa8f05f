/**
  When the policy declared beside a reference (on_mismatch, preset.go) makes a difference.
 */
module PresetPolicy {
  import opened Wrappers
  import opened Nodes
  import opened DeepMerge
  import opened Presets
  import opened PresetLaws
  import opened PresetComposition
  import opened PresetLayers

  /** Two sections that refer to the same presets and differ in on_mismatch at most. */
  ghost predicate SameButPolicy(v: Node, w: Node) {
    && v.Mapping? && w.Mapping? && UniqueKeys(v) && UniqueKeys(w)
    && PresetPath(v) == PresetPath(w) && PresetsList(v) == PresetsList(w) && LocalPart(v) == LocalPart(w)
  }

  // ---- beside presets: --------------------------------------------------------------------------

  /** AddEntries on a pair list. */
  function AddPairs(acc: seq<Pair>, ps: seq<Pair>, skip: set<string>, section: string): Result<seq<Pair>, Error>
    decreases |ps|
  {
    if ps == [] then Ok(acc)
    else if ps[0].key in skip then AddPairs(acc, ps[1..], skip, section)
    else if ps[0].key in PairKeys(acc) then Err(DuplicateKey(section, ps[0].key))
    else AddPairs(acc + [ps[0]], ps[1..], skip, section)
  }

  lemma {:induction false} AddEntriesIsPairs(acc: seq<Pair>, n: Node, i: nat, skip: set<string>, section: string)
    requires n.Mapping? && Distinct(Keys(n)) && i <= |Keys(n)|
    ensures AddEntries(acc, n, i, skip, section) == AddPairs(acc, n.pairs[i..], skip, section)
    decreases |Keys(n)| - i
  {
    if i < |Keys(n)| {
      var p := n.pairs[i];
      FindAt(n.pairs, i);
      hide Find, Distinct, PairKeys;
      assert n.pairs[i..][0] == p && n.pairs[i..][1..] == n.pairs[i + 1..];
      assert Keys(n)[i] == p.key && Get(n, p.key) == Some(p.value);
      AddEntriesIsPairs(acc, n, i + 1, skip, section);
      AddEntriesIsPairs(acc + [p], n, i + 1, skip, section);
    }
  }

  lemma {:induction false} AddPairsWithout(acc: seq<Pair>, ps: seq<Pair>, key: string, skip: set<string>,
      section: string)
    requires key in skip
    ensures AddPairs(acc, Without(ps, key), skip, section) == AddPairs(acc, ps, skip, section)
    decreases |ps|
  {
    hide PairKeys;
    if ps != [] {
      AddPairsWithout(acc, ps[1..], key, skip, section);
      AddPairsWithout(acc + [ps[0]], ps[1..], key, skip, section);
      if ps[0].key == key {
        assert [] + Without(ps[1..], key) == Without(ps[1..], key);
      } else {
        assert ([ps[0]] + Without(ps[1..], key))[1..] == Without(ps[1..], key);
      }
    }
  }

  /** A section contributes the same entries with and without its directives. */
  lemma OwnEntries(acc: seq<Pair>, v: Node, section: string)
    requires v.Mapping? && UniqueKeys(v)
    ensures LocalPart(v).Mapping?
    ensures AddEntries(acc, v, 0, DIRECTIVES, section) == AddPairs(acc, LocalPart(v).pairs, DIRECTIVES, section)
  {
    hide AddEntries, AddPairs, Without, WithoutKey, Distinct;
    WithoutKeyIs(v, "preset");
    WithoutKeyIs(WithoutKey(v, "preset"), "on_mismatch");
    AddEntriesIsPairs(acc, v, 0, DIRECTIVES, section);
    assert v.pairs[0..] == v.pairs;
    AddPairsWithout(acc, v.pairs, "preset", DIRECTIVES, section);
    AddPairsWithout(acc, Without(v.pairs, "preset"), "on_mismatch", DIRECTIVES, section);
  }

  /** Composition from a presets: list takes no notice of on_mismatch, whatever the loader. */
  lemma {:induction false} ComposeMapIgnoresPolicy(
      presets: seq<string>, section: string, v: Node, w: Node, l: Loader, seen: set<string>, acc: seq<Pair>)
    requires SameButPolicy(v, w)
    ensures ComposeMap(presets, section, v, l, seen, acc) == ComposeMap(presets, section, w, l, seen, acc)
    decreases |presets|
  {
    if presets == [] {
      hide LocalPart, AddEntries;
      OwnEntries(acc, v, section);
      OwnEntries(acc, w, section);
    } else {
      hide SameButPolicy, AddEntries, LoadNavigated;
      var parts := Split(section, '.');
      var n := LoadNavigated(l, seen, presets[0], parts[0], parts[1..]);
      if n.Ok? && n.value.Mapping? {
        var more := AddEntries(acc, n.value, 0, {}, section);
        if more.Ok? {
          ComposeMapIgnoresPolicy(presets[1..], section, v, w, l, seen, more.value);
        }
      } else if n.Ok? {
        ComposeMapIgnoresPolicy(presets[1..], section, v, w, l, seen, acc);
      }
    }
  }

  lemma {:induction false} ComposeListIgnoresPolicy(
      presets: seq<string>, section: string, v: Node, w: Node, l: Loader, seen: set<string>, acc: seq<Node>)
    requires SameButPolicy(v, w)
    ensures ComposeList(presets, section, v, l, seen, acc) == ComposeList(presets, section, w, l, seen, acc)
    decreases |presets|
  {
    if presets == [] {
      hide SameButPolicy;
      SameOwnItems(v, w);
      SameItems(section, v, w, l, seen, acc);
    } else {
      hide SameButPolicy;
      ComposeListStep(presets, section, v, l, seen, acc);
      ComposeListStep(presets, section, w, l, seen, acc);
      hide ComposeList, Contribution, AppendItems, AllLoad, ListLayers;
      var n := Contribution(l, seen, section, presets[0]);
      if n.Ok? {
        var more := AppendItems(acc, if n.value.Sequence? then n.value.items else [], section);
        if more.Ok? {
          ComposeListIgnoresPolicy(presets[1..], section, v, w, l, seen, more.value);
        }
      } else {
        SameFailure(presets, section, v, w, l, seen, acc);
      }
    }
  }

  lemma SameOwnItems(v: Node, w: Node)
    requires SameButPolicy(v, w)
    ensures Get(v, "items") == Get(w, "items")
  {
    LocalPartExactly(v);
    LocalPartExactly(w);
    hide LocalPart, Get, PresetPath, PresetsList, UniqueKeys, Keys;
    assert "items" !in {"preset", "on_mismatch"};
    assert Get(LocalPart(v), "items") == Get(v, "items");
    assert Get(LocalPart(w), "items") == Get(w, "items");
  }

  lemma SameItems(section: string, v: Node, w: Node, l: Loader, seen: set<string>, acc: seq<Node>)
    requires Get(v, "items") == Get(w, "items")
    ensures ComposeList([], section, v, l, seen, acc) == ComposeList([], section, w, l, seen, acc)
  {
    hide Get, AppendItems;
  }

  lemma SameFailure(presets: seq<string>, section: string, v: Node, w: Node, l: Loader, seen: set<string>,
      acc: seq<Node>)
    requires presets != [] && Contribution(l, seen, section, presets[0]).Err?
    ensures ComposeList(presets, section, v, l, seen, acc) == ComposeList(presets, section, w, l, seen, acc)
  {
    hide LoadNavigated, Split, Get;
  }

  // ---- beside a preset file's own reference -----------------------------------------------------

  /** The policy at the top of a preset file, beside its reference to the next, is never looked at. */
  lemma ChainedPolicyIgnored(top: string, v: Node, w: Node, l: Loader, seen: set<string>, current: string)
    requires PresetPath(v) == PresetPath(w) && PresetPath(v).Some? && LocalPart(v) == LocalPart(w)
    ensures ResolveLoaded(top, v, l, seen, current) == ResolveLoaded(top, w, l, seen, current)
  {
    hide PresetPath, LocalPart, ResolveChained, Resolve, MergedValue, Get;
  }

  // ---- beside a section's own preset: -----------------------------------------------------------

  /** A loader that knows one preset, under one policy only. */
  function Picky(path: string, policy: string, key: string): Loader {
    Loader({path}, (p, q) => if q == policy then Some(Mapping([Pair(key, Scalar(""))])) else None)
  }

  lemma PickyTells(key: string, v: Node, w: Node, seen: set<string>, current: string)
    requires SameButPolicy(v, w) && current != "governance"
    requires PresetPath(v).Some? && PresetsList(v).None? && PresetPath(v).value !in seen && Policy(v) != Policy(w)
    ensures var l := Picky(PresetPath(v).value, Policy(v), key);
            ResolveKey(key, v, l, seen, current).Ok? && ResolveKey(key, w, l, seen, current).Err?
  {
    var path := PresetPath(v).value;
    var l := Picky(path, Policy(v), key);
    var doc := Mapping([Pair(key, Scalar(""))]);
    assert PairKeys(doc.pairs) == [key] && Get(doc, key) == Some(Scalar(""));
    assert l.load(path, Policy(v)) == Some(doc) && l.load(path, Policy(w)) == None;
    hide LocalPart, Policy;
    assert LoadPreset(l, path, Policy(v)) == Ok((key, Scalar("")));
    assert LoadPreset(l, path, Policy(w)).Err?;
  }

  /**
    When on_mismatch makes a difference in a section that refers to presets: over all loaders, exactly
    if it stands beside a preset: that is followed, alone and not on the stack. Beside presets:, or
    beside both directives, it makes none. This holds for every section the resolver reaches, in a
    configuration and inside a preset file; the top of a preset file is no section of that kind.
   */
  lemma PolicyCountsExactly(key: string, v: Node, w: Node, seen: set<string>, current: string)
    requires SameButPolicy(v, w) && current != "governance" && (PresetPath(v).Some? || PresetsList(v).Some?)
    ensures (forall l :: ResolveKey(key, v, l, seen, current) == ResolveKey(key, w, l, seen, current))
            <==> Policy(v) == Policy(w) || PresetsList(v).Some? || PresetPath(v).value in seen
  {
    hide SameButPolicy;
    if Policy(v) == Policy(w) || PresetsList(v).Some? || PresetPath(v).value in seen {
      forall l ensures ResolveKey(key, v, l, seen, current) == ResolveKey(key, w, l, seen, current) {
        if PresetsList(v).Some? {
          ListsIgnorePolicy(key, v, w, l, seen, current);
        } else {
          SamePolicySameResult(key, v, w, l, seen, current);
        }
      }
    } else {
      PickyTells(key, v, w, seen, current);
    }
  }

  lemma ListsIgnorePolicy(key: string, v: Node, w: Node, l: Loader, seen: set<string>, current: string)
    requires SameButPolicy(v, w) && PresetsList(v).Some?
    ensures current != "governance" ==> ResolveKey(key, v, l, seen, current) == ResolveKey(key, w, l, seen, current)
  {
    hide ComposeMap, ComposeList, LocalPart, PresetPath, PresetsList, UniqueKeys, ResolvePreset, Resolve;
    ComposeMapIgnoresPolicy(PresetsList(v).value, current, v, w, l, seen, []);
    ComposeListIgnoresPolicy(PresetsList(v).value, current, v, w, l, seen, []);
  }

  lemma SamePolicySameResult(key: string, v: Node, w: Node, l: Loader, seen: set<string>, current: string)
    requires SameButPolicy(v, w) && PresetPath(v).Some? && PresetsList(v).None?
    requires Policy(v) == Policy(w) || PresetPath(v).value in seen
    ensures current != "governance" ==> ResolveKey(key, v, l, seen, current) == ResolveKey(key, w, l, seen, current)
  {
    hide LocalPart, PresetPath, PresetsList, Policy, UniqueKeys, LoadPreset, ResolveLoaded, Resolve, MergedValue, Keys;
  }

  // ---- inputs that fail -------------------------------------------------------------------------

  /** { preset: path, on_mismatch: policy } */
  function WithPolicy(path: string, policy: string): Node {
    Mapping([Pair("preset", Scalar(path)), Pair("on_mismatch", Scalar(policy))])
  }

  lemma WithPolicyReads(path: string, policy: string)
    requires path != ""
    ensures var s := WithPolicy(path, policy);
            PresetPath(s) == Some(path) && Policy(s) == policy && LocalPart(s) == Mapping([])
  {
    var s := WithPolicy(path, policy);
    WithPolicyUnique(path, policy);
    hide UniqueKeys;
    LocalPartExactly(s);
    assert Keys(LocalPart(s)) == [];
  }

  lemma WithPolicyUnique(path: string, policy: string)
    ensures var s := WithPolicy(path, policy);
            && UniqueKeys(s) && Keys(s) == ["preset", "on_mismatch"]
            && Get(s, "preset") == Some(Scalar(path)) && Get(s, "on_mismatch") == Some(Scalar(policy))
  {
    var s := WithPolicy(path, policy);
    var tail := s.pairs[1..];
    assert tail == [Pair("on_mismatch", Scalar(policy))] && tail[1..] == [];
    assert PairKeys(tail) == ["on_mismatch"] && PairKeys(s.pairs) == ["preset", "on_mismatch"];
    assert Find(tail, "on_mismatch") == Some(Scalar(policy));
    assert UniqueKeys(Scalar(path)) && UniqueKeys(Scalar(policy)) && UniqueValues([]);
    assert UniqueValues(tail);
  }

  /**
    The policy declared beside a reference is honoured in a configuration section and ignored in a
    preset file: a preset that only loads under the default policy is refused for the one and resolved
    for the other.
   */
  lemma InnerPolicyIgnored(l: Loader, top: string, inner: string, policy: string, value: Node, seen: set<string>,
      current: string)
    requires inner != "" && inner !in seen && top != "governance" && value.Mapping? && UniqueKeys(value) &&
               !HasPresetKey(value)
    requires LoadPreset(l, inner, "") == Ok((top, value)) && LoadPreset(l, inner, policy).Err?
    ensures ResolvePreset(top, WithPolicy(inner, policy), inner, l, seen, current).Err?
    ensures ResolveLoaded(top, WithPolicy(inner, policy), l, seen, current) == Ok(value)
  {
    WithPolicyReads(inner, policy);
    NoDirective(value);
    PresetFreeIsIdentity(value, l, seen + {inner}, top);
    assert Linked(l, top, inner, "", [], seen);
    assert Stacked(l, top, inner, "", [], seen, top) == Ok(value);
    hide LocalPart, MergedValue, Linked, Stacked;
    ChainedResolves(l, top, inner, [], seen);
    NothingResolves(l, seen, current);
    MergedWithNothing(value);
  }

  /** { presets: [path], on_mismatch: policy } */
  function ListWithPolicy(path: string, policy: string): Node {
    Mapping([Pair("presets", Sequence([Scalar(path)])), Pair("on_mismatch", Scalar(policy))])
  }

  /**
    Beside presets: as well: stencils composed from a preset that does not load under the declared
    policy resolve all the same.
   */
  lemma ComposedPolicyIgnored(l: Loader, path: string, policy: string, seen: set<string>)
    requires path != "" && path !in seen
    requires LoadPreset(l, path, "") == Ok(("stencils", Mapping([]))) && LoadPreset(l, path, policy).Err?
    ensures Policy(ListWithPolicy(path, policy)) == policy
    ensures ResolveKey("stencils", ListWithPolicy(path, policy), l, seen, "stencils") == Ok(Mapping([]))
  {
    var s := ListWithPolicy(path, policy);
    hide ComposeMap, PresetsList, PresetPath, Policy, ResolveKey, LoadPreset, Split, Keys;
    ListWithPolicyReads(path, policy);
    NoDots("stencils");
    OnePreset(l, path, s, seen);
    hide ComposeMap, ListWithPolicy, PresetsList, PresetPath, Policy, ResolveKey, LoadPreset, Split;
    StencilsAreKeyed();
    KeyedMapResolves("stencils", s, l, seen, "stencils");
  }

  lemma StencilsAreKeyed()
    ensures "stencils" !in KEYED_LISTS && "stencils" in KEYED_MAPS && "stencils" != "governance"
  {
  }

  lemma KeyedMapResolves(key: string, v: Node, l: Loader, seen: set<string>, current: string)
    requires current !in KEYED_LISTS && current in KEYED_MAPS && current != "governance"
    requires v.Mapping? && PresetsList(v).Some? && PresetPath(v).None?
    ensures ResolveKey(key, v, l, seen, current) == ComposeMap(PresetsList(v).value, current, v, l, seen, [])
  {
    hide ComposeMap, ComposeList, PresetsList, PresetPath, ResolvePreset, Resolve;
  }

  lemma ListWithPolicyReads(path: string, policy: string)
    requires path != ""
    ensures var s := ListWithPolicy(path, policy);
            && PresetsList(s) == Some([path]) && PresetPath(s) == None && Policy(s) == policy
            && Keys(s) == ["presets", "on_mismatch"]
  {
    var s := ListWithPolicy(path, policy);
    var items := [Scalar(path)];
    assert items[1..] == [] && Values(items) == [path];
    var tail := s.pairs[1..];
    assert tail == [Pair("on_mismatch", Scalar(policy))] && tail[1..] == [];
    assert PairKeys(tail) == ["on_mismatch"] && PairKeys(s.pairs) == ["presets", "on_mismatch"];
    assert Find(tail, "on_mismatch") == Some(Scalar(policy));
    assert Get(s, "presets") == Some(Sequence(items)) && Get(s, "preset") == None;
  }

  /** One preset that loads as an empty mapping, and no own keys. */
  lemma OnePreset(l: Loader, path: string, s: Node, seen: set<string>)
    requires path !in seen && LoadPreset(l, path, "") == Ok(("stencils", Mapping([])))
    requires Split("stencils", '.') == ["stencils"] && Keys(s) == ["presets", "on_mismatch"]
    ensures ComposeMap([path], "stencils", s, l, seen, []) == Ok(Mapping([]))
  {
    hide LoadPreset, Get, Keys, Split;
    assert ["stencils"][1..] == [] && [path][1..] == [];
    assert LoadNavigated(l, seen, path, "stencils", []) == Ok(Mapping([]));
    NoKeys(Mapping([]));
    assert AddEntries([], Mapping([]), 0, {}, "stencils") == Ok([]);
    assert AddEntries([], s, 1, DIRECTIVES, "stencils") == AddEntries([], s, 2, DIRECTIVES, "stencils") == Ok([]);
    assert AddEntries([], s, 0, DIRECTIVES, "stencils") == Ok([]);
    hide AddEntries, LoadNavigated;
    assert ComposeMap([], "stencils", s, l, seen, []) == Ok(Mapping([]));
  }

  lemma NoKeys(n: Node)
    ensures n == Mapping([]) ==> Keys(n) == []
  {
  }

  lemma {:induction false} NoDots(s: string)
    requires '.' !in s
    ensures Split(s, '.') == [s]
  {
    if s != "" {
      NoDots(s[1..]);
      assert [s[0]] + s[1..] == s;
    }
  }
}
