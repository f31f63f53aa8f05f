/**
  What a chain of presets means: each file refers to the next, and the resolved section is the last
  file's value with every nearer layer merged over it, the section's own keys on top.
 */
module PresetLayers {
  import opened Wrappers
  import opened Nodes
  import opened DeepMerge
  import opened Presets
  import opened PresetLaws
  import opened PresetComposition

  // ---- the local part of a section --------------------------------------------------------------

  /** The pairs of every other key. */
  function Without(ps: seq<Pair>, key: string): seq<Pair> {
    if ps == [] then [] else (if ps[0].key == key then [] else [ps[0]]) + Without(ps[1..], key)
  }

  lemma {:induction false} WithoutKeys(ps: seq<Pair>, key: string)
    ensures PairKeys(Without(ps, key)) == Minus(PairKeys(ps), [key])
    ensures forall k :: Find(Without(ps, key), k) == if k == key then None else Find(ps, k)
  {
    hide Find;
    assert forall k :: Find([], k) == None by { FindNothing(); }
    if ps != [] {
      WithoutKeys(ps[1..], key);
      forall k ensures Find(Without(ps, key), k) == if k == key then None else Find(ps, k) {
        FindStep(ps, k);
        if ps[0].key != key {
          FindStep([ps[0]] + Without(ps[1..], key), k);
        } else {
          assert [] + Without(ps[1..], key) == Without(ps[1..], key);
        }
      }
      if ps[0].key != key {
        assert ([ps[0]] + Without(ps[1..], key))[1..] == Without(ps[1..], key);
      }
    }
  }

  lemma FindNothing()
    ensures forall k :: Find([], k) == None
  {
  }

  lemma FindStep(ps: seq<Pair>, k: string)
    requires ps != []
    ensures Find(ps, k) == if ps[0].key == k then Some(ps[0].value) else Find(ps[1..], k)
  {
  }

  lemma {:induction false} WithoutUnique(ps: seq<Pair>, key: string)
    requires UniqueValues(ps)
    ensures UniqueValues(Without(ps, key))
  {
    if ps != [] {
      WithoutUnique(ps[1..], key);
      assert ([ps[0]] + Without(ps[1..], key))[1..] == Without(ps[1..], key) == [] + Without(ps[1..], key);
    }
  }

  /** None of the keys is in use yet. */
  ghost predicate Fresh(acc: seq<Pair>, ks: seq<string>) {
    forall p <- acc :: p.key !in ks
  }

  lemma StillFresh(acc: seq<Pair>, p: Pair, ks: seq<string>, i: nat)
    requires i < |ks| && Distinct(ks) && ks[i] == p.key && Fresh(acc, ks[i..])
    ensures Fresh(acc, ks[i + 1..]) && Fresh(acc + [p], ks[i + 1..])
  {
    assert ks[i..][1..] == ks[i + 1..];
    assert p.key !in ks[i + 1..];
    assert forall q <- acc :: q.key !in ks[i..];
  }

  lemma {:induction false} WithoutFromIs(n: Node, key: string, i: nat, acc: seq<Pair>)
    requires n.Mapping? && Distinct(Keys(n)) && i <= |Keys(n)|
    requires Fresh(acc, Keys(n)[i..])
    ensures WithoutFrom(n, key, i, acc) == Mapping(acc + Without(n.pairs[i..], key))
    decreases |Keys(n)| - i
  {
    hide Put, Find, Distinct, WithoutFrom, Without, Fresh, PairKeys;
    WithoutFromStep(n, key, i, acc);
    if i < |Keys(n)| {
      var p := n.pairs[i];
      StillFresh(acc, p, Keys(n), i);
      WithoutFromIs(n, key, i + 1, if p.key == key then acc else acc + [p]);
      Regrouped(acc, [p], Without(n.pairs[i + 1..], key));
      assert [] + Without(n.pairs[i + 1..], key) == Without(n.pairs[i + 1..], key);
    } else {
      assert acc + [] == acc;
    }
  }

  /** One turn of withoutKey's loop, and what the turn leaves to drop. */
  lemma WithoutFromStep(n: Node, key: string, i: nat, acc: seq<Pair>)
    requires n.Mapping? && Distinct(Keys(n)) && i <= |Keys(n)|
    requires Fresh(acc, Keys(n)[i..])
    ensures if i == |Keys(n)| then WithoutFrom(n, key, i, acc) == Mapping(acc) && Without(n.pairs[i..], key) == []
            else
              var p := n.pairs[i];
              && WithoutFrom(n, key, i, acc) == WithoutFrom(n, key, i + 1, if p.key == key then acc else acc + [p])
              && Without(n.pairs[i..], key) == (if p.key == key then [] else [p]) + Without(n.pairs[i + 1..], key)
  {
    if i < |Keys(n)| {
      var p := n.pairs[i];
      FindAt(n.pairs, i);
      hide Find, Distinct;
      assert n.pairs[i..][0] == p && n.pairs[i..][1..] == n.pairs[i + 1..];
      assert Keys(n)[i..][0] == p.key;
      assert forall j :: 0 <= j < |acc| ==> acc[j] in acc;
      PutAt(acc, |acc|, p.key, p.value);
    }
  }

  lemma WithoutKeyIs(n: Node, key: string)
    requires n.Mapping? && UniqueKeys(n)
    ensures WithoutKey(n, key) == Mapping(Without(n.pairs, key)) && UniqueKeys(WithoutKey(n, key))
    ensures Keys(WithoutKey(n, key)) == Minus(Keys(n), [key])
    ensures forall k :: Get(WithoutKey(n, key), k) == if k == key then None else Get(n, k)
  {
    hide Without, WithoutFrom, Find, Distinct, UniqueValues, Minus, PairKeys;
    WithoutFromIs(n, key, 0, []);
    assert n.pairs[0..] == n.pairs && [] + Without(n.pairs, key) == Without(n.pairs, key);
    WithoutKeys(n.pairs, key);
    WithoutUnique(n.pairs, key);
    MinusDistinct(Keys(n), [key]);
  }

  /** The local part drops the two directives and keeps every other key with its value, in order. */
  lemma LocalPartExactly(section: Node)
    requires section.Mapping? && UniqueKeys(section)
    ensures LocalPart(section).Mapping? && UniqueKeys(LocalPart(section))
    ensures Keys(LocalPart(section)) == Minus(Keys(section), ["preset", "on_mismatch"])
    ensures forall k :: Get(LocalPart(section), k) == if k in {"preset", "on_mismatch"} then None else Get(section, k)
  {
    hide WithoutKey, UniqueKeys, Keys, Get;
    WithoutKeyIs(section, "preset");
    WithoutKeyIs(WithoutKey(section, "preset"), "on_mismatch");
    MinusBoth(Keys(section), "preset", "on_mismatch");
  }

  lemma {:induction false} MinusBoth(xs: seq<string>, a: string, b: string)
    ensures Minus(Minus(xs, [a]), [b]) == Minus(xs, [a, b])
  {
    if xs != [] {
      MinusBoth(xs[1..], a, b);
      assert xs[0] != a ==> ([xs[0]] + Minus(xs[1..], [a]))[1..] == Minus(xs[1..], [a]);
      assert [] + Minus(xs[1..], [a]) == Minus(xs[1..], [a]);
    }
  }

  // ---- chains -----------------------------------------------------------------------------------

  /** path and then rest are the files of a chain: each refers to the next, the last to none. */
  ghost predicate Linked(l: Loader, top: string, path: string, policy: string, rest: seq<string>, seen: set<string>)
    decreases |rest|
  {
    && path !in seen && LoadPreset(l, path, policy).Ok?
    && var (key, v) := LoadPreset(l, path, policy).value;
    && key == top
    && if rest == [] then PresetPath(v).None?
       else PresetPath(v) == Some(rest[0]) && Linked(l, top, rest[0], "", rest[1..], seen + {path})
  }

  /** The section { preset: inner }. */
  function Bare(inner: string): Node {
    Mapping([Pair("preset", Scalar(inner))])
  }

  /** base with override merged over it; an error of either wins, base's first. */
  function Over(base: Outcome, own: Outcome): Outcome {
    match base
    case Err(e) => Err(e)
    case Ok(b) => match own case Err(e) => Err(e) case Ok(o) => Ok(MergedValue(Some(b), o))
  }

  /**
    The chain's files merged, the farthest first, the own part of each resolved for itself. Below a
    section that is named governance itself the chain is not followed: such a section is opaque.
   */
  function Stacked(l: Loader, top: string, path: string, policy: string, rest: seq<string>, seen: set<string>,
      current: string): Outcome
    decreases |rest|
  {
    match LoadPreset(l, path, policy)
    case Err(e) => Err(e)
    case Ok((_, v)) =>
      if rest == [] then Resolve(v, l, seen + {path}, current)
      else
        Over(if top == "governance" then Ok(Bare(rest[0]))
          else Stacked(l, top, rest[0], "", rest[1..], seen + {path}, top),
             Resolve(LocalPart(v), l, seen + {path}, current))
  }

  lemma {:induction false} StackedIsMapping(l: Loader, top: string, path: string, policy: string, rest: seq<string>,
      seen: set<string>, current: string)
    requires Linked(l, top, path, policy, rest, seen)
    ensures rest != [] || LoadPreset(l, path, policy).value.1.Mapping? ==>
              var r := Stacked(l, top, path, policy, rest, seen, current); r.Ok? ==> r.value.Mapping?
    decreases |rest|
  {
    var v := LoadPreset(l, path, policy).value.1;
    ResolvedIsMapping(v, l, seen + {path}, current, 0, []);
    if rest != [] {
      ResolvedIsMapping(LocalPart(v), l, seen + {path}, current, 0, []);
      LocalPartIsMapping(v);
    }
  }

  lemma {:induction false} ResolvedIsMapping(raw: Node, l: Loader, seen: set<string>, prefix: string, i: nat,
      acc: seq<Pair>)
    requires i <= |Keys(raw)|
    ensures raw.Mapping? && ResolveKeys(raw, l, seen, prefix, i, acc).Ok? ==>
              ResolveKeys(raw, l, seen, prefix, i, acc).value.Mapping?
    decreases |Keys(raw)| - i
  {
    hide ResolveKey, Put, Get;
    if raw.Mapping? && i < |Keys(raw)| {
      var key := Keys(raw)[i];
      var v := ResolveKey(key, Get(raw, key).value, l, seen, Join(prefix, key));
      if v.Ok? {
        ResolvedIsMapping(raw, l, seen, prefix, i + 1, Put(acc, key, v.value));
      }
    }
  }

  lemma LocalPartIsMapping(section: Node)
    ensures LocalPart(section).Mapping?
  {
    WithoutIsMapping(WithoutKey(section, "preset"), "on_mismatch", 0, []);
  }

  lemma {:induction false} WithoutIsMapping(n: Node, key: string, i: nat, acc: seq<Pair>)
    requires i <= |Keys(n)|
    ensures WithoutFrom(n, key, i, acc).Mapping?
    decreases |Keys(n)| - i
  {
    if i < |Keys(n)| {
      WithoutIsMapping(n, key, i + 1, if Keys(n)[i] == key then acc
        else Put(acc, Keys(n)[i], Get(n, Keys(n)[i]).value));
    }
  }

  /** The section { preset: inner } has nothing of its own. */
  lemma BareReference(inner: string)
    requires inner != ""
    ensures PresetPath(Bare(inner)) == Some(inner) && PresetsList(Bare(inner)).None? && Policy(Bare(inner)) == ""
    ensures LocalPart(Bare(inner)) == Mapping([])
  {
    var s := Bare(inner);
    assert PairKeys(s.pairs) == ["preset"] && s.pairs[1..] == [];
    assert Find(s.pairs, "preset") == Some(Scalar(inner));
    assert Get(s, "presets") == None && Get(s, "on_mismatch") == None;
    assert UniqueKeys(Scalar(inner)) && UniqueValues([]);
    assert UniqueValues(s.pairs);
    LocalPartExactly(s);
    assert Keys(LocalPart(s)) == [];
  }

  /** A preset that is not a mapping, referred to directly, gives way to any own key of the section. */
  function InPlaceOf(value: Node, section: Node): Node {
    if Keys(LocalPart(section)) != [] then LocalPart(section) else value
  }

  /** A reference straight to a preset whose value is a scalar or a sequence. */
  predicate Direct(l: Loader, path: string, policy: string, rest: seq<string>) {
    rest == [] && LoadPreset(l, path, policy).Ok? && !LoadPreset(l, path, policy).value.1.Mapping?
  }

  /**
    What a reference into a chain of presets means, whatever the files hold: the chain's files merged,
    the farthest first, each file's own part resolved before, the section's own keys on top. A direct
    reference to a scalar or a sequence stands for it unless the section has keys of its own.
   */
  lemma {:induction false} ChainResolvesExactly(
      l: Loader, top: string, section: Node, path: string, rest: seq<string>, seen: set<string>, current: string)
    requires Linked(l, top, path, Policy(section), rest, seen)
    ensures ResolvePreset(top, section, path, l, seen, current) ==
            if Direct(l, path, Policy(section), rest)
              then Ok(InPlaceOf(LoadPreset(l, path, Policy(section)).value.1, section))
            else Over(Stacked(l, top, path, Policy(section), rest, seen, current),
              Resolve(LocalPart(section), l, seen + {path}, current))
    decreases |rest|, 1
  {
    hide LocalPart, MergedValue, Stacked;
    NotMappingNoPath(l, path, Policy(section));
    UnseenShrinks(l, seen, path);
    LoadedResolvesExactly(l, top, path, Policy(section), rest, seen, current);
  }

  lemma NotMappingNoPath(l: Loader, path: string, policy: string)
    ensures LoadPreset(l, path, policy).Ok? ==>
              var v := LoadPreset(l, path, policy).value.1; PresetPath(v).Some? ==> v.Mapping?
  {
  }

  lemma {:induction false} LoadedResolvesExactly(
      l: Loader, top: string, path: string, policy: string, rest: seq<string>, seen: set<string>, current: string)
    requires Linked(l, top, path, policy, rest, seen)
    ensures ResolveLoaded(top, LoadPreset(l, path, policy).value.1, l, seen + {path}, current) ==
            Stacked(l, top, path, policy, rest, seen, current)
    decreases |rest|, 0
  {
    hide LocalPart, MergedValue;
    if rest != [] {
      ChainedResolves(l, top, rest[0], rest[1..], seen + {path});
    }
  }

  lemma {:induction false} ChainedResolves(l: Loader, top: string, inner: string, rest: seq<string>, seen: set<string>)
    requires Linked(l, top, inner, "", rest, seen) && inner != ""
    ensures var want := if top == "governance" then Ok(Bare(inner)) else Stacked(l, top, inner, "", rest, seen, top);
            var r := ResolveChained(top, inner, l, seen);
            if want.Ok? then r.Ok? && Get(r.value, top) == Some(want.value) else r == want
    decreases |rest|, 2
  {
    assert LoadPreset(l, inner, "").Ok?;
    hide LocalPart, MergedValue, Stacked, Linked, Resolve, ResolvePreset;
    BareReference(inner);
    OnlyKey(top, Bare(inner), l, seen);
    if top != "governance" {
      ChainResolvesExactly(l, top, Bare(inner), inner, rest, seen, top);
      StackedIsMapping(l, top, inner, "", rest, seen, top);
      NothingResolves(l, seen + {inner}, top);
      if Direct(l, inner, "", rest) {
        DirectStack(l, top, inner, rest, seen);
      }
      var x := Stacked(l, top, inner, "", rest, seen, top);
      if x.Ok? && !Direct(l, inner, "", rest) {
        MergedWithNothing(x.value);
      }
    }
  }

  lemma DirectStack(l: Loader, top: string, path: string, rest: seq<string>, seen: set<string>)
    requires Direct(l, path, "", rest)
    ensures Stacked(l, top, path, "", rest, seen, top) == Ok(LoadPreset(l, path, "").value.1)
  {
  }

  lemma NothingResolves(l: Loader, seen: set<string>, current: string)
    ensures Resolve(Mapping([]), l, seen, current) == Ok(Mapping([]))
  {
  }

  lemma MergedWithNothing(n: Node)
    requires n.Mapping?
    ensures MergedValue(Some(n), Mapping([])) == n
  {
  }

  /** A mapping of one key resolves to that key's resolution. */
  lemma OnlyKey(top: string, section: Node, l: Loader, seen: set<string>)
    ensures var v := ResolveKey(top, section, l, seen, top);
            var r := Resolve(Mapping([Pair(top, section)]), l, seen, "");
            if v.Ok? then r == Ok(Mapping([Pair(top, v.value)])) && Get(r.value, top) == Some(v.value)
              else r == Err(v.error)
  {
    hide ResolveKey;
    var raw := Mapping([Pair(top, section)]);
    assert PairKeys(raw.pairs) == [top];
    assert Get(raw, top) == Some(section);
    var v := ResolveKey(top, section, l, seen, top);
    if v.Ok? {
      assert Put([], top, v.value) == [Pair(top, v.value)];
      assert ResolveKeys(raw, l, seen, "", 1, [Pair(top, v.value)]) == Ok(Mapping([Pair(top, v.value)]));
    }
  }

  // ---- plain chains -----------------------------------------------------------------------------

  /** Own keys that need no resolving. */
  predicate Plain(section: Node) {
    section.Mapping? && UniqueKeys(section) && !HasPresetKey(LocalPart(section))
  }

  /** A chain of files whose own parts are plain. */
  ghost predicate Chain(l: Loader, top: string, path: string, policy: string, rest: seq<string>, seen: set<string>)
    decreases |rest|
  {
    && Linked(l, top, path, policy, rest, seen)
    && LoadPreset(l, path, policy).Ok?
    && var v := LoadPreset(l, path, policy).value.1;
    && v.Mapping? && UniqueKeys(v)
    && if rest == [] then !HasPresetKey(v) else Plain(v) && Chain(l, top, rest[0], "", rest[1..], seen + {path})
  }

  /** The chain's files merged by key, the farthest first. */
  function Layered(l: Loader, top: string, path: string, policy: string, rest: seq<string>): Node
    decreases |rest|
  {
    match LoadPreset(l, path, policy)
    case Err(_) => Mapping([])
    case Ok((_, v)) => if rest == [] then v else Merge(Layered(l, top, rest[0], "", rest[1..]), LocalPart(v))
  }

  lemma {:induction false} StackedIsLayered(
      l: Loader, top: string, path: string, policy: string, rest: seq<string>, seen: set<string>, current: string)
    requires Chain(l, top, path, policy, rest, seen) && top != "governance"
    ensures Stacked(l, top, path, policy, rest, seen, current) == Ok(Layered(l, top, path, policy, rest))
    ensures UniqueKeys(Layered(l, top, path, policy, rest))
    decreases |rest|
  {
    var v := LoadPreset(l, path, policy).value.1;
    hide LocalPart, Merge, MergedValue, UniqueKeys, HasPresetKey, Linked;
    if rest == [] {
      PresetFreeIsIdentity(v, l, seen + {path}, current);
    } else {
      var far := Layered(l, top, rest[0], "", rest[1..]);
      StackedIsLayered(l, top, rest[0], "", rest[1..], seen + {path}, top);
      LocalPartExactly(v);
      PresetFreeIsIdentity(LocalPart(v), l, seen + {path}, current);
      CodeComputesMerge(far, LocalPart(v));
      MergeUnique(far, LocalPart(v));
    }
  }

  /**
    A chain of plain presets resolves to its layers merged by key, with the section's own keys on top:
    by MergeLeaves, every leaf comes from the nearest layer that reaches its path.
   */
  lemma ChainResolvesToLayers(l: Loader, top: string, section: Node, path: string, rest: seq<string>,
      seen: set<string>, current: string)
    requires Plain(section) && Chain(l, top, path, Policy(section), rest, seen) && top != "governance"
    ensures ResolvePreset(top, section, path, l, seen, current) ==
            Ok(Merge(Layered(l, top, path, Policy(section), rest), LocalPart(section)))
  {
    hide LocalPart, Merge, MergedValue, UniqueKeys, HasPresetKey, Linked, Stacked, Layered;
    LocalPartExactly(section);
    PresetFreeIsIdentity(LocalPart(section), l, seen + {path}, current);
    StackedIsLayered(l, top, path, Policy(section), rest, seen, current);
    CodeComputesMerge(Layered(l, top, path, Policy(section), rest), LocalPart(section));
    ChainResolvesExactly(l, top, section, path, rest, seen, current);
  }

  // ---- a list at the end of a chain -------------------------------------------------------------

  /** The value of a chain's last file. */
  function EndOf(l: Loader, path: string, policy: string, rest: seq<string>): Option<Node>
    decreases |rest|
  {
    if rest != [] then EndOf(l, rest[0], "", rest[1..])
    else
      match LoadPreset(l, path, policy)
      case Err(_) => None
      case Ok((_, v)) => Some(v)
  }

  lemma {:induction false} LinkedHasEnd(l: Loader, top: string, path: string, policy: string, rest: seq<string>,
      seen: set<string>)
    requires Linked(l, top, path, policy, rest, seen)
    ensures EndOf(l, path, policy, rest).Some?
    decreases |rest|
  {
    if rest != [] {
      LinkedHasEnd(l, top, rest[0], "", rest[1..], seen + {path});
    }
  }

  /**
    A preset may hold a scalar or a sequence, to be used directly. At the end of a chain it is what the
    reference resolves to exactly if the chain has no other file and the section no key of its own.
   */
  lemma ListSurvivesExactly(
      l: Loader, top: string, section: Node, path: string, rest: seq<string>, seen: set<string>, current: string)
    requires Linked(l, top, path, Policy(section), rest, seen)
    requires EndOf(l, path, Policy(section), rest).Some? ==> !EndOf(l, path, Policy(section), rest).value.Mapping?
    ensures EndOf(l, path, Policy(section), rest).Some?
    ensures ResolvePreset(top, section, path, l, seen, current) == Ok(EndOf(l, path, Policy(section), rest).value)
            <==> rest == [] && Keys(LocalPart(section)) == []
  {
    LinkedHasEnd(l, top, path, Policy(section), rest, seen);
    ChainResolvesExactly(l, top, section, path, rest, seen, current);
    LocalPartIsMapping(section);
    hide LocalPart, MergedValue, Linked;
    if rest != [] {
      StackedIsMapping(l, top, path, Policy(section), rest, seen, current);
      ResolvedIsMapping(LocalPart(section), l, seen + {path}, current, 0, []);
      assert Resolve(LocalPart(section), l, seen + {path}, current).Ok? ==>
        Resolve(LocalPart(section), l, seen + {path}, current).value.Mapping?;
      hide Stacked, Resolve, Keys;
      MergedMappings(Stacked(l, top, path, Policy(section), rest, seen, current),
        Resolve(LocalPart(section), l, seen + {path}, current));
    }
  }

  lemma MergedMappings(base: Outcome, own: Outcome)
    requires (base.Ok? ==> base.value.Mapping?) && (own.Ok? ==> own.value.Mapping?)
    ensures Over(base, own).Ok? ==> Over(base, own).value.Mapping?
  {
  }

  /**
    A preset that holds a sequence or a scalar is resolved when a section refers to it, and lost when a
    preset file that says nothing else refers to it: merging the file's empty own part replaces it.
   */
  lemma ChainedListIsLost(l: Loader, top: string, file: string, inner: string, value: Node, seen: set<string>,
      current: string)
    requires file != "" && inner != "" && file != inner && file !in seen && inner !in seen && top != "governance"
    requires LoadPreset(l, file, "") == Ok((top, Bare(inner))) && LoadPreset(l, inner, "") == Ok((top, value)) &&
               !value.Mapping?
    ensures ResolvePreset(top, Bare(inner), inner, l, seen, current) == Ok(value)
    ensures ResolvePreset(top, Bare(file), file, l, seen, current) == Ok(Mapping([]))
  {
    assert MergedValue(Some(value), Mapping([])) == Mapping([]);
    MergedWithNothing(Mapping([]));
    hide LocalPart, Resolve, ResolvePreset, MergedValue, PresetPath, LoadPreset;
    BareReference(inner);
    BareReference(file);
    var rest := [inner];
    assert rest[1..] == [];
    NothingResolves(l, seen + {file}, current);
    assert Linked(l, top, inner, "", [], seen + {file}) && Linked(l, top, inner, "", [], seen) by {
      NotMappingNoPath(l, inner, "");
    }
    assert Linked(l, top, file, "", rest, seen);
    DirectStack(l, top, inner, [], seen + {file});
    assert Stacked(l, top, file, "", rest, seen, current) == Over(Ok(value), Ok(Mapping([])));
    hide Linked, Stacked;
    ChainResolvesExactly(l, top, Bare(inner), inner, [], seen, current);
    ChainResolvesExactly(l, top, Bare(file), file, rest, seen, current);
  }
}
