/**
  Where the resolver goes: key by key, past the governance payload, into the keyed sections, and what
  it accepts as a directive or a reference (preset.go).
 */
module PresetSections {
  import opened Wrappers
  import opened Nodes
  import opened DeepMerge
  import opened Presets
  import opened PresetComposition

  // ---- key by key -------------------------------------------------------------------------------

  /** What one key of a mapping resolves to. */
  function KeyOutcome(raw: Node, l: Loader, seen: set<string>, prefix: string, k: string): Outcome
    requires k in Keys(raw)
  {
    ResolveKey(k, Get(raw, k).value, l, seen, Join(prefix, k))
  }

  lemma {:induction false} KeysResolve(raw: Node, l: Loader, seen: set<string>, prefix: string, i: nat, acc: seq<Pair>)
    requires raw.Mapping? && i <= |Keys(raw)|
    ensures var r := ResolveKeys(raw, l, seen, prefix, i, acc);
            && (r.Ok? <==> forall k <- Keys(raw)[i..] :: KeyOutcome(raw, l, seen, prefix, k).Ok?)
            && (r.Ok? ==>
                  && r.value.Mapping?
                  && forall k :: Get(r.value, k) ==
                       if k in Keys(raw)[i..] then Some(KeyOutcome(raw, l, seen, prefix, k).value) else Find(acc, k))
    decreases |Keys(raw)| - i
  {
    hide Put, ResolveKey, PairKeys, Keys, Join, Find;
    if i < |Keys(raw)| {
      var key, rest := Keys(raw)[i], Keys(raw)[i + 1..];
      assert Keys(raw)[i..] == [key] + rest;
      var v := KeyOutcome(raw, l, seen, prefix, key);
      if v.Ok? {
        PutKeys(acc, key, v.value);
        KeysResolve(raw, l, seen, prefix, i + 1, Put(acc, key, v.value));
      }
    }
  }

  /** A mapping resolves exactly if every key does, and each key then holds its own resolution. */
  lemma KeyByKey(raw: Node, l: Loader, seen: set<string>, prefix: string)
    requires raw.Mapping?
    ensures var r := Resolve(raw, l, seen, prefix);
            && (r.Ok? <==> forall k <- Keys(raw) :: KeyOutcome(raw, l, seen, prefix, k).Ok?)
            && (r.Ok? ==>
                  forall k :: Get(r.value, k) ==
                    if k in Keys(raw) then Some(KeyOutcome(raw, l, seen, prefix, k).value) else None)
  {
    KeysResolve(raw, l, seen, prefix, 0, []);
    hide KeyOutcome, ResolveKeys, Get, Keys;
    assert Keys(raw)[0..] == Keys(raw);
  }

  // ---- governance -------------------------------------------------------------------------------

  /** The governance payload is copied verbatim, whatever references it holds and whatever the loader. */
  lemma GovernanceIsOpaque(raw: Node, l: Loader, seen: set<string>)
    requires raw.Mapping? && "governance" in Keys(raw) && Resolve(raw, l, seen, "").Ok?
    ensures Get(Resolve(raw, l, seen, "").value, "governance") == Get(raw, "governance")
  {
    hide Resolve, Get, Keys;
    KeyByKey(raw, l, seen, "");
    assert KeyOutcome(raw, l, seen, "", "governance") == Ok(Get(raw, "governance").value);
  }

  /** Two configurations that differ in their governance payload at most. */
  ghost predicate SameButGovernance(v: Node, w: Node) {
    && v.Mapping? && w.Mapping? && Keys(v) == Keys(w)
    && forall k :: k != "governance" ==> Get(v, k) == Get(w, k)
  }

  lemma {:induction false} SameOutcomes(v: Node, w: Node, l: Loader, seen: set<string>, i: nat, a: seq<Pair>,
      b: seq<Pair>)
    requires SameButGovernance(v, w) && i <= |Keys(v)|
    ensures var x, y := ResolveKeys(v, l, seen, "", i, a), ResolveKeys(w, l, seen, "", i, b);
            (x.Ok? <==> y.Ok?) && (x.Err? ==> x == y)
    decreases |Keys(v)| - i
  {
    hide Put, Get, Keys, Resolve, ResolvePreset, ComposeMap, ComposeList;
    if i < |Keys(v)| {
      var k := Keys(v)[i];
      var x := ResolveKey(k, Get(v, k).value, l, seen, Join("", k));
      var y := ResolveKey(k, Get(w, k).value, l, seen, Join("", k));
      SameKeyOutcome(v, w, l, seen, k);
      if x.Ok? {
        SameOutcomes(v, w, l, seen, i + 1, Put(a, k, x.value), Put(b, k, y.value));
      }
    }
  }

  lemma SameKeyOutcome(v: Node, w: Node, l: Loader, seen: set<string>, k: string)
    requires SameButGovernance(v, w) && k in Keys(v)
    ensures var x, y := ResolveKey(k, Get(v, k).value, l, seen, Join("", k)),
              ResolveKey(k, Get(w, k).value, l, seen, Join("", k));
            if k == "governance" then x.Ok? && y.Ok? else x == y
  {
    hide Get, Keys, PresetPath, PresetsList, Resolve, ResolvePreset, ComposeMap, ComposeList;
  }

  /** What the governance payload holds has no influence on the rest, errors included. */
  lemma GovernanceHasNoInfluence(v: Node, w: Node, l: Loader, seen: set<string>)
    requires SameButGovernance(v, w)
    ensures var x, y := Resolve(v, l, seen, ""), Resolve(w, l, seen, "");
            && (x.Ok? <==> y.Ok?) && (x.Err? ==> x == y)
            && (x.Ok? ==> forall k :: k != "governance" ==> Get(x.value, k) == Get(y.value, k))
  {
    SameOutcomes(v, w, l, seen, 0, [], []);
    KeyByKey(v, l, seen, "");
    KeyByKey(w, l, seen, "");
    hide Resolve, Get, Keys, ResolveKey;
    forall k | k in Keys(v) && k != "governance" ensures KeyOutcome(v, l, seen, "", k) ==
      KeyOutcome(w, l, seen, "", k) {
    }
  }

  // ---- which sections compose -------------------------------------------------------------------

  /** The sections composed as a list of items with ids. */
  predicate IsListPath(current: string) {
    || current == "targets" || current == "builds" || current == "badges.items"
    || current == "versioning.tag_sources" || current == "versioning.branch_builds"
  }

  /** The sections composed as a mapping of entries. */
  predicate IsMapPath(current: string) {
    current == "stencils" || current == "scribe.files" || current == "toolchains.want"
  }

  lemma KeyedPaths(current: string)
    ensures current in KEYED_LISTS <==> IsListPath(current)
    ensures current in KEYED_MAPS <==> IsMapPath(current)
  {
  }

  /** A presets: list composes a list or a mapping in eight sections and is refused in every other. */
  lemma PresetsComposeWhere(key: string, v: Node, l: Loader, seen: set<string>, current: string)
    requires v.Mapping? && PresetsList(v).Some? && current != "governance"
    ensures ResolveKey(key, v, l, seen, current) ==
            if PresetPath(v).Some? then Err(BothDirectives(current))
            else if IsListPath(current) then ComposeList(PresetsList(v).value, current, v, l, seen, [])
            else if IsMapPath(current) then ComposeMap(PresetsList(v).value, current, v, l, seen, [])
            else Err(NotKeyed(current))
  {
    hide ComposeMap, ComposeList, PresetsList, PresetPath, ResolvePreset, Resolve, IsListPath, IsMapPath;
    KeyedPaths(current);
  }

  /** Everything else: scalars and sequences stay, a reference is followed, a plain section is resolved inside. */
  lemma OtherSections(key: string, v: Node, l: Loader, seen: set<string>, current: string)
    requires PresetsList(v).None? && current != "governance"
    ensures ResolveKey(key, v, l, seen, current) ==
            if !v.Mapping? then Ok(v)
            else if PresetPath(v).Some? then ResolvePreset(key, v, PresetPath(v).value, l, seen, current)
            else Resolve(v, l, seen, current)
  {
    hide ComposeMap, ComposeList, PresetsList, PresetPath, ResolvePreset, Resolve;
  }

  /** The path of a nested section is its keys joined by dots, so a section two levels down composes too. */
  lemma NestedSectionComposes(outer: string, key: string, v: Node, l: Loader, seen: set<string>)
    requires v.Mapping? && PresetsList(v).Some? && PresetPath(v).None? && IsListPath(outer + "." + key)
    requires outer != "" && outer != "governance" && key !in {"preset", "presets"}
    ensures var raw := Mapping([Pair(outer, Mapping([Pair(key, v)]))]);
            var r := Resolve(raw, l, seen, "");
            var composed := ComposeList(PresetsList(v).value, outer + "." + key, v, l, seen, []);
            if composed.Err? then r.Err?
            else r.Ok? && At(r.value, [outer, key]) == Some(composed.value)
  {
    hide ComposeList, PresetsList, PresetPath, Resolve, ResolvePreset, IsListPath;
    var inner := Mapping([Pair(key, v)]);
    var raw := Mapping([Pair(outer, inner)]);
    OneKeyMapping(key, v);
    OneKeyMapping(outer, inner);
    NotGovernance(outer, key);
    NoDirectives(key, v);
    PresetsComposeWhere(key, v, l, seen, outer + "." + key);
    KeyByKey(inner, l, seen, outer);
    OtherSections(outer, inner, l, seen, outer);
    KeyByKey(raw, l, seen, "");
    hide ResolveKey, Get, Keys;
    var composed := ComposeList(PresetsList(v).value, outer + "." + key, v, l, seen, []);
    assert KeyOutcome(inner, l, seen, outer, key) == composed;
    assert KeyOutcome(raw, l, seen, "", outer) == Resolve(inner, l, seen, outer);
    if composed.Ok? {
      TwoSteps(Resolve(raw, l, seen, "").value, outer, key);
    }
  }

  lemma TwoSteps(n: Node, a: string, b: string)
    requires Get(n, a).Some?
    ensures At(n, [a, b]) == Get(Get(n, a).value, b)
  {
    assert [a, b][1..] == [b] && [b][1..] == [];
    var v := Get(n, a).value;
    assert At(v, [b]) == match Get(v, b) case None => None case Some(w) => At(w, []);
  }

  lemma OneKeyMapping(key: string, v: Node)
    ensures Keys(Mapping([Pair(key, v)])) == [key] && Get(Mapping([Pair(key, v)]), key) == Some(v)
  {
    var n := Mapping([Pair(key, v)]);
    assert n.pairs[1..] == [] && PairKeys([]) == [];
  }

  lemma NoDirectives(key: string, v: Node)
    requires key !in {"preset", "presets"}
    ensures PresetPath(Mapping([Pair(key, v)])) == None && PresetsList(Mapping([Pair(key, v)])) == None
  {
    OneKeyMapping(key, v);
  }

  lemma NotGovernance(prefix: string, key: string)
    requires prefix != ""
    ensures Join(prefix, key) == prefix + "." + key && Join(prefix, key) != "governance" && Join("", key) == key
  {
    assert Join(prefix, key)[|prefix|] == '.';
    assert forall i :: 0 <= i < |"governance"| ==> "governance"[i] != '.';
  }

  // ---- directives -------------------------------------------------------------------------------

  lemma PresetPathExactly(section: Node, path: string)
    ensures PresetPath(section) == Some(path) <==> Get(section, "preset") == Some(Scalar(path)) && path != ""
  {
    hide Get;
  }

  lemma PolicyExactly(section: Node, policy: string)
    requires policy != ""
    ensures Policy(section) == policy <==> Get(section, "on_mismatch") == Some(Scalar(policy))
  {
    hide Get;
  }

  /** presets: is taken for a list of references exactly if it is a sequence of non-empty scalars. */
  lemma PresetsListExactly(section: Node, paths: seq<string>)
    ensures PresetsList(section) == Some(paths) <==>
            && Get(section, "presets").Some? && Get(section, "presets").value.Sequence?
            && var items := Get(section, "presets").value.items;
               |items| == |paths| && forall i :: 0 <= i < |items| ==> items[i] == Scalar(paths[i]) && paths[i] != ""
  {
    hide Get;
    match Get(section, "presets")
    case Some(Sequence(items)) =>
      if forall i :: 0 <= i < |items| ==> items[i].Scalar? && items[i].value != "" {
        ValuesAt(items);
        assert Values(items) == paths <==>
          |items| == |paths| && forall i :: 0 <= i < |items| ==> items[i] == Scalar(paths[i]) && paths[i] != "";
      }
    case _ =>
  }

  lemma {:induction false} ValuesAt(items: seq<Node>)
    ensures |Values(items)| == |items| && forall i :: 0 <= i < |items| ==> Values(items)[i] == NodeValue(items[i])
  {
    if items != [] {
      ValuesAt(items[1..]);
    }
  }

  /** A section contributes all its keys to a composed mapping but the three directives. */
  lemma {:induction false} DirectivesAreSkipped(n: Node, i: nat)
    requires i <= |Keys(n)|
    ensures PairKeys(Entries(n, i, DIRECTIVES)) == Minus(Keys(n)[i..], ["preset", "presets", "on_mismatch"])
    decreases |Keys(n)| - i
  {
    hide Keys, Get, Find;
    var directives := ["preset", "presets", "on_mismatch"];
    if i < |Keys(n)| {
      var k := Keys(n)[i];
      DirectivesAreSkipped(n, i + 1);
      assert Keys(n)[i..][0] == k && Keys(n)[i..][1..] == Keys(n)[i + 1..];
      assert k in DIRECTIVES <==> k in directives;
      var here := if k in DIRECTIVES then [] else [Pair(k, Get(n, k).value)];
      PairKeysConcat(here, Entries(n, i + 1, DIRECTIVES));
      assert PairKeys(here) == if k in DIRECTIVES then [] else [k];
    } else {
      assert Keys(n)[i..] == [];
    }
  }

  // ---- references -------------------------------------------------------------------------------

  /** A preset loads exactly if the loader answers with a document of one top-level key. */
  lemma LoadExactly(l: Loader, path: string, policy: string, top: string, value: Node)
    ensures LoadPreset(l, path, policy) == Ok((top, value)) <==>
            && path in l.paths && l.load(path, policy).Some?
            && Keys(l.load(path, policy).value) == [top] && Get(l.load(path, policy).value, top) == Some(value)
  {
    hide Get, Keys;
  }

  /** A reference is refused if it is on the stack, does not load, or declares another top-level key. */
  lemma ReferenceRefused(key: string, section: Node, path: string, l: Loader, seen: set<string>, current: string)
    ensures path in seen ==> ResolvePreset(key, section, path, l, seen, current) == Err(Circular(path))
    ensures path !in seen && LoadPreset(l, path, Policy(section)).Err? ==>
              ResolvePreset(key, section, path, l, seen, current) == Err(LoadPreset(l, path, Policy(section)).error)
    ensures path !in seen && LoadPreset(l, path, Policy(section)).Ok? &&
              LoadPreset(l, path, Policy(section)).value.0 != key ==>
              ResolvePreset(key, section, path, l, seen, current) == Err(WrongTopKey(path))
  {
    hide LoadPreset, Policy, LocalPart, ResolveLoaded, Resolve;
  }

  /** A chained reference back onto the stack, itself included, is a cycle. */
  lemma ChainedCycleRefused(top: string, value: Node, inner: string, l: Loader, seen: set<string>, current: string)
    requires PresetPath(value) == Some(inner) && inner in seen
    ensures ResolveLoaded(top, value, l, seen, current) == Err(Circular(inner))
  {
    hide PresetPath, LocalPart, ResolveChained, Resolve;
  }

  /** A preset contributes to a composed section what its document holds at the section's path. */
  lemma ContributionExactly(l: Loader, seen: set<string>, section: string, path: string, v: Node)
    ensures Contribution(l, seen, section, path) == Ok(v) <==>
            && path !in seen && LoadPreset(l, path, "").Ok?
            && LoadPreset(l, path, "").value.0 == Split(section, '.')[0]
            && At(LoadPreset(l, path, "").value.1, Split(section, '.')[1..]) == Some(v)
  {
    hide LoadPreset, Split;
    if LoadPreset(l, path, "").Ok? {
      NavigateExactly(LoadPreset(l, path, "").value.1, Split(section, '.')[1..], path);
    }
  }

  lemma {:induction false} NavigateExactly(n: Node, nav: seq<string>, path: string)
    ensures match At(n, nav) case Some(v) => Navigate(n, nav, path) == Ok(v) case None => Navigate(n, nav, path).Err?
    decreases |nav|
  {
    hide Get;
    if nav != [] && Get(n, nav[0]).Some? {
      NavigateExactly(Get(n, nav[0]).value, nav[1..], path);
    }
  }

  function Dotted(parts: seq<string>): string {
    if parts == [] then "" else if |parts| == 1 then parts[0] else parts[0] + "." + Dotted(parts[1..])
  }

  /** Splitting at dots is undone by joining with dots, and no part holds a dot. */
  lemma {:induction false} SplitExactly(s: string)
    ensures Dotted(Split(s, '.')) == s && forall i :: 0 <= i < |Split(s, '.')| ==> '.' !in Split(s, '.')[i]
  {
    if s != "" {
      SplitExactly(s[1..]);
      var rest := Split(s[1..], '.');
      hide Split;
      assert s == [s[0]] + s[1..];
      if s[0] == '.' {
        assert ([""] + rest)[1..] == rest;
        assert Dotted([""] + rest) == "" + "." + Dotted(rest);
      } else {
        var first := [s[0]] + rest[0];
        assert ([first] + rest[1..])[1..] == rest[1..];
        assert Dotted([first] + rest[1..]) == [s[0]] + Dotted(rest) by {
          if |rest| > 1 {
            assert [s[0]] + (rest[0] + "." + Dotted(rest[1..])) == ([s[0]] + rest[0]) + "." + Dotted(rest[1..]);
          }
        }
      }
    }
  }
}
