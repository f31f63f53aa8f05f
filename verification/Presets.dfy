/**
  The recursive, cycle-checked preset resolver over order-preserving nodes (preset.go). Provenance
  entries are not part of this model. The loader may answer anything, for finitely many paths.
 */
module Presets {
  import opened Wrappers
  import opened Nodes
  import opened DeepMerge

  /** What a reference may load to, by path and mismatch policy; nothing outside paths. */
  datatype Loader = Loader(paths: set<string>, load: (string, string) -> Option<Node>)

  datatype Error =
    | BothDirectives(section: string)
    | NotKeyed(section: string)
    | Circular(path: string)
    | LoadFailed(path: string)
    | NotOneTopKey(path: string)
    | WrongTopKey(path: string)
    | BadNavigation(path: string)
    | BadItem(section: string)
    | DuplicateKey(section: string, key: string)

  type Outcome = Result<Node, Error>

  const KEYED_LISTS := {"targets", "builds", "badges.items", "versioning.tag_sources", "versioning.branch_builds"}
  const KEYED_MAPS := {"stencils", "scribe.files", "toolchains.want"}
  const DIRECTIVES := {"preset", "presets", "on_mismatch"}

  // ---- directives -------------------------------------------------------------------------------

  function ScalarAt(n: Node, key: string): Option<string> {
    match Get(n, key)
    case Some(Scalar(v)) => Some(v)
    case _ => None
  }

  /** extractPresetPath */
  function PresetPath(section: Node): Option<string> {
    match ScalarAt(section, "preset")
    case Some(v) => if v == "" then None else Some(v)
    case None => None
  }

  /** extractMismatchPolicy */
  function Policy(section: Node): string {
    match ScalarAt(section, "on_mismatch")
    case Some(v) => v
    case None => ""
  }

  /** extractPresetsList */
  function PresetsList(section: Node): Option<seq<string>> {
    match Get(section, "presets")
    case Some(Sequence(items)) =>
      if forall i :: 0 <= i < |items| ==> items[i].Scalar? && items[i].value != "" then Some(Values(items)) else None
    case _ => None
  }

  function Values(items: seq<Node>): seq<string> {
    if items == [] then [] else [NodeValue(items[0])] + Values(items[1..])
  }

  /** yaml.Node.Value: empty for anything but a scalar. */
  function NodeValue(n: Node): string {
    if n.Scalar? then n.value else ""
  }

  /** withoutKey, one Set per surviving key. */
  function WithoutFrom(n: Node, key: string, i: nat, acc: seq<Pair>): Node
    requires i <= |Keys(n)|
    decreases |Keys(n)| - i
  {
    if i == |Keys(n)| then Mapping(acc)
    else
      var k := Keys(n)[i];
      WithoutFrom(n, key, i + 1, if k == key then acc else Put(acc, k, Get(n, k).value))
  }

  function WithoutKey(n: Node, key: string): Node {
    WithoutFrom(n, key, 0, [])
  }

  function LocalPart(section: Node): Node {
    WithoutKey(WithoutKey(section, "preset"), "on_mismatch")
  }

  function Join(prefix: string, key: string): string {
    if prefix != "" then prefix + "." + key else key
  }

  // ---- loading ----------------------------------------------------------------------------------

  /** Load and ValidatePreset: exactly one top-level key. */
  function LoadPreset(l: Loader, path: string, policy: string): (r: Result<(string, Node), Error>)
    ensures r.Ok? ==> path in l.paths
  {
    if path !in l.paths then Err(LoadFailed(path))
    else
      match l.load(path, policy)
      case None => Err(LoadFailed(path))
      case Some(doc) =>
        if |Keys(doc)| != 1 then Err(NotOneTopKey(path)) else Ok((Keys(doc)[0], Get(doc, Keys(doc)[0]).value))
  }

  function Navigate(n: Node, nav: seq<string>, path: string): Outcome {
    if nav == [] then Ok(n)
    else
      match Get(n, nav[0])
      case None => Err(BadNavigation(path))
      case Some(v) => Navigate(v, nav[1..], path)
  }

  /** loadNavigatedPreset, up to its bookkeeping of seen. */
  function LoadNavigated(l: Loader, seen: set<string>, path: string, topKey: string, nav: seq<string>): Outcome {
    if path in seen then Err(Circular(path))
    else
      match LoadPreset(l, path, "")
      case Err(e) => Err(e)
      case Ok((top, v)) => if top != topKey then Err(WrongTopKey(path)) else Navigate(v, nav, path)
  }

  function Split(s: string, c: char): (parts: seq<string>)
    ensures parts != []
  {
    if s == "" then [""]
    else
      var rest := Split(s[1..], c);
      if s[0] == c then [""] + rest else [[s[0]] + rest[0]] + rest[1..]
  }

  // ---- keyed composition ------------------------------------------------------------------------

  function AppendItems(acc: seq<Node>, items: seq<Node>, section: string): Result<seq<Node>, Error>
    decreases |items|
  {
    if items == [] then Ok(acc)
    else
      match Get(items[0], "id")
      case None => Err(BadItem(section))
      case Some(id) =>
        if exists i :: 0 <= i < |acc| && Get(acc[i], "id").Some? && NodeValue(Get(acc[i], "id").value) == NodeValue(id)
        then Err(DuplicateKey(section, NodeValue(id)))
        else AppendItems(acc + [items[0]], items[1..], section)
  }

  /** resolvePresetList: every preset's sequence in order, then inline items, without repeated ids. */
  function ComposeList(presets: seq<string>, section: string, inline: Node, l: Loader, seen: set<string>,
      acc: seq<Node>): Outcome {
    if presets == [] then
      match Get(inline, "items")
      case Some(Sequence(items)) =>
        (match AppendItems(acc, items, section)
         case Ok(all) => Ok(Sequence(all))
         case Err(e) => Err(e))
      case _ => Ok(Sequence(acc))
    else
      var parts := Split(section, '.');
      match LoadNavigated(l, seen, presets[0], parts[0], parts[1..])
      case Err(e) => Err(e)
      case Ok(Sequence(items)) =>
        (match AppendItems(acc, items, section)
         case Ok(more) => ComposeList(presets[1..], section, inline, l, seen, more)
         case Err(e) => Err(e))
      case Ok(_) => ComposeList(presets[1..], section, inline, l, seen, acc)
  }

  function AddEntries(acc: seq<Pair>, n: Node, i: nat, skip: set<string>, section: string): Result<seq<Pair>, Error>
    requires i <= |Keys(n)|
    decreases |Keys(n)| - i
  {
    if i == |Keys(n)| then Ok(acc)
    else
      var k := Keys(n)[i];
      if k in skip then AddEntries(acc, n, i + 1, skip, section)
      else if k in PairKeys(acc) then Err(DuplicateKey(section, k))
      else AddEntries(acc + [Pair(k, Get(n, k).value)], n, i + 1, skip, section)
  }

  /** resolvePresetMap: every preset's entries in order, then the section's own, without repeated keys. */
  function ComposeMap(presets: seq<string>, section: string, inline: Node, l: Loader, seen: set<string>,
      acc: seq<Pair>): Outcome {
    if presets == [] then
      match AddEntries(acc, inline, 0, DIRECTIVES, section)
      case Ok(all) => Ok(Mapping(all))
      case Err(e) => Err(e)
    else
      var parts := Split(section, '.');
      match LoadNavigated(l, seen, presets[0], parts[0], parts[1..])
      case Err(e) => Err(e)
      case Ok(n) =>
        if n.Mapping? then
          match AddEntries(acc, n, 0, {}, section)
          case Ok(more) => ComposeMap(presets[1..], section, inline, l, seen, more)
          case Err(e) => Err(e)
        else ComposeMap(presets[1..], section, inline, l, seen, acc)
  }

  // ---- the resolver -----------------------------------------------------------------------------

  lemma UnseenShrinks(l: Loader, seen: set<string>, path: string)
    requires path in l.paths && path !in seen
    ensures |l.paths - (seen + {path})| < |l.paths - seen|
  {
    assert l.paths - seen == (l.paths - (seen + {path})) + {path};
  }

  /** resolvePresetsInner on the references stacked in seen. */
  function Resolve(raw: Node, l: Loader, seen: set<string>, prefix: string): Outcome
    decreases 2 * |l.paths - seen|, Size(raw), 2
  {
    if raw.Mapping? then ResolveKeys(raw, l, seen, prefix, 0, []) else Ok(raw)
  }

  function ResolveKeys(raw: Node, l: Loader, seen: set<string>, prefix: string, i: nat, acc: seq<Pair>): Outcome
    requires raw.Mapping? && i <= |Keys(raw)|
    decreases 2 * |l.paths - seen|, Size(raw), 1, |Keys(raw)| - i
  {
    if i == |Keys(raw)| then Ok(Mapping(acc))
    else
      var key := Keys(raw)[i];
      match ResolveKey(key, Get(raw, key).value, l, seen, Join(prefix, key))
      case Err(e) => Err(e)
      case Ok(v) => ResolveKeys(raw, l, seen, prefix, i + 1, Put(acc, key, v))
  }

  function ResolveKey(key: string, val: Node, l: Loader, seen: set<string>, current: string): Outcome
    decreases 2 * |l.paths - seen|, Size(val), 4
  {
    if current == "governance" || !val.Mapping? then Ok(val)
    else
      var preset, presets := PresetPath(val), PresetsList(val);
      if preset.Some? && presets.Some? then Err(BothDirectives(current))
      else if presets.Some? then
        if current in KEYED_LISTS then ComposeList(presets.value, current, val, l, seen, [])
        else if current in KEYED_MAPS then ComposeMap(presets.value, current, val, l, seen, [])
        else Err(NotKeyed(current))
      else if preset.None? then Resolve(val, l, seen, current)
      else ResolvePreset(key, val, preset.value, l, seen, current)
  }

  function ResolvePreset(key: string, section: Node, path: string, l: Loader, seen: set<string>,
      current: string): Outcome
    decreases 2 * |l.paths - seen|, Size(section), 3
  {
    if path in seen then Err(Circular(path))
    else
      match LoadPreset(l, path, Policy(section))
      case Err(e) => Err(e)
      case Ok((top, value)) =>
        if top != key then Err(WrongTopKey(path))
        else if !value.Mapping? then
          Ok(if Keys(LocalPart(section)) != [] then LocalPart(section) else value)
        else
          UnseenShrinks(l, seen, path);
          match ResolveLoaded(top, value, l, seen + {path}, current)
          case Err(e) => Err(e)
          case Ok(resolved) =>
            match Resolve(LocalPart(section), l, seen + {path}, current)
            case Err(e) => Err(e)
            case Ok(local) => Ok(MergedValue(Some(resolved), local))
  }

  /** The value a preset file declares, its own chained preset first. */
  function ResolveLoaded(top: string, value: Node, l: Loader, seen: set<string>, current: string): Outcome
    decreases 2 * |l.paths - seen| + 1, 1
  {
    match PresetPath(value)
    case None => Resolve(value, l, seen, current)
    case Some(inner) =>
      if inner in seen then Err(Circular(inner))
      else
        match ResolveChained(top, inner, l, seen)
        case Err(e) => Err(e)
        case Ok(section) =>
          match Resolve(LocalPart(value), l, seen, current)
          case Err(e) => Err(e)
          case Ok(own) => Ok(MergedValue(Get(section, top), own))
  }

  /** { top: { preset: inner } } resolved on its own, from the root path. */
  function ResolveChained(top: string, inner: string, l: Loader, seen: set<string>): Outcome
    decreases 2 * |l.paths - seen| + 1, 0
  {
    Resolve(Wrap(top, inner), l, seen, "")
  }

  function Wrap(top: string, inner: string): Node {
    Mapping([Pair(top, Mapping([Pair("preset", Scalar(inner))]))])
  }

  // ---- preset-free trees ------------------------------------------------------------------------

  /** nodeHasPresetKey */
  predicate HasPresetKey(n: Node)
    decreases n
  {
    match n
    case Scalar(_) => false
    case Sequence(items) => exists i :: 0 <= i < |items| && HasPresetKey(items[i])
    case Mapping(ps) => exists i :: 0 <= i < |ps| && (ps[i].key in {"preset", "presets"} || HasPresetKey(ps[i].value))
  }

  lemma NoDirective(n: Node)
    requires n.Mapping? && !HasPresetKey(n)
    ensures PresetPath(n).None? && PresetsList(n).None?
  {
    forall k | k in {"preset", "presets"} ensures k !in Keys(n) {
      assert forall i :: 0 <= i < |n.pairs| ==> PairKeys(n.pairs)[i] == n.pairs[i].key != k;
    }
  }

  lemma PresetFreeBelow(n: Node, key: string)
    requires !HasPresetKey(n) && Get(n, key).Some?
    ensures !HasPresetKey(Get(n, key).value)
  {
    var i :| 0 <= i < |n.pairs| && n.pairs[i] == Pair(key, Get(n, key).value);
  }

  /** No preset key anywhere but in the opaque governance payload: nothing to ask the loader for. */
  predicate NeedsNoLoad(raw: Node, prefix: string) {
    forall k <- Keys(raw) :: Join(prefix, k) == "governance" || !HasPresetKey(Get(raw, k).value)
  }

  lemma PresetFreeNeedsNoLoad(raw: Node, prefix: string)
    requires !HasPresetKey(raw)
    ensures NeedsNoLoad(raw, prefix)
  {
    forall k <- Keys(raw) ensures !HasPresetKey(Get(raw, k).value) {
      PresetFreeBelow(raw, k);
    }
  }

  // ---- the code, with its shared mutable stack --------------------------------------------------

  /** The stack of references, and every path the loader was asked for so far. */
  class Seen {
    var paths: set<string>
    ghost var loads: seq<string>

    constructor ()
      ensures paths == {} && loads == []
    {
      paths := {};
      loads := [];
    }

    method Load(l: Loader, path: string, policy: string) returns (r: Result<(string, Node), Error>)
      modifies this`loads
      ensures r == LoadPreset(l, path, policy) && loads == old(loads) + [path]
    {
      loads := loads + [path];
      r := LoadPreset(l, path, policy);
    }
  }

  /** Between the two logs the loader was asked for nothing on the stack. */
  ghost predicate LoadedOff(before: seq<string>, after: seq<string>, stack: set<string>) {
    before <= after && forall i :: |before| <= i < |after| ==> after[i] !in stack
  }

  lemma OneLoad(loads: seq<string>, path: string, stack: set<string>)
    ensures LoadedOff(loads, loads, stack)
    ensures path !in stack ==> LoadedOff(loads, loads + [path], stack)
  {
  }

  lemma LoadedOffTrans(a: seq<string>, b: seq<string>, c: seq<string>, small: set<string>, stack: set<string>)
    requires LoadedOff(a, b, small) && LoadedOff(b, c, stack) && small <= stack
    ensures LoadedOff(a, c, small)
  {
    assert forall i :: 0 <= i < |b| ==> c[i] == b[i];
  }

  /** loadNavigatedPreset leaves its path on the stack; the caller takes it off. */
  method LoadNavigatedPreset(path: string, topKey: string, nav: seq<string>, l: Loader, seen: Seen) returns (r: Outcome)
    modifies seen
    ensures r == LoadNavigated(l, old(seen.paths), path, topKey, nav)
    ensures LoadedOff(old(seen.loads), seen.loads, old(seen.paths))
    ensures r.Ok? ==> path !in old(seen.paths) && seen.paths == old(seen.paths) + {path}
  {
    hide LoadPreset, LoadedOff, Find;
    OneLoad(seen.loads, path, seen.paths);
    if path in seen.paths {
      return Err(Circular(path));
    }
    seen.paths := seen.paths + {path};
    var loaded := seen.Load(l, path, "");
    if loaded.Err? {
      return Err(loaded.error);
    }
    var (top, val) := loaded.value;
    if top != topKey {
      return Err(WrongTopKey(path));
    }
    var n := 0;
    while n < |nav|
      invariant 0 <= n <= |nav| && seen.paths == old(seen.paths) + {path} && seen.loads == old(seen.loads) + [path]
      invariant Navigate(loaded.value.1, nav, path) == Navigate(val, nav[n..], path)
    {
      var next := Get(val, nav[n]);
      if next.None? {
        return Err(BadNavigation(path));
      }
      val := next.value;
      assert nav[n..][1..] == nav[n + 1..];
      n := n + 1;
    }
    return Ok(val);
  }

  method ResolvePresetList(presets: seq<string>, section: string, inline: Node, l: Loader, seen: Seen)
      returns (r: Outcome)
    modifies seen
    ensures r == ComposeList(presets, section, inline, l, old(seen.paths), [])
    ensures LoadedOff(old(seen.loads), seen.loads, old(seen.paths))
    ensures r.Ok? ==> seen.paths == old(seen.paths)
  {
    var parts := Split(section, '.');
    var items: seq<Node> := [];
    assert presets[0..] == presets;
    for i := 0 to |presets|
      invariant seen.paths == old(seen.paths) && LoadedOff(old(seen.loads), seen.loads, old(seen.paths))
      invariant ComposeList(presets, section, inline, l, old(seen.paths), []) ==
                  ComposeList(presets[i..], section, inline, l, old(seen.paths), items)
    {
      assert presets[i..][0] == presets[i] && presets[i..][1..] == presets[i + 1..];
      ghost var loads := seen.loads;
      var loaded := LoadNavigatedPreset(presets[i], parts[0], parts[1..], l, seen);
      LoadedOffTrans(old(seen.loads), loads, seen.loads, old(seen.paths), old(seen.paths));
      if loaded.Err? {
        return loaded;
      }
      if loaded.value.Sequence? {
        var more := AppendItems(items, loaded.value.items, section);
        if more.Err? {
          return Err(more.error);
        }
        items := more.value;
      }
      seen.paths := seen.paths - {presets[i]};
    }
    r := ComposeList([], section, inline, l, seen.paths, items);
  }

  method ResolvePresetMap(presets: seq<string>, section: string, inline: Node, l: Loader, seen: Seen)
      returns (r: Outcome)
    modifies seen
    ensures r == ComposeMap(presets, section, inline, l, old(seen.paths), [])
    ensures LoadedOff(old(seen.loads), seen.loads, old(seen.paths))
    ensures r.Ok? ==> seen.paths == old(seen.paths)
  {
    var parts := Split(section, '.');
    var pairs: seq<Pair> := [];
    assert presets[0..] == presets;
    for i := 0 to |presets|
      invariant seen.paths == old(seen.paths) && LoadedOff(old(seen.loads), seen.loads, old(seen.paths))
      invariant ComposeMap(presets, section, inline, l, old(seen.paths), []) ==
                  ComposeMap(presets[i..], section, inline, l, old(seen.paths), pairs)
    {
      assert presets[i..][0] == presets[i] && presets[i..][1..] == presets[i + 1..];
      ghost var loads := seen.loads;
      var loaded := LoadNavigatedPreset(presets[i], parts[0], parts[1..], l, seen);
      LoadedOffTrans(old(seen.loads), loads, seen.loads, old(seen.paths), old(seen.paths));
      if loaded.Err? {
        return loaded;
      }
      if loaded.value.Mapping? {
        var more := AddEntries(pairs, loaded.value, 0, {}, section);
        if more.Err? {
          return Err(more.error);
        }
        pairs := more.value;
      }
      seen.paths := seen.paths - {presets[i]};
    }
    r := ComposeMap([], section, inline, l, seen.paths, pairs);
  }

  /** resolvePresetsInner: one result key per key of raw; on success the stack is as it was. */
  method ResolvePresetsInner(raw: Node, l: Loader, seen: Seen, prefix: string) returns (r: Outcome)
    modifies seen
    ensures r == Resolve(raw, l, old(seen.paths), prefix)
    ensures LoadedOff(old(seen.loads), seen.loads, old(seen.paths))
    ensures NeedsNoLoad(raw, prefix) || !HasPresetKey(raw) ==> seen.loads == old(seen.loads)
    ensures r.Ok? ==> seen.paths == old(seen.paths)
    decreases 2 * |l.paths - seen.paths|, Size(raw), 2
  {
    if !HasPresetKey(raw) {
      PresetFreeNeedsNoLoad(raw, prefix);
    }
    if !raw.Mapping? {
      return Ok(raw);
    }
    var result := new MappingNode([]);
    var keys := Keys(raw);
    for i := 0 to |keys|
      invariant seen.paths == old(seen.paths) && LoadedOff(old(seen.loads), seen.loads, old(seen.paths))
      invariant NeedsNoLoad(raw, prefix) ==> seen.loads == old(seen.loads)
      invariant Resolve(raw, l, old(seen.paths), prefix) ==
                  ResolveKeys(raw, l, old(seen.paths), prefix, i, result.pairs)
    {
      hide Get, Put, HasPresetKey, LoadedOff, Join;
      var val := Get(raw, keys[i]).value;
      ghost var loads := seen.loads;
      assert keys[i] in Keys(raw);
      var v := ResolveSection(keys[i], val, l, seen, Join(prefix, keys[i]));
      LoadedOffTrans(old(seen.loads), loads, seen.loads, old(seen.paths), old(seen.paths));
      if v.Err? {
        return v;
      }
      result.Set(keys[i], v.value);
    }
    return Ok(Mapping(result.pairs));
  }

  method ResolveSection(key: string, val: Node, l: Loader, seen: Seen, current: string) returns (r: Outcome)
    modifies seen
    ensures r == ResolveKey(key, val, l, old(seen.paths), current)
    ensures LoadedOff(old(seen.loads), seen.loads, old(seen.paths))
    ensures current == "governance" || !HasPresetKey(val) ==> seen.loads == old(seen.loads)
    ensures r.Ok? ==> seen.paths == old(seen.paths)
    decreases 2 * |l.paths - seen.paths|, Size(val), 4
  {
    if current == "governance" || !val.Mapping? {
      return Ok(val);
    }
    var preset, presets := PresetPath(val), PresetsList(val);
    if !HasPresetKey(val) {
      NoDirective(val);
    }
    if preset.Some? && presets.Some? {
      return Err(BothDirectives(current));
    }
    if presets.Some? {
      if current in KEYED_LISTS {
        r := ResolvePresetList(presets.value, current, val, l, seen);
      } else if current in KEYED_MAPS {
        r := ResolvePresetMap(presets.value, current, val, l, seen);
      } else {
        r := Err(NotKeyed(current));
      }
    } else if preset.None? {
      r := ResolvePresetsInner(val, l, seen, current);
    } else {
      r := ResolveReference(key, val, preset.value, l, seen, current);
    }
  }

  method ResolveReference(key: string, section: Node, path: string, l: Loader, seen: Seen, current: string)
      returns (r: Outcome)
    modifies seen
    ensures r == ResolvePreset(key, section, path, l, old(seen.paths), current)
    ensures LoadedOff(old(seen.loads), seen.loads, old(seen.paths))
    ensures r.Ok? ==> seen.paths == old(seen.paths)
    decreases 2 * |l.paths - seen.paths|, Size(section), 3
  {
    hide LoadPreset, LoadedOff, LocalPart, MergedValue, PresetPath, Policy, Resolve, HasPresetKey, Keys, Get;
    OneLoad(seen.loads, path, seen.paths);
    if path in seen.paths {
      return Err(Circular(path));
    }
    ghost var before, log0 := seen.paths, seen.loads;
    seen.paths := seen.paths + {path};
    var loaded := seen.Load(l, path, Policy(section));
    if loaded.Err? {
      return Err(loaded.error);
    }
    var (top, value) := loaded.value;
    if top != key {
      return Err(WrongTopKey(path));
    }
    UnseenShrinks(l, before, path);
    if !value.Mapping? {
      r := Ok(if Keys(LocalPart(section)) != [] then LocalPart(section) else value);
    } else {
      var inner := PresetPath(value);
      var resolved: Node;
      if inner.Some? {
        if inner.value in seen.paths {
          return Err(Circular(inner.value));
        }
        ghost var log1 := seen.loads;
        var chained := ResolvePresetsInner(Wrap(top, inner.value), l, seen, "");
        LoadedOffTrans(log0, log1, seen.loads, before, before + {path});
        assert chained == ResolveChained(top, inner.value, l, before + {path});
        if chained.Err? {
          return chained;
        }
        ghost var log2 := seen.loads;
        var own := ResolvePresetsInner(LocalPart(value), l, seen, current);
        LoadedOffTrans(log0, log2, seen.loads, before, before + {path});
        if own.Err? {
          return own;
        }
        resolved := MergedValue(Get(chained.value, top), own.value);
      } else {
        ghost var log1 := seen.loads;
        var whole := ResolvePresetsInner(value, l, seen, current);
        LoadedOffTrans(log0, log1, seen.loads, before, before + {path});
        if whole.Err? {
          return whole;
        }
        resolved := whole.value;
      }
      ghost var log3 := seen.loads;
      var local := ResolvePresetsInner(LocalPart(section), l, seen, current);
      LoadedOffTrans(log0, log3, seen.loads, before, before + {path});
      if local.Err? {
        return local;
      }
      var merged := Merged(resolved, local.value);
      r := Ok(merged);
    }
    seen.paths := seen.paths - {path};
  }
}
