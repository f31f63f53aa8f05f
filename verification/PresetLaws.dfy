/**
  What preset resolution guarantees, for every loader, tree and stack (preset.go).
 */
module PresetLaws {
  import opened Wrappers
  import opened Nodes
  import opened Presets

  // ---- preset-free trees ------------------------------------------------------------------------

  lemma {:induction false} PutInOrder(ps: seq<Pair>, i: nat)
    requires i < |ps| && Distinct(PairKeys(ps))
    ensures Put(ps[..i], ps[i].key, ps[i].value) == ps[..i + 1]
  {
    PutAt(ps[..i], i, ps[i].key, ps[i].value) by {
      forall j | 0 <= j < i ensures ps[..i][j].key != ps[i].key {
        assert PairKeys(ps)[j] != PairKeys(ps)[i];
      }
    }
  }

  lemma {:induction false} KeysResolveToThemselves(raw: Node, l: Loader, seen: set<string>, prefix: string, i: nat)
    requires raw.Mapping? && i <= |Keys(raw)| && UniqueKeys(raw) && !HasPresetKey(raw)
    ensures ResolveKeys(raw, l, seen, prefix, i, raw.pairs[..i]) == Ok(raw)
    decreases Size(raw), 0, |Keys(raw)| - i
  {
    if i == |Keys(raw)| {
      assert raw.pairs[..i] == raw.pairs;
    } else {
      var p := raw.pairs[i];
      FindAt(raw.pairs, i);
      UniqueBelow(raw.pairs, i);
      PresetFreeIsIdentity(p.value, l, seen, Join(prefix, p.key));
      assert ResolveKey(p.key, p.value, l, seen, Join(prefix, p.key)) == Ok(p.value) by {
        if p.value.Mapping? {
          NoDirective(p.value);
        }
      }
      PutInOrder(raw.pairs, i);
      KeysResolveToThemselves(raw, l, seen, prefix, i + 1);
    }
  }

  /**
    A unique-key tree without preset keys resolves to itself, under every loader, so the loader's
    answers are never used.
   */
  lemma {:induction false} PresetFreeIsIdentity(raw: Node, l: Loader, seen: set<string>, prefix: string)
    requires UniqueKeys(raw) && !HasPresetKey(raw)
    ensures Resolve(raw, l, seen, prefix) == Ok(raw)
    decreases Size(raw), 1
  {
    if raw.Mapping? {
      KeysResolveToThemselves(raw, l, seen, prefix, 0);
      assert raw.pairs[..0] == [];
    }
  }

  // ---- key order --------------------------------------------------------------------------------

  lemma TakeNext(ks: seq<string>, i: nat)
    requires i < |ks| && Distinct(ks)
    ensures ks[i] !in ks[..i] && ks[..i + 1] == ks[..i] + [ks[i]]
  {
  }

  lemma {:induction false} ResolvedKeys(raw: Node, l: Loader, seen: set<string>, prefix: string, i: nat, acc: seq<Pair>)
    requires raw.Mapping? && i <= |Keys(raw)| && Distinct(Keys(raw)) && PairKeys(acc) == Keys(raw)[..i]
    ensures var r := ResolveKeys(raw, l, seen, prefix, i, acc); r.Ok? ==> r.value.Mapping? && Keys(r.value) == Keys(raw)
    decreases |Keys(raw)| - i
  {
    hide Put, ResolveKey, Find, Get, PairKeys;
    if i < |Keys(raw)| {
      var key := Keys(raw)[i];
      var v := ResolveKey(key, Get(raw, key).value, l, seen, Join(prefix, key));
      if v.Ok? {
        PutKeys(acc, key, v.value);
        TakeNext(Keys(raw), i);
        ResolvedKeys(raw, l, seen, prefix, i + 1, Put(acc, key, v.value));
      }
    } else {
      assert Keys(raw)[..i] == Keys(raw);
    }
  }

  /** Resolution keeps a mapping's keys and their document order. */
  lemma ResolutionKeepsKeys(raw: Node, l: Loader, seen: set<string>, prefix: string)
    requires raw.Mapping? && Distinct(Keys(raw)) && Resolve(raw, l, seen, prefix).Ok?
    ensures Keys(Resolve(raw, l, seen, prefix).value) == Keys(raw)
  {
    ResolvedKeys(raw, l, seen, prefix, 0, []);
  }

  // ---- the cycle check --------------------------------------------------------------------------

  /** Two loaders that answer alike off the stack. */
  ghost predicate AgreeOff(l: Loader, m: Loader, seen: set<string>) {
    && l.paths - seen == m.paths - seen
    && forall p, q :: p in l.paths - seen ==> l.load(p, q) == m.load(p, q)
  }

  lemma LoadAgrees(l: Loader, m: Loader, seen: set<string>, path: string, policy: string)
    requires AgreeOff(l, m, seen) && path !in seen
    ensures LoadPreset(l, path, policy) == LoadPreset(m, path, policy)
  {
    assert path in l.paths <==> path in l.paths - seen;
    assert path in m.paths <==> path in m.paths - seen;
  }

  lemma {:induction false} ListRobust(presets: seq<string>, section: string, inline: Node, l: Loader,
      seen: set<string>, m: Loader, small: set<string>, acc: seq<Node>)
    requires AgreeOff(l, m, seen) && small <= seen && ComposeList(presets, section, inline, l, seen, acc).Ok?
    ensures ComposeList(presets, section, inline, m, small, acc) == ComposeList(presets, section, inline, l, seen, acc)
    decreases |presets|
  {
    if presets != [] {
      LoadAgrees(l, m, seen, presets[0], "");
      var parts := Split(section, '.');
      var n := LoadNavigated(l, seen, presets[0], parts[0], parts[1..]).value;
      ListRobust(presets[1..], section, inline, l, seen, m, small,
        if n.Sequence? then AppendItems(acc, n.items, section).value else acc);
    }
  }

  lemma {:induction false} MapRobust(presets: seq<string>, section: string, inline: Node, l: Loader,
      seen: set<string>, m: Loader, small: set<string>, acc: seq<Pair>)
    requires AgreeOff(l, m, seen) && small <= seen && ComposeMap(presets, section, inline, l, seen, acc).Ok?
    ensures ComposeMap(presets, section, inline, m, small, acc) == ComposeMap(presets, section, inline, l, seen, acc)
    decreases |presets|
  {
    if presets != [] {
      LoadAgrees(l, m, seen, presets[0], "");
      var parts := Split(section, '.');
      var n := LoadNavigated(l, seen, presets[0], parts[0], parts[1..]).value;
      MapRobust(presets[1..], section, inline, l, seen, m, small,
        if n.Mapping? then AddEntries(acc, n, 0, {}, section).value else acc);
    }
  }

  /**
    A successful resolution depends on nothing the stack could hide: it gives the same tree on any
    smaller stack, and under any loader that answers alike off the stack. So the cycle check never
    changes an answer, and a reference on the stack is never followed.
   */
  lemma {:induction false} SuccessIsRobust(raw: Node, l: Loader, seen: set<string>, m: Loader, small: set<string>,
      prefix: string)
    requires AgreeOff(l, m, seen) && small <= seen && Resolve(raw, l, seen, prefix).Ok?
    ensures Resolve(raw, m, small, prefix) == Resolve(raw, l, seen, prefix)
    decreases 2 * |l.paths - seen|, Size(raw), 2
  {
    if raw.Mapping? {
      KeysRobust(raw, l, seen, m, small, prefix, 0, []);
    }
  }

  lemma {:induction false} KeysRobust(raw: Node, l: Loader, seen: set<string>, m: Loader, small: set<string>,
      prefix: string, i: nat, acc: seq<Pair>)
    requires AgreeOff(l, m, seen) && small <= seen && raw.Mapping? && i <= |Keys(raw)| &&
               ResolveKeys(raw, l, seen, prefix, i, acc).Ok?
    ensures ResolveKeys(raw, m, small, prefix, i, acc) == ResolveKeys(raw, l, seen, prefix, i, acc)
    decreases 2 * |l.paths - seen|, Size(raw), 1, |Keys(raw)| - i
  {
    if i < |Keys(raw)| {
      var key := Keys(raw)[i];
      KeyRobust(key, Get(raw, key).value, l, seen, m, small, Join(prefix, key));
      var v := ResolveKey(key, Get(raw, key).value, l, seen, Join(prefix, key)).value;
      KeysRobust(raw, l, seen, m, small, prefix, i + 1, Put(acc, key, v));
    }
  }

  lemma {:induction false} KeyRobust(key: string, val: Node, l: Loader, seen: set<string>, m: Loader,
      small: set<string>, current: string)
    requires AgreeOff(l, m, seen) && small <= seen && ResolveKey(key, val, l, seen, current).Ok?
    ensures ResolveKey(key, val, m, small, current) == ResolveKey(key, val, l, seen, current)
    decreases 2 * |l.paths - seen|, Size(val), 4
  {
    if current != "governance" && val.Mapping? {
      var preset, presets := PresetPath(val), PresetsList(val);
      if presets.Some? {
        if current in KEYED_LISTS {
          ListRobust(presets.value, current, val, l, seen, m, small, []);
        } else {
          MapRobust(presets.value, current, val, l, seen, m, small, []);
        }
      } else if preset.None? {
        SuccessIsRobust(val, l, seen, m, small, current);
      } else {
        ReferenceRobust(key, val, preset.value, l, seen, m, small, current);
      }
    }
  }

  lemma {:induction false} ReferenceRobust(key: string, section: Node, path: string, l: Loader, seen: set<string>,
      m: Loader, small: set<string>, current: string)
    requires AgreeOff(l, m, seen) && small <= seen && ResolvePreset(key, section, path, l, seen, current).Ok?
    ensures ResolvePreset(key, section, path, m, small, current) == ResolvePreset(key, section, path, l, seen, current)
    decreases 2 * |l.paths - seen|, Size(section), 3
  {
    LoadAgrees(l, m, seen, path, Policy(section));
    var (top, value) := LoadPreset(l, path, Policy(section)).value;
    UnseenShrinks(l, seen, path);
    var seen', small' := seen + {path}, small + {path};
    assert AgreeOff(l, m, seen') by {
      assert l.paths - seen' == (l.paths - seen) - {path};
      assert m.paths - seen' == (m.paths - seen) - {path};
    }
    if value.Mapping? {
      LoadedRobust(top, value, l, seen', m, small', current);
      SuccessIsRobust(LocalPart(section), l, seen', m, small', current);
    }
  }

  lemma {:induction false} LoadedRobust(top: string, value: Node, l: Loader, seen: set<string>, m: Loader,
      small: set<string>, current: string)
    requires AgreeOff(l, m, seen) && small <= seen && ResolveLoaded(top, value, l, seen, current).Ok?
    ensures ResolveLoaded(top, value, m, small, current) == ResolveLoaded(top, value, l, seen, current)
    decreases 2 * |l.paths - seen| + 1, 1
  {
    match PresetPath(value)
    case None => SuccessIsRobust(value, l, seen, m, small, current);
    case Some(inner) =>
      assert ResolveChained(top, inner, l, seen).Ok?;
      SuccessIsRobust(Wrap(top, inner), l, seen, m, small, "");
      SuccessIsRobust(LocalPart(value), l, seen, m, small, current);
  }

  /** What the loader would answer for a path on the stack has no influence at all. */
  lemma StackIsNeverLoaded(raw: Node, l: Loader, m: Loader, seen: set<string>, prefix: string)
    requires AgreeOff(l, m, seen)
    ensures Resolve(raw, l, seen, prefix).Ok? <==> Resolve(raw, m, seen, prefix).Ok?
    ensures Resolve(raw, l, seen, prefix).Ok? ==> Resolve(raw, m, seen, prefix) == Resolve(raw, l, seen, prefix)
  {
    if Resolve(raw, l, seen, prefix).Ok? {
      SuccessIsRobust(raw, l, seen, m, seen, prefix);
    } else if Resolve(raw, m, seen, prefix).Ok? {
      SuccessIsRobust(raw, m, seen, l, seen, prefix);
    }
  }

  // ---- cycles never resolve ---------------------------------------------------------------------

  /** Some section of n, reached through plain mappings, references a preset in bad. */
  ghost predicate LeadsTo(n: Node, bad: set<string>)
    decreases Size(n), 0
  {
    exists k :: k in Keys(n) && SectionLeadsTo(k, Get(n, k).value, bad)
  }

  ghost predicate SectionLeadsTo(key: string, v: Node, bad: set<string>)
    decreases Size(v), 1
  {
    && key != "governance" && v.Mapping? && PresetsList(v).None?
    && match PresetPath(v)
       case Some(p) => p in bad
       case None => LeadsTo(v, bad)
  }

  /** Every preset in bad that loads references bad again: the references form cycles. */
  ghost predicate Cyclic(l: Loader, bad: set<string>) {
    forall p, policy :: p in bad && LoadPreset(l, p, policy).Ok? ==>
      var (top, v) := LoadPreset(l, p, policy).value;
      && v.Mapping? && top != "governance"
      && match PresetPath(v)
         case Some(inner) => inner in bad
         case None => LeadsTo(v, bad)
  }

  lemma JoinIsNotGovernance(prefix: string, key: string)
    requires key != "governance"
    ensures Join(prefix, key) != "governance"
  {
    if prefix != "" {
      assert Join(prefix, key)[|prefix|] == '.';
      assert forall i :: 0 <= i < |"governance"| ==> "governance"[i] != '.';
    }
  }

  lemma {:induction false} OneBadKey(raw: Node, l: Loader, seen: set<string>, prefix: string, i: nat, acc: seq<Pair>,
      j: nat)
    requires raw.Mapping? && i <= j < |Keys(raw)|
    requires var k := Keys(raw)[j]; ResolveKey(k, Get(raw, k).value, l, seen, Join(prefix, k)).Err?
    ensures ResolveKeys(raw, l, seen, prefix, i, acc).Err?
    decreases j - i
  {
    hide Put, ResolveKey, Find, Get, PairKeys, Join;
    if i < j {
      var k := Keys(raw)[i];
      var v := ResolveKey(k, Get(raw, k).value, l, seen, Join(prefix, k));
      if v.Ok? {
        OneBadKey(raw, l, seen, prefix, i + 1, Put(acc, k, v.value), j);
      }
    }
  }

  /**
    A tree whose references run into a cycle never resolves, whatever the stack and whatever else
    the presets hold: the resolver fails instead of recurring.
   */
  lemma {:induction false} CyclesNeverResolve(raw: Node, l: Loader, seen: set<string>, prefix: string, bad: set<string>)
    requires Cyclic(l, bad) && LeadsTo(raw, bad)
    ensures Resolve(raw, l, seen, prefix).Err?
    decreases 2 * |l.paths - seen|, Size(raw), 2
  {
    var k :| k in Keys(raw) && SectionLeadsTo(k, Get(raw, k).value, bad);
    var v := Get(raw, k).value;
    JoinIsNotGovernance(prefix, k);
    match PresetPath(v) {
      case Some(p) => CyclicReferenceFails(k, v, p, l, seen, Join(prefix, k), bad);
      case None => CyclesNeverResolve(v, l, seen, Join(prefix, k), bad);
    }
    var j :| 0 <= j < |Keys(raw)| && Keys(raw)[j] == k;
    OneBadKey(raw, l, seen, prefix, 0, [], j);
  }

  lemma {:induction false} CyclicReferenceFails(key: string, section: Node, path: string, l: Loader,
      seen: set<string>, current: string, bad: set<string>)
    requires Cyclic(l, bad) && path in bad
    ensures ResolvePreset(key, section, path, l, seen, current).Err?
    decreases 2 * |l.paths - seen|, Size(section), 1
  {
    if path !in seen && LoadPreset(l, path, Policy(section)).Ok? {
      var (top, value) := LoadPreset(l, path, Policy(section)).value;
      UnseenShrinks(l, seen, path);
      match PresetPath(value)
      case Some(inner) =>
        WrapLeadsTo(top, inner, bad);
        CyclesNeverResolve(Wrap(top, inner), l, seen + {path}, "", bad);
        assert ResolveChained(top, inner, l, seen + {path}).Err?;
      case None =>
        CyclesNeverResolve(value, l, seen + {path}, current, bad);
    }
  }

  lemma WrapLeadsTo(top: string, inner: string, bad: set<string>)
    requires top != "governance" && inner in bad && inner != ""
    ensures LeadsTo(Wrap(top, inner), bad)
  {
    var section := Mapping([Pair("preset", Scalar(inner))]);
    assert Find(section.pairs, "preset") == Some(Scalar(inner));
    assert PairKeys(section.pairs) == ["preset"];
    assert Get(section, "presets") == None;
    assert Get(Wrap(top, inner), top) == Some(section);
  }
}
