/**
  What composing a keyed section from several presets yields, in closed form: everything the presets
  hold, in order, then the section's own entries, provided nothing is contributed twice.
 */
module PresetComposition {
  import opened Wrappers
  import opened Nodes
  import opened DeepMerge
  import opened Presets

  /** The node one preset contributes to a section, or why it contributes none. */
  function Contribution(l: Loader, seen: set<string>, section: string, path: string): Outcome {
    var parts := Split(section, '.');
    LoadNavigated(l, seen, path, parts[0], parts[1..])
  }

  ghost predicate AllLoad(l: Loader, seen: set<string>, section: string, presets: seq<string>) {
    forall p <- presets :: Contribution(l, seen, section, p).Ok?
  }

  // ---- mappings ---------------------------------------------------------------------------------

  /** n's entries from the i-th key on, without the skipped keys. */
  function Entries(n: Node, i: nat, skip: set<string>): seq<Pair>
    requires i <= |Keys(n)|
    decreases |Keys(n)| - i
  {
    if i == |Keys(n)| then []
    else (if Keys(n)[i] in skip then [] else [Pair(Keys(n)[i], Get(n, Keys(n)[i]).value)]) + Entries(n, i + 1, skip)
  }

  function MapLayers(l: Loader, seen: set<string>, section: string, presets: seq<string>): seq<Pair> {
    if presets == [] then []
    else
      (match Contribution(l, seen, section, presets[0])
       case Ok(n) => if n.Mapping? then Entries(n, 0, {}) else []
       case Err(_) => [])
      + MapLayers(l, seen, section, presets[1..])
  }

  lemma DistinctPrefix(a: seq<string>, b: seq<string>)
    requires Distinct(a + b)
    ensures Distinct(a)
  {
    forall i, j | 0 <= i < j < |a| ensures a[i] != a[j] {
      assert (a + b)[i] == a[i] && (a + b)[j] == a[j];
    }
  }

  lemma DistinctSnoc(a: seq<string>, k: string)
    requires Distinct(a)
    ensures Distinct(a + [k]) <==> k !in a
  {
    if k in a {
      var i :| 0 <= i < |a| && a[i] == k;
      assert (a + [k])[i] == (a + [k])[|a|];
    }
  }

  /** A repeated key below makes the whole composition fail, and nothing else does. */
  lemma {:induction false} AddEntriesExactly(acc: seq<Pair>, n: Node, i: nat, skip: set<string>, section: string)
    requires i <= |Keys(n)| && Distinct(PairKeys(acc))
    ensures var all := acc + Entries(n, i, skip);
            && (AddEntries(acc, n, i, skip, section).Ok? <==> Distinct(PairKeys(all)))
            && (AddEntries(acc, n, i, skip, section).Ok? ==> AddEntries(acc, n, i, skip, section).value == all)
    decreases |Keys(n)| - i
  {
    hide Get, Distinct, PairKeys, AddEntries, Entries, Keys;
    AddEntriesStep(acc, n, i, skip, section);
    if i < |Keys(n)| {
      var one := Pair(Keys(n)[i], Get(n, Keys(n)[i]).value);
      if one.key in skip {
        AddEntriesExactly(acc, n, i + 1, skip, section);
      } else {
        OneMoreKey(acc, one, Entries(n, i + 1, skip));
        if one.key !in PairKeys(acc) {
          AddEntriesExactly(acc + [one], n, i + 1, skip, section);
        }
      }
    }
  }

  lemma Regrouped<T>(a: seq<T>, b: seq<T>, c: seq<T>)
    ensures a + (b + c) == (a + b) + c
  {
  }

  lemma OneMoreKey(acc: seq<Pair>, one: Pair, more: seq<Pair>)
    requires Distinct(PairKeys(acc))
    ensures acc + ([one] + more) == (acc + [one]) + more
    ensures if one.key in PairKeys(acc) then !Distinct(PairKeys(acc + ([one] + more)))
              else Distinct(PairKeys(acc + [one]))
  {
    Regrouped(acc, [one], more);
    KeysWithOne(acc, one);
    hide Distinct, PairKeys;
    if Distinct(PairKeys((acc + [one]) + more)) {
      KeysDistinctPrefix(acc + [one], more);
    }
  }

  lemma KeysWithOne(acc: seq<Pair>, one: Pair)
    requires Distinct(PairKeys(acc))
    ensures Distinct(PairKeys(acc + [one])) <==> one.key !in PairKeys(acc)
  {
    OneKey(one);
    PairKeysConcat(acc, [one]);
    hide PairKeys;
    DistinctSnoc(PairKeys(acc), one.key);
  }

  /** One turn of the loop over a node's keys. */
  lemma AddEntriesStep(acc: seq<Pair>, n: Node, i: nat, skip: set<string>, section: string)
    requires i <= |Keys(n)|
    ensures if i == |Keys(n)| then AddEntries(acc, n, i, skip, section) == Ok(acc) && acc + Entries(n, i, skip) == acc
            else
              var one, more := Pair(Keys(n)[i], Get(n, Keys(n)[i]).value), Entries(n, i + 1, skip);
              if one.key in skip then
                acc + Entries(n, i, skip) == acc + more &&
                  AddEntries(acc, n, i, skip, section) == AddEntries(acc, n, i + 1, skip, section)
              else
                && Entries(n, i, skip) == [one] + more
                && if one.key in PairKeys(acc) then AddEntries(acc, n, i, skip, section).Err?
                   else AddEntries(acc, n, i, skip, section) == AddEntries(acc + [one], n, i + 1, skip, section)
  {
    hide Get, PairKeys, Keys;
    assert acc + [] == acc;
    assert i < |Keys(n)| ==> [] + Entries(n, i + 1, skip) == Entries(n, i + 1, skip);
  }

  lemma OneKey(p: Pair)
    ensures PairKeys([p]) == [p.key]
  {
  }

  lemma KeysDistinctPrefix(a: seq<Pair>, b: seq<Pair>)
    requires Distinct(PairKeys(a + b))
    ensures Distinct(PairKeys(a))
  {
    PairKeysConcat(a, b);
    DistinctPrefix(PairKeys(a), PairKeys(b));
  }

  /**
    Composing a keyed mapping succeeds exactly if every preset loads and no key is contributed twice,
    and then holds every contribution in order, the section's own entries last.
   */
  lemma {:induction false} ComposeMapExactly(presets: seq<string>, section: string, inline: Node, l: Loader,
      seen: set<string>, acc: seq<Pair>)
    requires Distinct(PairKeys(acc))
    ensures var all := acc + MapLayers(l, seen, section, presets) + Entries(inline, 0, DIRECTIVES);
            var r := ComposeMap(presets, section, inline, l, seen, acc);
            && (r.Ok? <==> AllLoad(l, seen, section, presets) && Distinct(PairKeys(all)))
            && (r.Ok? ==> r.value == Mapping(all))
    decreases |presets|
  {
    hide Entries, AddEntries, LoadNavigated, Distinct, PairKeys;
    var own := Entries(inline, 0, DIRECTIVES);
    if presets == [] {
      AddEntriesExactly(acc, inline, 0, DIRECTIVES, section);
      assert acc + [] == acc;
    } else {
      var n := Contribution(l, seen, section, presets[0]);
      var rest := MapLayers(l, seen, section, presets[1..]);
      assert presets == [presets[0]] + presets[1..];
      if n.Ok? {
        var here := if n.value.Mapping? then Entries(n.value, 0, {}) else [];
        assert acc + (here + rest) + own == (acc + here) + rest + own;
        if n.value.Mapping? {
          AddEntriesExactly(acc, n.value, 0, {}, section);
          if Distinct(PairKeys(acc + here)) {
            ComposeMapExactly(presets[1..], section, inline, l, seen, acc + here);
          } else if Distinct(PairKeys((acc + here) + (rest + own))) {
            KeysDistinctPrefix(acc + here, rest + own);
          }
          assert (acc + here) + rest + own == (acc + here) + (rest + own);
        } else {
          assert acc + [] == acc;
          ComposeMapExactly(presets[1..], section, inline, l, seen, acc);
        }
      }
    }
  }

  // ---- lists ------------------------------------------------------------------------------------

  ghost predicate AllNamed(items: seq<Node>) {
    forall n <- items :: Get(n, "id").Some?
  }

  function Id(n: Node): string {
    match Get(n, "id") case Some(id) => NodeValue(id) case None => ""
  }

  ghost predicate DistinctIds(items: seq<Node>) {
    forall i, j :: 0 <= i < j < |items| ==> Id(items[i]) != Id(items[j])
  }

  function ListLayers(l: Loader, seen: set<string>, section: string, presets: seq<string>): seq<Node> {
    if presets == [] then []
    else
      (match Contribution(l, seen, section, presets[0])
       case Ok(n) => if n.Sequence? then n.items else []
       case Err(_) => [])
      + ListLayers(l, seen, section, presets[1..])
  }

  function InlineItems(section: Node): seq<Node> {
    match Get(section, "items")
    case Some(Sequence(items)) => items
    case _ => []
  }

  ghost predicate Listable(items: seq<Node>) {
    AllNamed(items) && DistinctIds(items)
  }

  lemma ListableSnoc(acc: seq<Node>, n: Node)
    requires Listable(acc)
    ensures Listable(acc + [n]) <==> Get(n, "id").Some? && forall i :: 0 <= i < |acc| ==> Id(acc[i]) != Id(n)
  {
    hide Get, Id;
    var all := acc + [n];
    assert all[|acc|] == n && n in all;
    assert forall i :: 0 <= i < |acc| ==> all[i] == acc[i];
  }

  lemma ListablePrefix(a: seq<Node>, b: seq<Node>)
    requires Listable(a + b)
    ensures Listable(a)
  {
    assert forall i :: 0 <= i < |a| ==> (a + b)[i] == a[i];
    assert forall n <- a :: n in a + b;
  }

  lemma {:induction false} AppendItemsExactly(acc: seq<Node>, items: seq<Node>, section: string)
    requires Listable(acc)
    ensures AppendItems(acc, items, section).Ok? <==> Listable(acc + items)
    ensures AppendItems(acc, items, section).Ok? ==> AppendItems(acc, items, section).value == acc + items
    decreases |items|
  {
    if items == [] {
      assert acc + items == acc;
    } else {
      assert acc + items == (acc + [items[0]]) + items[1..];
      assert AllNamed(acc);
      assert forall i :: 0 <= i < |acc| ==> acc[i] in acc;
      ListableSnoc(acc, items[0]);
      hide AllNamed, DistinctIds;
      if Listable(acc + [items[0]]) {
        AppendItemsExactly(acc + [items[0]], items[1..], section);
      } else if Listable(acc + items) {
        ListablePrefix(acc + [items[0]], items[1..]);
      }
    }
  }

  lemma ComposeInline(section: string, inline: Node, l: Loader, seen: set<string>, acc: seq<Node>)
    requires Listable(acc)
    ensures var r := ComposeList([], section, inline, l, seen, acc);
            (r.Ok? <==> Listable(acc + InlineItems(inline))) &&
              (r.Ok? ==> r.value == Sequence(acc + InlineItems(inline)))
  {
    hide Listable, Get;
    AppendItemsExactly(acc, InlineItems(inline), section);
    assert acc + [] == acc;
  }

  /**
    Composing a keyed list succeeds exactly if every preset loads, every item has an id and no id is
    contributed twice; and then lists every contribution in order, the section's own items last.
   */
  lemma {:induction false} ComposeListExactly(presets: seq<string>, section: string, inline: Node, l: Loader,
      seen: set<string>, acc: seq<Node>)
    requires Listable(acc)
    ensures var all := acc + ListLayers(l, seen, section, presets) + InlineItems(inline);
            var r := ComposeList(presets, section, inline, l, seen, acc);
            && (r.Ok? <==> AllLoad(l, seen, section, presets) && Listable(all))
            && (r.Ok? ==> r.value == Sequence(all))
    decreases |presets|
  {
    hide AppendItems, LoadNavigated, Listable, Get, Split;
    var own := InlineItems(inline);
    if presets == [] {
      ComposeInline(section, inline, l, seen, acc);
      assert acc + [] == acc;
    } else {
      hide InlineItems;
      ComposeListStep(presets, section, inline, l, seen, acc);
      hide ComposeList, Contribution, AllLoad, ListLayers;
      var n := Contribution(l, seen, section, presets[0]);
      var rest := ListLayers(l, seen, section, presets[1..]);
      if n.Ok? {
        var here := if n.value.Sequence? then n.value.items else [];
        AppendItemsExactly(acc, here, section);
        Regroup(acc, here, rest, own);
        if Listable(acc + here) {
          ComposeListExactly(presets[1..], section, inline, l, seen, acc + here);
        } else if Listable((acc + here) + (rest + own)) {
          ListablePrefix(acc + here, rest + own);
        }
      }
    }
  }

  lemma Regroup(a: seq<Node>, b: seq<Node>, c: seq<Node>, d: seq<Node>)
    ensures a + (b + c) + d == (a + b) + c + d == (a + b) + (c + d)
  {
    Regrouped(a, b, c);
    Regrouped(a + b, c, d);
  }

  /** One turn of the loop over presets. */
  lemma ComposeListStep(presets: seq<string>, section: string, inline: Node, l: Loader, seen: set<string>,
      acc: seq<Node>)
    requires presets != []
    ensures var n := Contribution(l, seen, section, presets[0]);
            && (AllLoad(l, seen, section, presets) <==> n.Ok? && AllLoad(l, seen, section, presets[1..]))
            && (n.Err? ==> ComposeList(presets, section, inline, l, seen, acc).Err?)
            && (n.Ok? ==>
                  var here := if n.value.Sequence? then n.value.items else [];
                  && ListLayers(l, seen, section, presets) == here + ListLayers(l, seen, section, presets[1..])
                  && ComposeList(presets, section, inline, l, seen, acc) ==
                     match AppendItems(acc, here, section)
                     case Ok(more) => ComposeList(presets[1..], section, inline, l, seen, more)
                     case Err(e) => Err(e))
  {
    hide LoadNavigated, Get, Split;
    assert presets == [presets[0]] + presets[1..];
  }
}
