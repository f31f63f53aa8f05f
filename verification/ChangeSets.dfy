/**
  Change-set application and the strict equivalence gate (gogit_replay.go, gogit_replay_checkout.go).

  The gate compares rendered signatures. It is exact: on rename-free changes a signature determines
  its change, so equal signature multisets mean equal change-sets, and a change-set equal to the
  source's over a given tip means the tree is the applied tree.
 */
module ChangeSets {
  import opened Trees

  // ---- signatures -------------------------------------------------------------------------------

  function Action(c: Change): string {
    if c.from == ABSENT then "Insert" else if c.to == ABSENT then "Delete" else "Modify"
  }

  function Names(c: Change): string {
    c.from.name + "->" + c.to.name
  }

  function Blobs(c: Change): string {
    "|" + c.from.entry.hash + "->" + c.to.entry.hash + "|" + c.from.entry.mode + "->" + c.to.entry.mode
  }

  function Signature(c: Change): string {
    Action(c) + "|" + Names(c) + Blobs(c)
  }

  /** A change with at least one side, whose sides share a name when both are present. */
  predicate RenameFree(c: Change) {
    && (c.from != ABSENT || c.to != ABSENT)
    && (c.from != ABSENT ==> c.from.name != "")
    && (c.to != ABSENT ==> c.to.name != "")
    && (c.from != ABSENT && c.to != ABSENT ==> c.from.name == c.to.name)
  }

  lemma SplitEqual(a: string, x: string, b: string, y: string)
    requires a + x == b + y
    requires |a| == |b| || |x| == |y|
    ensures a == b && x == y
  {
    assert |a| == |b|;
    assert a == (a + x)[..|a|] == (b + y)[..|b|] == b;
    assert x == (a + x)[|a|..] == (b + y)[|b|..] == y;
  }

  lemma BlobsInjective(c: Change, d: Change)
    requires Blobs(c) == Blobs(d)
    ensures c.from.entry == d.from.entry && c.to.entry == d.to.entry
  {
    var f, t, g, u := c.from.entry, c.to.entry, d.from.entry, d.to.entry;
    SplitEqual("|" + f.hash + "->" + t.hash + "|" + f.mode + "->", t.mode,
      "|" + g.hash + "->" + u.hash + "|" + g.mode + "->", u.mode);
    SplitEqual("|" + f.hash + "->" + t.hash + "|" + f.mode, "->", "|" + g.hash + "->" + u.hash + "|" + g.mode, "->");
    SplitEqual("|" + f.hash + "->" + t.hash + "|", f.mode, "|" + g.hash + "->" + u.hash + "|", g.mode);
    SplitEqual("|" + f.hash + "->" + t.hash, "|", "|" + g.hash + "->" + u.hash, "|");
    SplitEqual("|" + f.hash + "->", t.hash, "|" + g.hash + "->", u.hash);
    SplitEqual("|" + f.hash, "->", "|" + g.hash, "->");
    SplitEqual("|", f.hash, "|", g.hash);
  }

  /** On rename-free changes the signature loses nothing. */
  lemma SignatureInjective(c: Change, d: Change)
    requires RenameFree(c) && RenameFree(d) && Signature(c) == Signature(d)
    ensures c == d
  {
    SplitEqual(Action(c) + "|" + Names(c), Blobs(c), Action(d) + "|" + Names(d), Blobs(d));
    BlobsInjective(c, d);
    SplitEqual(Action(c) + "|", Names(c), Action(d) + "|", Names(d));
    SplitEqual(Action(c), "|", Action(d), "|");
    assert Action(c)[0] == Action(d)[0];
    if c.from == ABSENT {
      SplitEqual("" + "->", c.to.name, "" + "->", d.to.name);
    } else if c.to == ABSENT {
      assert Names(c) == c.from.name + "->" && Names(d) == d.from.name + "->";
      SplitEqual(c.from.name, "->", d.from.name, "->");
    } else {
      assert |c.from.name| == |d.from.name|;
      SplitEqual(c.from.name + "->", c.to.name, d.from.name + "->", d.to.name);
      SplitEqual(c.from.name, "->", d.from.name, "->");
    }
  }

  /**
    With a rename the rendering would be ambiguous: two different renames share a signature. The gate
    never meets this input, since a tree diff holds no renames (DiffRenameFree).
   */
  lemma RenameSignaturesCollide(e: Entry)
    ensures var c := Change(Side("a", e), Side("b->c", e));
            var d := Change(Side("a->b", e), Side("c", e));
            c != d && Signature(c) == Signature(d)
  {
    assert "a" + "->" + "b->c" == "a->b" + "->" + "c";
  }

  // ---- equalChangeSets --------------------------------------------------------------------------

  function Signatures(cs: seq<Change>): (r: seq<string>)
    ensures |r| == |cs|
    ensures forall k :: 0 <= k < |cs| ==> r[k] == Signature(cs[k])
  {
    if cs == [] then [] else Signatures(cs[..|cs| - 1]) + [Signature(cs[|cs| - 1])]
  }

  function Count(counts: map<string, int>, s: string): int {
    if s in counts then counts[s] else 0
  }

  /** counts holds, for every string, how much more often it occurs in up than in down. */
  ghost predicate Tallies(counts: map<string, int>, up: multiset<string>, down: multiset<string>) {
    forall s {:trigger Count(counts, s)} :: Count(counts, s) + down[s] == up[s]
  }

  lemma TallyUp(counts: map<string, int>, up: multiset<string>, s: string)
    requires Tallies(counts, up, multiset{})
    ensures Tallies(counts[s := Count(counts, s) + 1], up + multiset{s}, multiset{})
  {
    var next := counts[s := Count(counts, s) + 1];
    forall x ensures Count(next, x) == (up + multiset{s})[x] {
      assert Count(counts, x) == up[x];
    }
  }

  lemma TallyDown(counts: map<string, int>, up: multiset<string>, down: multiset<string>, s: string)
    requires Tallies(counts, up, down)
    ensures Tallies(counts[s := Count(counts, s) - 1], up, down + multiset{s})
  {
    var next := counts[s := Count(counts, s) - 1];
    forall x ensures Count(next, x) + (down + multiset{s})[x] == up[x] {
      assert Count(counts, x) + down[x] == up[x];
    }
  }

  lemma TallyZero(counts: map<string, int>, up: multiset<string>, down: multiset<string>)
    requires Tallies(counts, up, down)
    ensures up == down <==> forall s :: s in counts ==> counts[s] == 0
  {
    if forall s :: s in counts ==> counts[s] == 0 {
      forall s ensures up[s] == down[s] {
        assert Count(counts, s) == 0;
      }
    }
    if up == down {
      forall s | s in counts ensures counts[s] == 0 {
        assert Count(counts, s) + down[s] == up[s];
      }
    }
  }

  lemma TallyNothing()
    ensures Tallies(map[], multiset{}, multiset{})
  {
  }

  /** A negative count means that s occurs more often in all than in up. */
  lemma TallyNegative(counts: map<string, int>, up: multiset<string>, down: multiset<string>, all: multiset<string>,
      s: string)
    requires Tallies(counts, up, down) && s in counts && counts[s] < 0 && down <= all
    ensures up != all
  {
    assert Count(counts, s) + down[s] == up[s];
  }

  lemma TakeOne(s: seq<string>, i: nat)
    requires i < |s|
    ensures multiset(s[..i + 1]) == multiset(s[..i]) + multiset{s[i]}
    ensures multiset(s[..i + 1]) <= multiset(s)
  {
    assert s[..i + 1] == s[..i] + [s[i]];
    assert s == s[..i + 1] + s[i + 1..];
  }

  method EqualChangeSets(a: seq<Change>, b: seq<Change>) returns (equal: bool)
    ensures equal <==> multiset(Signatures(a)) == multiset(Signatures(b))
  {
    hide Signature, Signatures, Tallies;
    ghost var sa, sb := Signatures(a), Signatures(b);
    TallyNothing();
    if |a| != |b| {
      assert |multiset(sa)| != |multiset(sb)|;
      return false;
    }
    var counts: map<string, int> := map[];
    for i := 0 to |a|
      invariant Tallies(counts, multiset(sa[..i]), multiset{})
    {
      var sig := Signature(a[i]);
      TakeOne(sa, i);
      TallyUp(counts, multiset(sa[..i]), sig);
      counts := counts[sig := Count(counts, sig) + 1];
    }
    assert sa[..|a|] == sa;
    for i := 0 to |b|
      invariant Tallies(counts, multiset(sa), multiset(sb[..i]))
    {
      var sig := Signature(b[i]);
      TakeOne(sb, i);
      TallyDown(counts, multiset(sa), multiset(sb[..i]), sig);
      counts := counts[sig := Count(counts, sig) - 1];
      if counts[sig] < 0 {
        TallyNegative(counts, multiset(sa), multiset(sb[..i + 1]), multiset(sb), sig);
        return false;
      }
    }
    assert sb[..|b|] == sb;
    TallyZero(counts, multiset(sa), multiset(sb));
    var rest := counts.Keys;
    while rest != {}
      invariant rest <= counts.Keys
      invariant forall s :: s in counts && s !in rest ==> counts[s] == 0
      decreases rest
    {
      var s :| s in rest;
      if counts[s] != 0 {
        return false;
      }
      rest := rest - {s};
    }
    return true;
  }

  ghost predicate AllRenameFree(cs: seq<Change>) {
    forall c :: c in cs ==> RenameFree(c)
  }

  lemma {:induction false} SignatureCount(cs: seq<Change>, c: Change)
    requires AllRenameFree(cs) && RenameFree(c)
    ensures multiset(Signatures(cs))[Signature(c)] == multiset(cs)[c]
  {
    if cs != [] {
      var n := |cs| - 1;
      assert cs == cs[..n] + [cs[n]];
      SignatureCount(cs[..n], c);
      if Signature(cs[n]) == Signature(c) {
        SignatureInjective(cs[n], c);
      }
    }
  }

  lemma {:induction false} SameCounts(a: seq<Change>, b: seq<Change>, s: string)
    requires AllRenameFree(a) && AllRenameFree(b) && multiset(a) == multiset(b)
    ensures multiset(Signatures(a))[s] == multiset(Signatures(b))[s]
  {
    if s in Signatures(a) || s in Signatures(b) {
      var c := Signer(if s in Signatures(a) then a else b, s);
      SignatureCount(a, c);
      SignatureCount(b, c);
    } else {
      assert s !in multiset(Signatures(a)) && s !in multiset(Signatures(b));
    }
  }

  /** The string comparison decides multiset equality of the structured changes themselves. */
  lemma {:induction false} EqualSignaturesExact(a: seq<Change>, b: seq<Change>)
    requires AllRenameFree(a) && AllRenameFree(b)
    ensures multiset(Signatures(a)) == multiset(Signatures(b)) <==> multiset(a) == multiset(b)
  {
    if multiset(Signatures(a)) == multiset(Signatures(b)) {
      forall c ensures multiset(a)[c] == multiset(b)[c] {
        if c in multiset(a) || c in multiset(b) {
          assert c in a || c in b;
          SignatureCount(a, c);
          SignatureCount(b, c);
        }
      }
    } else if multiset(a) == multiset(b) {
      forall s ensures multiset(Signatures(a))[s] == multiset(Signatures(b))[s] {
        SameCounts(a, b, s);
      }
      assert false;
    }
  }

  lemma {:induction false} Signer(cs: seq<Change>, s: string) returns (c: Change)
    requires AllRenameFree(cs) && s in Signatures(cs)
    ensures RenameFree(c) && Signature(c) == s
  {
    var n := |cs| - 1;
    if s == Signature(cs[n]) {
      c := cs[n];
    } else {
      c := Signer(cs[..n], s);
    }
  }

  lemma DiffRenameFree(cs: seq<Change>, a: Tree, b: Tree)
    requires IsDiff(cs, a, b)
    ensures AllRenameFree(cs)
  {
    DiffMembers(cs, a, b);
  }

  // ---- path sets --------------------------------------------------------------------------------

  ghost function Paths(cs: seq<Change>): set<Path> {
    (set c | c in cs && c.from.name != "" :: c.from.name) + (set c | c in cs && c.to.name != "" :: c.to.name)
  }

  method ChangePathSet(cs: seq<Change>) returns (ps: set<Path>)
    ensures ps == Paths(cs)
  {
    ps := {};
    for i := 0 to |cs|
      invariant ps == Paths(cs[..i])
    {
      var ch := cs[i];
      assert cs[..i + 1] == cs[..i] + [ch];
      ps := ps + (if ch.from.name != "" then {ch.from.name} else {}) + (if ch.to.name != "" then {ch.to.name} else {});
    }
    assert cs[..|cs|] == cs;
  }

  /** A tree diff's path set is the set of differing paths. */
  lemma DiffPaths(cs: seq<Change>, a: Tree, b: Tree)
    requires IsDiff(cs, a, b)
    ensures Paths(cs) == Differs(a, b)
  {
    DiffMembers(cs, a, b);
    forall p ensures p in Paths(cs) <==> p in Differs(a, b) {
      if p in Differs(a, b) {
        var c := ChangeAt(a, b, p);
        assert c in cs && (c.from.name == p || c.to.name == p);
      }
      if p in Paths(cs) {
        var c :| c in cs && p != "" && (c.from.name == p || c.to.name == p);
        assert c == ChangeAt(a, b, PathOf(c));
      }
    }
  }

  // ---- application ------------------------------------------------------------------------------

  function ApplyChange(t: Tree, ch: Change): (r: Tree) {
    var u: Tree := if ch.from.name != "" && ch.from.name != ch.to.name then t - {ch.from.name} else t;
    if ch.to.name != "" then u[ch.to.name := ch.to.entry] else u
  }

  function ApplyChanges(t: Tree, cs: seq<Change>): Tree {
    if cs == [] then t else ApplyChange(ApplyChanges(t, cs[..|cs| - 1]), cs[|cs| - 1])
  }

  lemma DiffCovers(cs: seq<Change>, a: Tree, b: Tree)
    requires IsDiff(cs, a, b)
    ensures (set c | c in cs :: PathOf(c)) == Differs(a, b)
  {
    DiffMembers(cs, a, b);
    forall p | p in Differs(a, b) ensures p in set c | c in cs :: PathOf(c) {
      PathOfChangeAt(a, b, p);
      assert ChangeAt(a, b, p) in cs;
    }
  }

  lemma ApplyOne(t: Tree, a: Tree, b: Tree, p: Path)
    requires p in Differs(a, b)
    ensures forall q :: At(ApplyChange(t, ChangeAt(a, b, p)), q) == if q == p then At(b, q) else At(t, q)
  {
  }

  lemma {:induction false} ApplyPaths(t: Tree, cs: seq<Change>, a: Tree, b: Tree)
    requires forall c | c in cs :: PathOf(c) in Differs(a, b) && c == ChangeAt(a, b, PathOf(c))
    ensures forall p :: At(ApplyChanges(t, cs), p) ==
                        if p in (set c | c in cs :: PathOf(c)) then At(b, p) else At(t, p)
  {
    if cs != [] {
      var front, last := cs[..|cs| - 1], cs[|cs| - 1];
      assert cs == front + [last];
      ApplyPaths(t, front, a, b);
      ApplyOne(ApplyChanges(t, front), a, b, PathOf(last));
    }
  }

  /** Applying the diff of a and b to any tree t lays b over t at exactly the differing paths. */
  lemma ApplyDiff(t: Tree, cs: seq<Change>, a: Tree, b: Tree)
    requires IsDiff(cs, a, b)
    ensures ApplyChanges(t, cs) == Overlay(t, b, Differs(a, b))
  {
    DiffMembers(cs, a, b);
    ApplyPaths(t, cs, a, b);
    DiffCovers(cs, a, b);
    SameTree(ApplyChanges(t, cs), Overlay(t, b, Differs(a, b)));
  }

  /** Diff and apply are inverse: a's diff to b turns a into b. */
  lemma ApplyDiffRoundTrip(a: Tree, b: Tree, cs: seq<Change>)
    requires IsDiff(cs, a, b)
    ensures ApplyChanges(a, cs) == b
  {
    ApplyDiff(a, cs, a, b);
    SameTree(ApplyChanges(a, cs), b);
  }

  // ---- the gate ---------------------------------------------------------------------------------

  /** u still holds what the change from a to b starts from. */
  predicate Untouched(a: Tree, b: Tree, u: Tree) {
    forall p | p in Differs(a, b) :: At(u, p) == At(a, p)
  }

  lemma SidesDetermineEntries(a: Tree, b: Tree, u: Tree, n: Tree, p: Path)
    requires p in Differs(a, b) && ChangeAt(u, n, p) == ChangeAt(a, b, p)
    ensures At(u, p) == At(a, p) && At(n, p) == At(b, p)
  {
    assert p != "";
  }

  lemma EqualDiffs(a: Tree, b: Tree, u: Tree, n: Tree)
    ensures DiffSet(a, b) == DiffSet(u, n) <==> Untouched(a, b, u) && n == Overlay(u, b, Differs(a, b))
  {
    var o := Overlay(u, b, Differs(a, b));
    if DiffSet(a, b) == DiffSet(u, n) {
      forall p | p in Differs(a, b) ensures At(u, p) == At(a, p) && At(n, p) == At(b, p) {
        DiffSetAt(a, b, u, n, p);
        SidesDetermineEntries(a, b, u, n, p);
      }
      forall p ensures At(n, p) == At(o, p) {
        if p in Differs(u, n) {
          DiffSetAt(u, n, a, b, p);
        }
      }
      SameTree(n, o);
    }
    if Untouched(a, b, u) && n == o {
      assert Differs(u, n) == Differs(a, b);
      forall p | p in Differs(a, b) ensures ChangeAt(u, n, p) == ChangeAt(a, b, p) {
        assert At(u, p) == At(a, p) && At(n, p) == At(b, p);
      }
    }
  }

  lemma DiffSetAt(a: Tree, b: Tree, u: Tree, n: Tree, p: Path)
    requires DiffSet(a, b) == DiffSet(u, n) && p in Differs(a, b)
    ensures p in Differs(u, n) && ChangeAt(u, n, p) == ChangeAt(a, b, p)
  {
    PathOfChangeAt(a, b, p);
    assert ChangeAt(a, b, p) in DiffSet(u, n);
    var q :| q in Differs(u, n) && ChangeAt(u, n, q) == ChangeAt(a, b, p);
    PathOfChangeAt(u, n, q);
  }

  /**
    The strict gate over any tip u: a new tree n passes exactly when u has not drifted at the
    touched paths and n is the applied tree. Nothing else passes, and the applied tree always does.
   */
  lemma GateExact(a: Tree, b: Tree, source: seq<Change>, u: Tree, n: Tree, replayed: seq<Change>)
    requires IsDiff(source, a, b) && IsDiff(replayed, u, n)
    ensures multiset(Signatures(source)) == multiset(Signatures(replayed))
            <==> Untouched(a, b, u) && n == ApplyChanges(u, source)
  {
    DiffRenameFree(source, a, b);
    DiffRenameFree(replayed, u, n);
    EqualSignaturesExact(source, replayed);
    ApplyDiff(u, source, a, b);
    EqualDiffs(a, b, u, n);
    SetMultiset(DiffSet(a, b), DiffSet(u, n));
  }

  lemma SetMultiset<T>(s: set<T>, t: set<T>)
    ensures multiset(s) == multiset(t) <==> s == t
  {
    if multiset(s) == multiset(t) {
      forall x ensures x in s <==> x in t {
        assert x in s <==> x in multiset(s);
        assert x in t <==> x in multiset(t);
      }
    }
  }
}
