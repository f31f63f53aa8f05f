/**
  What the content store guarantees: after a copy cut off at any file, and over every run of Put,
  interrupted Put, Resolve and Retire.
 */
module ContentStoreLaws {
  import opened Wrappers
  import opened Layouts
  import opened ContentStore

  // ---- one interrupted copy ---------------------------------------------------------------------

  /** The entry is there, complete. */
  ghost predicate Holds(l: Layout, e: Entry) {
    e.path in l && l[e.path] == e.node
  }

  /** The position at which the walk reaches a path of the source. */
  lemma PositionOf(source: Tree, p: Path) returns (k: nat)
    requires Listed(source) && p in Flatten(source)
    ensures k < |Walk([], source)| && Walk([], source)[k] == Entry(p, Flatten(source)[p])
  {
    WalkIsDistinct([], source);
    CopiedHolds(Walk([], source));
    k :| 0 <= k < |Walk([], source)| && Walk([], source)[k].path == p;
  }

  /** Everything under blobs, and blobs itself, is copied before index.json. */
  lemma BlobsComeFirst(source: Tree, j: nat, k: nat)
    requires Listed(source)
    requires var es := Walk([], source);
             j < |es| && k < |es| && es[j].path != [] && es[j].path[0] == "blobs" && es[k].path == INDEX
    ensures j < k
  {
    WalkInNameOrder(source);
    var es := Walk([], source);
    assert es[k].path[0] == "index.json" && INDEX[0] == "index.json";
    assert !Less("index.json", "blobs");
  }

  /**
    After a copy cut off anywhere, Resolve succeeds exactly if index.json was copied, or the part of
    it that was written already lists the digest.
   */
  lemma CutResolvesExactly(c: Codec, source: Tree, d: string, cut: Cut, k: nat)
    requires Listed(source) && Verified(c, Flatten(source), d)
    requires k < |Walk([], source)| && Walk([], source)[k].path == INDEX
    ensures Verified(c, CutOff(Walk([], source), cut), d) <==>
            || k < cut.steps
            || (k == cut.steps && cut.partial.Some? &&
              Lists(c, Head(Flatten(source)[INDEX].data, cut.partial.value), d))
  {
    hide Walk, SplitDigest, Lists;
    var es := Walk([], source);
    var l := CutOff(es, cut);
    WalkIsDistinct([], source);
    CutOffHolds(es, cut, k);
    CopiedHolds(es);
    var b := PositionOf(source, BLOBS);
    BlobsComeFirst(source, b, k);
    CutOffHolds(es, cut, b);
    if k <= cut.steps {
      CutKeepsBlobs(c, source, cut, k);
    }
  }

  /** A copy that got as far as index.json holds every blob, unharmed. */
  lemma CutKeepsBlobs(c: Codec, source: Tree, cut: Cut, k: nat)
    requires Listed(source)
    requires k < |Walk([], source)| && Walk([], source)[k].path == INDEX && k <= cut.steps
    ensures var l := CutOff(Walk([], source), cut);
            forall p :: UnderBlobs(p) ==> (p in l <==> p in Flatten(source)) && (p in l ==> l[p] == Flatten(source)[p])
    ensures BlobsIntact(c, Flatten(source)) ==> BlobsIntact(c, CutOff(Walk([], source), cut))
  {
    hide Walk, CutOff, BlobIntact;
    var es := Walk([], source);
    var l := CutOff(es, cut);
    WalkIsDistinct([], source);
    CutOffAddsNothing(es, cut);
    CopiedHolds(es);
    forall p | UnderBlobs(p) && (p in l || p in Flatten(source))
      ensures p in l && p in Flatten(source) && l[p] == Flatten(source)[p]
    {
      assert p in Flatten(source) by {
        if p in l {
          var i :| 0 <= i < |es| && es[i].path == p;
        }
      }
      var j := PositionOf(source, p);
      BlobsComeFirst(source, j, k);
      CutOffHolds(es, cut, j);
    }
  }

  /** Whatever a later Resolve accepts after an interrupted copy holds every blob of the source. */
  lemma CutIsSafe(c: Codec, source: Tree, d: string, cut: Cut)
    requires Listed(source)
    requires Verified(c, CutOff(Walk([], source), cut), d)
    ensures var l := CutOff(Walk([], source), cut);
            forall p <- Flatten(source) :: UnderBlobs(p) ==> p in l && l[p] == Flatten(source)[p]
  {
    CutWithIndexIsSafe(c, source, cut);
  }

  lemma CutWithIndexIsSafe(c: Codec, source: Tree, cut: Cut)
    requires Listed(source)
    requires INDEX in CutOff(Walk([], source), cut)
    ensures var l := CutOff(Walk([], source), cut);
            forall p <- Flatten(source) :: UnderBlobs(p) ==> p in l && l[p] == Flatten(source)[p]
  {
    hide Walk, CutOff, Lists;
    var es := Walk([], source);
    WalkIsDistinct([], source);
    CutOffAddsNothing(es, cut);
    var k :| 0 <= k < |es| && es[k].path == INDEX;
    CutOffHolds(es, cut, k);
    CutKeepsBlobs(c, source, cut, k);
  }

  /**
    Which entries an interrupted copy can lose without any later Resolve noticing: exactly those the
    walk reaches after index.json, such as oci-layout.
   */
  lemma LostUnnoticedExactly(c: Codec, source: Tree, d: string, index: nat, k: nat)
    requires Listed(source) && Verified(c, Flatten(source), d)
    requires index < |Walk([], source)| && Walk([], source)[index].path == INDEX
    requires k < |Walk([], source)| && k != index
    ensures (exists cut :: Verified(c, CutOff(Walk([], source), cut), d) &&
              !Holds(CutOff(Walk([], source), cut), Walk([], source)[k]))
            <==> k > index
  {
    hide Walk, CutOff, Verified;
    var es := Walk([], source);
    WalkIsDistinct([], source);
    forall cut | Verified(c, CutOff(es, cut), d) && !Holds(CutOff(es, cut), es[k]) ensures k > index {
      CutResolvesExactly(c, source, d, cut, index);
      CutOffHolds(es, cut, k);
    }
    if k > index {
      var cut := Cut(k, None);
      CutResolvesExactly(c, source, d, cut, index);
      CutOffHolds(es, cut, k);
    }
  }

  /** index.json itself can be torn unnoticed exactly if some proper part of it lists the digest already. */
  lemma IndexTornUnnoticedExactly(c: Codec, source: Tree, d: string, index: nat)
    requires Listed(source) && Verified(c, Flatten(source), d)
    requires index < |Walk([], source)| && Walk([], source)[index].path == INDEX
    ensures var es := Walk([], source);
            (exists cut :: Verified(c, CutOff(es, cut), d) && !Holds(CutOff(es, cut), es[index]))
            <==> exists n: nat :: n < |Flatten(source)[INDEX].data| && Lists(c, Head(Flatten(source)[INDEX].data, n), d)
  {
    var es, data := Walk([], source), Flatten(source)[INDEX].data;
    WalkIsDistinct([], source);
    CopiedHolds(es);
    assert es[index].node == Blob(data);
    hide Walk, CutOff, Verified, Flatten, Lists;
    forall cut | Verified(c, CutOff(es, cut), d) && !Holds(CutOff(es, cut), es[index])
      ensures exists n: nat :: n < |data| && Lists(c, Head(data, n), d)
    {
      CutResolvesExactly(c, source, d, cut, index);
      CutOffHolds(es, cut, index);
      assert cut.partial.value < |data|;
    }
    if n: nat :| n < |data| && Lists(c, Head(data, n), d) {
      var cut := Cut(index, Some(n));
      CutResolvesExactly(c, source, d, cut, index);
      CutOffHolds(es, cut, index);
      assert |Head(data, n)| < |data|;
    }
  }

  // ---- what verification sees -------------------------------------------------------------------

  /** A missing blob goes unnoticed: verification only asks that the blobs that are there are right. */
  lemma RemovalGoesUnnoticed(c: Codec, l: Layout, d: string, p: Path)
    requires Verified(c, l, d) && UnderBlobs(p)
    ensures Verified(c, l - {p}, d)
  {
    assert p != INDEX && p != BLOBS;
  }

  /** Changed blob bytes are noticed exactly if their hash changed. */
  lemma DriftNoticedExactly(c: Codec, l: Layout, d: string, p: Path, data: Bytes)
    requires Verified(c, l, d) && UnderBlobs(p) && p in l && l[p].Blob?
    ensures Verified(c, l[p := Blob(data)], d) <==> c.hash(data) == c.hash(l[p].data)
  {
    assert p != INDEX && p != BLOBS;
    assert BlobIntact(c, p, l[p].data);
    assert Verified(c, l[p := Blob(data)], d) ==> BlobIntact(c, p, l[p := Blob(data)][p].data);
  }

  // ---- runs -------------------------------------------------------------------------------------

  /** Edit: a stored file shares its bytes with a hard link elsewhere, through which they are changed. */
  datatype Op =
    | Put(digest: string, source: Tree, cut: Option<Cut>)
    | Resolve(digest: string)
    | Retire
    | Edit(key: string, path: Path, data: Bytes)

  ghost function After(c: Codec, dirs: Store, op: Op): Store {
    match op
    case Put(d, source, cut) => StoreAfterPut(c, dirs, d, source, cut)
    case Resolve(_) => dirs
    case Retire => map[]
    case Edit(key, p, data) =>
      if key in dirs && p in dirs[key] && dirs[key][p].Blob? then dirs[key := dirs[key][p := Blob(data)]] else dirs
  }

  ghost function Run(c: Codec, dirs: Store, ops: seq<Op>): Store {
    if ops == [] then dirs else After(c, Run(c, dirs, ops[..|ops| - 1]), ops[|ops| - 1])
  }

  ghost predicate Edited(ops: seq<Op>, key: string, p: Path) {
    exists data :: Edit(key, p, data) in ops
  }

  /** The same paths of the same kinds, and the same bytes wherever no link edited them. */
  ghost predicate SameUpToEdits(l: Layout, m: Layout, ops: seq<Op>, key: string) {
    && l.Keys == m.Keys
    && forall p <- m :: (l[p].Blob? <==> m[p].Blob?) && (l[p] == m[p] || (l[p].Blob? && Edited(ops, key, p)))
  }

  lemma SameInMoreOps(l: Layout, m: Layout, front: seq<Op>, ops: seq<Op>, key: string)
    requires SameUpToEdits(l, m, front, key) && forall op <- front :: op in ops
    ensures SameUpToEdits(l, m, ops, key)
  {
    forall p <- m | Edited(front, key, p) ensures Edited(ops, key, p) {
      var data :| Edit(key, p, data) in front;
      assert Edit(key, p, data) in ops;
    }
  }

  /** One step that is not Retire keeps a stored directory, up to an edit of it. */
  lemma StepKeeps(c: Codec, dirs: Store, op: Op, key: string, m: Layout, ops: seq<Op>)
    requires !op.Retire? && op in ops && key in dirs && SameUpToEdits(dirs[key], m, ops, key)
    ensures key in After(c, dirs, op) && SameUpToEdits(After(c, dirs, op)[key], m, ops, key)
  {
    hide Verified, CutOff, Flatten, Walk;
    if op.Edit? && op.key == key {
      assert Edited(ops, key, op.path);
    }
  }

  /**
    An existing stored directory is never rewritten before Retire, whatever is put and interrupted:
    only a link to one of its files can change that file's bytes.
   */
  lemma {:induction false} NeverRewritten(c: Codec, dirs: Store, ops: seq<Op>)
    requires Op.Retire !in ops
    ensures forall key <- dirs :: key in Run(c, dirs, ops) && SameUpToEdits(Run(c, dirs, ops)[key], dirs[key], ops, key)
  {
    hide SameUpToEdits, After;
    if ops == [] {
      forall key <- dirs ensures SameUpToEdits(dirs[key], dirs[key], ops, key) {
        SameItself(dirs[key], ops, key);
      }
    } else {
      var front, last := ops[..|ops| - 1], ops[|ops| - 1];
      var before := Run(c, dirs, front);
      NeverRewritten(c, dirs, front);
      forall key <- dirs
        ensures key in Run(c, dirs, ops) && SameUpToEdits(Run(c, dirs, ops)[key], dirs[key], ops, key)
      {
        SameInMoreOps(before[key], dirs[key], front, ops, key);
        StepKeeps(c, before, last, key, dirs[key], ops);
      }
    }
  }

  lemma SameItself(l: Layout, ops: seq<Op>, key: string)
    ensures SameUpToEdits(l, l, ops, key)
  {
  }

  ghost function CopyOf(op: Op): Layout
    requires op.Put?
  {
    if op.cut.Some? then CutOff(Walk([], op.source), op.cut.value) else Flatten(op.source)
  }

  /** The directory holds what one Put of that digest copied, completely or not, up to edits. */
  ghost predicate CopiedBy(c: Codec, key: string, l: Layout, op: Op, ops: seq<Op>) {
    && op.Put? && SplitDigest(op.digest) == Some(key) && Verified(c, Flatten(op.source), op.digest)
    && SameUpToEdits(l, CopyOf(op), ops, key)
  }

  lemma {:induction false} StoredIsCopied(c: Codec, ops: seq<Op>)
    ensures forall key <- Run(c, map[], ops) :: exists op <- ops :: CopiedBy(c, key, Run(c, map[], ops)[key], op, ops)
  {
    if ops != [] {
      var front, last := ops[..|ops| - 1], ops[|ops| - 1];
      var before, after := Run(c, map[], front), Run(c, map[], ops);
      StoredIsCopied(c, front);
      forall key <- after ensures exists op <- ops :: CopiedBy(c, key, after[key], op, ops) {
        if key in before {
          hide After, SameUpToEdits, CopyOf, Verified;
          var op :| op in front && CopiedBy(c, key, before[key], op, front);
          SameInMoreOps(before[key], CopyOf(op), front, ops, key);
          RetireEmpties(c, before, last, key);
          StepKeeps(c, before, last, key, CopyOf(op), ops);
          assert op in ops && CopiedBy(c, key, after[key], op, ops);
        } else {
          NewIsCopied(c, before, last, key, ops);
        }
      }
    }
  }

  lemma RetireEmpties(c: Codec, dirs: Store, op: Op, key: string)
    requires key in After(c, dirs, op)
    ensures !op.Retire?
  {
  }

  lemma NewIsCopied(c: Codec, dirs: Store, op: Op, key: string, ops: seq<Op>)
    requires key !in dirs && key in After(c, dirs, op)
    ensures CopiedBy(c, key, After(c, dirs, op)[key], op, ops)
  {
    assert op.Put? && (Verified(c, Flatten(op.source), op.digest) ==> SplitDigest(op.digest).Some?);
    hide Verified, CutOff, Flatten, Walk, SameUpToEdits, SplitDigest;
    SameItself(After(c, dirs, op)[key], ops, key);
  }

  /** Under a file name, the bytes found carry the hash of the source's, and are the source's if never edited. */
  ghost predicate BlobKept(c: Codec, ops: seq<Op>, key: string, l: Layout, source: Layout, p: Path)
    requires p in source
  {
    && p in l && (l[p].Blob? <==> source[p].Blob?)
    && (l[p].Blob? ==> c.hash(l[p].data) == c.hash(source[p].data))
    && (l[p] == source[p] || Edited(ops, key, p))
  }

  /**
    The promise of the store, over every run from an empty one: a layout Resolve hands out is a copy
    of a layout that was verified under this very digest and holds every one of its blobs. Each blob
    hashes to its name, so it has the source's bytes even after edits, up to hash collisions; without
    edits it has them in any case.
   */
  lemma ResolvedHoldsEveryBlob(c: Codec, ops: seq<Op>, d: string)
    requires forall op <- ops :: op.Put? ==> Listed(op.source)
    requires Resolvable(c, Run(c, map[], ops), d)
    ensures var key := SplitDigest(d).value;
            var l := Run(c, map[], ops)[key];
            && BlobsIntact(c, l)
            && exists op <- ops :: op.Put? && op.digest == d && Verified(c, Flatten(op.source), d) &&
                 forall p <- Flatten(op.source) :: UnderBlobs(p) ==> BlobKept(c, ops, key, l, Flatten(op.source), p)
  {
    var key := SplitDigest(d).value;
    var l := Run(c, map[], ops)[key];
    assert BlobsIntact(c, l) && INDEX in l;
    hide Verified, CutOff, Flatten, Walk, SplitDigest, UnderBlobs, BlobsIntact, Run, Resolvable, Listed, BlobIntact,
      SameUpToEdits;
    StoredIsCopied(c, ops);
    var op :| op in ops && CopiedBy(c, key, l, op, ops);
    DigestExactly(d, key);
    DigestExactly(op.digest, key);
    assert op.digest == d;
    CopyKeepsBlobs(c, ops, key, l, op);
  }

  lemma CopyKeepsBlobs(c: Codec, ops: seq<Op>, key: string, l: Layout, op: Op)
    requires CopiedBy(c, key, l, op, ops) && Listed(op.source) && BlobsIntact(c, l) && INDEX in l
    ensures forall p <- Flatten(op.source) :: UnderBlobs(p) ==> BlobKept(c, ops, key, l, Flatten(op.source), p)
  {
    var source := Flatten(op.source);
    assert BlobsIntact(c, source);
    hide Verified, CutOff, Flatten, Walk, SplitDigest, Listed;
    assert INDEX in CopyOf(op);
    if op.cut.Some? {
      CutWithIndexIsSafe(c, op.source, op.cut.value);
    }
    forall p <- source | UnderBlobs(p) ensures BlobKept(c, ops, key, l, source, p) {
      assert p in CopyOf(op) && CopyOf(op)[p] == source[p];
      assert l[p].Blob? ==> BlobIntact(c, p, l[p].data) && BlobIntact(c, p, source[p].data);
    }
  }

  /** A complete Put of a fresh digest is handed out again unchanged, and putting it again changes nothing. */
  lemma PutResolveRoundTrip(c: Codec, dirs: Store, d: string, source: Tree, again: Option<Cut>)
    requires Verified(c, Flatten(source), d) && SplitDigest(d).value !in dirs
    ensures var stored := StoreAfterPut(c, dirs, d, source, None);
            && Resolvable(c, stored, d)
            && stored == dirs[SplitDigest(d).value := Flatten(source)]
            && StoreAfterPut(c, stored, d, source, again) == stored
  {
    assert SplitDigest(d).Some? && INDEX in Flatten(source);
    hide Flatten, Verified;
  }

  /**
    A digest whose directory does not verify stays refused until Retire, unless a link edits it: no
    sequence of further Puts repairs it, and by the contract of Put none of them succeeds.
   */
  lemma WedgedUntilRetire(c: Codec, dirs: Store, ops: seq<Op>, d: string)
    requires SplitDigest(d).Some? && SplitDigest(d).value in dirs && !Verified(c, dirs[SplitDigest(d).value], d)
    requires Op.Retire !in ops && forall p :: !Edited(ops, SplitDigest(d).value, p)
    ensures var stored := Run(c, dirs, ops);
            SplitDigest(d).value in stored && !Verified(c, stored[SplitDigest(d).value], d) && !Resolvable(c, stored, d)
  {
    var key := SplitDigest(d).value;
    NeverRewritten(c, dirs, ops);
    assert Run(c, dirs, ops)[key] == dirs[key];
  }

  /**
    An interrupted Put of a fresh digest wedges it exactly if it created the directory and stopped
    before index.json was there with enough bytes to list the digest.
   */
  lemma InterruptionWedgesExactly(c: Codec, dirs: Store, d: string, source: Tree, cut: Cut, k: nat)
    requires Listed(source) && Verified(c, Flatten(source), d) && SplitDigest(d).value !in dirs
    requires k < |Walk([], source)| && Walk([], source)[k].path == INDEX
    ensures var stored := StoreAfterPut(c, dirs, d, source, Some(cut));
            (SplitDigest(d).value in stored && !Resolvable(c, stored, d)) <==>
              0 < cut.steps <= k &&
              !(cut.steps == k && cut.partial.Some? &&
                Lists(c, Head(Flatten(source)[INDEX].data, cut.partial.value), d))
  {
    var es := Walk([], source);
    CutResolvesExactly(c, source, d, cut, k);
    WalkIsDistinct([], source);
    CutOffHolds(es, cut, 0);
    if cut.steps == 0 {
      var b := PositionOf(source, BLOBS);
      assert es[0].node.Directory?;
      assert CutOff(es, cut) == map[];
    }
  }
}
