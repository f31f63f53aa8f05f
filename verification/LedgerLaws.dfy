/** The ledger survives being split over shard files and folded back, in whatever order that happens. */
module LedgerLaws {
  import opened Wrappers
  import opened Ledger

  // ---- lookup -----------------------------------------------------------------------------------

  lemma {:induction false} LookupIsFirst(subs: seq<Record>, i: nat)
    requires i < |subs| && NamesUnique(subs)
    ensures Find(subs, subs[i].name) == i && Lookup(subs, subs[i].name) == Some(subs[i])
  {
  }

  /** In a ledger with unique names, the records are exactly what lookup finds. */
  lemma MemberMeansFound(subs: seq<Record>, s: Record)
    requires NamesUnique(subs)
    ensures s in subs <==> Lookup(subs, s.name) == Some(s)
  {
    if s in subs {
      var i :| 0 <= i < |subs| && subs[i] == s;
      LookupIsFirst(subs, i);
    }
  }

  lemma FindSame(a: seq<Record>, b: seq<Record>, n: string)
    requires |a| == |b| && forall i :: 0 <= i < |a| ==> a[i].name == b[i].name
    ensures Find(a, n) == Find(b, n)
  {
  }

  lemma FindAppended(subs: seq<Record>, s: Record, n: string)
    ensures Find(subs + [s], n) == if Find(subs, n) < |subs| || s.name == n then Find(subs, n) else |subs| + 1
  {
    hide Find;
    var all := subs + [s];
    assert all[|subs|] == s;
    assert forall k :: 0 <= k < |subs| ==> all[k] == subs[k];
    assert Find(subs, n) < |subs| ==> all[Find(subs, n)].name == n;
    assert Find(all, n) < |subs| ==> subs[Find(all, n)].name == n;
  }

  lemma LookupUpserted(subs: seq<Record>, s: Record, n: string)
    ensures Lookup(Upserted(subs, s), n) == if n == s.name then Some(Keeping(s, Lookup(subs, s.name)))
              else Lookup(subs, n)
    ensures NamesUnique(Upserted(subs, s)) <==> NamesUnique(subs)
  {
    var i, after := Find(subs, s.name), Upserted(subs, s);
    if i < |subs| {
      FindSame(subs, after, n);
      assert forall k :: 0 <= k < |subs| ==> after[k].name == subs[k].name;
      assert NamesUnique(after) ==> NamesUnique(subs) by {
        if NamesUnique(after) {
          forall j, k | 0 <= j < k < |subs| ensures subs[j].name != subs[k].name {
            assert after[j].name != after[k].name;
          }
        }
      }
    } else {
      assert NamesUnique(after) ==> NamesUnique(subs) by {
        if NamesUnique(after) {
          forall j, k | 0 <= j < k < |subs| ensures subs[j].name != subs[k].name {
            assert after[j].name != after[k].name;
          }
        }
      }
      FindAppended(subs, s, n);
    }
  }

  /**
    Folding shards is a union by name: a shard's record wins, keeping the ledger's results if it has
    none itself; every other record stays; and no name is ever duplicated.
   */
  lemma {:induction false} FoldIsUnion(subs: seq<Record>, shards: seq<Record>, n: string)
    requires NamesUnique(shards)
    ensures Lookup(Folded(subs, shards), n) ==
            match Lookup(shards, n) case Some(s) => Some(Keeping(s, Lookup(subs, n))) case None => Lookup(subs, n)
    ensures NamesUnique(Folded(subs, shards)) <==> NamesUnique(subs)
  {
    if shards != [] {
      var front, last := shards[..|shards| - 1], shards[|shards| - 1];
      FoldIsUnion(subs, front, n);
      FoldIsUnion(subs, front, last.name);
      LookupUpserted(Folded(subs, front), last, n);
      LastIsNew(shards);
      LookupFront(front, last, n);
      assert shards == front + [last];
      hide Find, Upserted, Keeping;
    }
  }

  lemma LastIsNew(shards: seq<Record>)
    requires shards != [] && NamesUnique(shards)
    ensures Find(shards[..|shards| - 1], shards[|shards| - 1].name) == |shards| - 1
  {
    assert forall k :: 0 <= k < |shards| - 1 ==> shards[..|shards| - 1][k] == shards[k];
  }

  lemma LookupFront(front: seq<Record>, last: Record, n: string)
    requires Find(front, last.name) == |front|
    ensures Lookup(front + [last], n) == if n == last.name then Some(last) else Lookup(front, n)
  {
    FindAppended(front, last, n);
  }

  /** The order in which shards are folded does not change what the ledger says. */
  lemma FoldAnyOrder(subs: seq<Record>, a: seq<Record>, b: seq<Record>)
    requires NamesUnique(subs) && NamesUnique(a) && NamesUnique(b)
    requires forall s :: s in a <==> s in b
    ensures forall s :: s in Folded(subs, a) <==> s in Folded(subs, b)
    ensures StatusOf(Folded(subs, a)) == StatusOf(Folded(subs, b))
  {
    hide Folded, Find, Fails, Warns;
    forall s ensures s in Folded(subs, a) <==> s in Folded(subs, b) {
      FoldIsUnion(subs, a, s.name);
      FoldIsUnion(subs, b, s.name);
      MemberMeansFound(Folded(subs, a), s);
      MemberMeansFound(Folded(subs, b), s);
      SameLookup(a, b, s.name);
    }
  }

  lemma SameLookup(a: seq<Record>, b: seq<Record>, n: string)
    requires NamesUnique(a) && NamesUnique(b)
    requires forall s :: s in a <==> s in b
    ensures Lookup(a, n) == Lookup(b, n)
  {
    var x, y := Lookup(a, n), Lookup(b, n);
    if x.Some? {
      assert x.value in a;
      MemberMeansFound(b, x.value);
    }
    if y.Some? {
      assert y.value in b;
      MemberMeansFound(a, y.value);
    }
  }

  // ---- facts and outcomes -----------------------------------------------------------------------

  /**
    Recording an outcome and merging facts may happen in either order exactly if the outcome record
    carries no results of its own, or carries all the merged facts already.
   */
  lemma FactsAndOutcomeCommuteExactly(subs: seq<Record>, s: Record, facts: map<string, string>)
    ensures Upserted(WithResults(subs, s.name, facts), s) == WithResults(Upserted(subs, s), s.name, facts)
            <==> s.results == None || s.results.value + facts == s.results.value
  {
    var i := Find(subs, s.name);
    if facts == map[] {
      assert s.results.Some? ==> s.results.value + facts == s.results.value;
    } else if i < |subs| {
      CommuteAtFound(subs, s, facts);
    } else {
      CommuteWhenNew(subs, s, facts);
    }
  }

  lemma CommuteAtFound(subs: seq<Record>, s: Record, facts: map<string, string>)
    requires facts != map[] && Find(subs, s.name) < |subs|
    ensures Upserted(WithResults(subs, s.name, facts), s) == WithResults(Upserted(subs, s), s.name, facts)
            <==> s.results == None || s.results.value + facts == s.results.value
  {
    hide Find, WithFacts, Keeping;
    var i := Find(subs, s.name);
    var was := subs[i];
    var merged, kept := WithFacts(was, facts), Keeping(s, Some(was));
    NamesAreKept(s, was, facts);
    FindSame(subs, subs[i := merged], s.name);
    FindSame(subs, subs[i := kept], s.name);
    UpdatedTwice(subs, i, merged, Keeping(s, Some(merged)));
    UpdatedTwice(subs, i, kept, WithFacts(kept, facts));
    UpdatedDifferently(subs, i, Keeping(s, Some(merged)), WithFacts(kept, facts));
    assert WithResults(subs, s.name, facts) == subs[i := merged] && Upserted(subs, s) == subs[i := kept];
  }

  lemma NamesAreKept(s: Record, was: Record, facts: map<string, string>)
    ensures WithFacts(was, facts).name == was.name && Keeping(s, Some(was)).name == s.name
    ensures Keeping(s, Some(WithFacts(was, facts))) == WithFacts(Keeping(s, Some(was)), facts)
            <==> s.results == None || s.results.value + facts == s.results.value
  {
  }

  lemma UpdatedTwice(subs: seq<Record>, i: nat, a: Record, b: Record)
    requires i < |subs|
    ensures subs[i := a][i := b] == subs[i := b]
  {
  }

  lemma UpdatedDifferently(subs: seq<Record>, i: nat, a: Record, b: Record)
    requires i < |subs|
    ensures subs[i := a] == subs[i := b] <==> a == b
  {
    assert subs[i := a][i] == a && subs[i := b][i] == b;
  }

  lemma CommuteWhenNew(subs: seq<Record>, s: Record, facts: map<string, string>)
    requires facts != map[] && Find(subs, s.name) == |subs|
    ensures Upserted(WithResults(subs, s.name, facts), s) == WithResults(Upserted(subs, s), s.name, facts)
            <==> s.results == None || s.results.value + facts == s.results.value
  {
    hide Find;
    var i := |subs|;
    var factsOnly := FactsOnly(s.name, facts);
    FindAppended(subs, factsOnly, s.name);
    FindAppended(subs, s, s.name);
    var x := Keeping(s, Some(factsOnly));
    var y := WithFacts(s, facts);
    assert Upserted(WithResults(subs, s.name, facts), s) == (subs + [factsOnly])[i := x] == subs + [x];
    assert WithResults(Upserted(subs, s), s.name, facts) == (subs + [s])[i := y] == subs + [y];
    assert subs + [x] == subs + [y] <==> x == y by {
      assert (subs + [x])[i] == x && (subs + [y])[i] == y;
    }
  }

  /** Merging facts adds them to the record of that name, new values over old, and to no other. */
  lemma FactsAreMerged(subs: seq<Record>, name: string, facts: map<string, string>, n: string)
    ensures var before, after := Lookup(subs, n), Lookup(WithResults(subs, name, facts), n);
            if n != name || facts == map[] then after == before
            else
              && after.Some?
              && after.value.results ==
                 Some(if before.Some? && before.value.results.Some? then before.value.results.value + facts else facts)
              && after.value.life == if before.Some? then before.value.life else UNRECORDED
  {
    if facts != map[] {
      var i, after := Find(subs, name), WithResults(subs, name, facts);
      if i < |subs| {
        FindSame(subs, after, n);
      } else {
        FindAppended(subs, FactsOnly(name, facts), n);
      }
    }
  }

  /** Merging facts touches no lifecycle field of any record, so the status stays what it was. */
  lemma FactsLeaveStatus(subs: seq<Record>, name: string, facts: map<string, string>)
    ensures var after := WithResults(subs, name, facts);
            && |subs| <= |after| <= |subs| + 1
            && (forall i :: 0 <= i < |subs| ==> after[i].name == subs[i].name && after[i].life == subs[i].life)
            && (|after| > |subs| ==> !after[|subs|].life.attempted)
            && StatusOf(after) == StatusOf(subs)
  {
    hide Find;
    var after := WithResults(subs, name, facts);
    forall i | 0 <= i < |subs|
      ensures after[i].name == subs[i].name && after[i].life == subs[i].life
    {
    }
    SameLifecycleSameStatus(subs, after);
  }

  lemma SameLifecycleSameStatus(subs: seq<Record>, after: seq<Record>)
    requires |subs| <= |after|
    requires forall i :: 0 <= i < |subs| ==> after[i].name == subs[i].name && after[i].life == subs[i].life
    requires forall i :: |subs| <= i < |after| ==> !after[i].life.attempted
    ensures StatusOf(after) == StatusOf(subs)
  {
    forall i | 0 <= i < |subs|
      ensures Fails(after[i]) == Fails(subs[i]) && Warns(after[i]) == Warns(subs[i]) &&
                after[i].life.attempted == subs[i].life.attempted
    {
      assert after[i].name == subs[i].name && after[i].life == subs[i].life;
    }
    SameVerdictsSameStatus(subs, after);
  }

  lemma SameVerdictsSameStatus(subs: seq<Record>, after: seq<Record>)
    requires |subs| <= |after|
    requires forall i :: 0 <= i < |subs| ==>
               Fails(after[i]) == Fails(subs[i]) && Warns(after[i]) == Warns(subs[i]) &&
                 Attempted(after[i]) == Attempted(subs[i])
    requires forall i :: |subs| <= i < |after| ==> !Attempted(after[i])
    ensures StatusOf(after) == StatusOf(subs)
  {
    assert forall i :: |subs| <= i < |after| ==> !Fails(after[i]) && !Warns(after[i]);
    hide Fails, Warns;
    SameExists(subs, after, Fails);
    SameExists(subs, after, Warns);
    SameExists(subs, after, Attempted);
    hide Any;
  }

  lemma SameExists(subs: seq<Record>, after: seq<Record>, p: Record -> bool)
    requires |subs| <= |after|
    requires forall i :: 0 <= i < |subs| ==> p(after[i]) == p(subs[i])
    requires forall i :: |subs| <= i < |after| ==> !p(after[i])
    ensures Any(subs, p) == Any(after, p)
  {
    if s :| s in subs && p(s) {
      var i :| 0 <= i < |subs| && subs[i] == s;
      assert after[i] in after;
    }
    if s :| s in after && p(s) {
      var i :| 0 <= i < |after| && after[i] == s;
      assert subs[i] in subs;
    }
  }

  // ---- shard files ------------------------------------------------------------------------------

  /** A character that stands as '_' in a shard file name. */
  predicate Blank(c: char) {
    c == '_' || !Safe(c)
  }

  /** Two names share a shard file exactly if they differ only where both have '_' or an unsafe character. */
  lemma ShardNamesCollideExactly(a: string, b: string)
    ensures ShardFileName(a) == ShardFileName(b) <==>
            |a| == |b| && forall i :: 0 <= i < |a| ==> a[i] == b[i] || (Blank(a[i]) && Blank(b[i]))
  {
    var x, y := SafeName(a), SafeName(b);
    if x + ".json" == y + ".json" {
      assert |x| == |y| && x == (x + ".json")[..|x|] == (y + ".json")[..|y|] == y;
    }
    if |a| == |b| && forall i :: 0 <= i < |a| ==> a[i] == b[i] || (Blank(a[i]) && Blank(b[i])) {
      assert x == y;
    }
  }

  ghost predicate NoCollisions(subs: seq<Record>) {
    forall i, j :: 0 <= i < j < |subs| ==> ShardFileName(subs[i].name) != ShardFileName(subs[j].name)
  }

  /** Every file of the directory holds a record of a name it stands for. */
  ghost predicate Filed(dir: ShardDir) {
    forall f <- dir :: ShardFileName(dir[f].name) == f
  }

  lemma {:induction false} WrittenIsFiled(dir: ShardDir, subs: seq<Record>)
    requires Filed(dir)
    ensures Filed(Written(dir, subs))
  {
    if subs != [] {
      WrittenIsFiled(dir, subs[..|subs| - 1]);
    }
  }

  /** Each file written holds the last record written to it. */
  lemma {:induction false} WrittenHolds(dir: ShardDir, subs: seq<Record>, i: nat)
    requires i < |subs|
    ensures var f := ShardFileName(subs[i].name);
            f in Written(dir, subs) &&
            ((forall j :: i < j < |subs| ==> ShardFileName(subs[j].name) != f) ==>
              Written(dir, subs)[f] == Persisted(subs[i]))
  {
    hide ShardFileName;
    if i < |subs| - 1 {
      WrittenHolds(dir, subs[..|subs| - 1], i);
    }
  }

  /** The records of the given files of a directory, in that order. */
  function Listing(dir: ShardDir, files: seq<string>): seq<Record>
    requires forall f <- files :: f in dir
  {
    if files == [] then [] else [dir[files[0]]] + Listing(dir, files[1..])
  }

  /** files lists the files whose record has a name, each once: the shards a read takes in. */
  ghost predicate Enumerates(dir: ShardDir, files: seq<string>) {
    && (forall f :: f in files <==> f in dir && dir[f].name != "")
    && (forall i, j :: 0 <= i < j < |files| ==> files[i] != files[j])
  }

  lemma {:induction false} ListingAt(dir: ShardDir, files: seq<string>)
    requires forall f <- files :: f in dir
    ensures |Listing(dir, files)| == |files| && forall i :: 0 <= i < |files| ==> Listing(dir, files)[i] == dir[files[i]]
  {
    if files != [] {
      ListingAt(dir, files[1..]);
    }
  }

  /** A well-kept directory lists uniquely named records, each of which lookup finds. */
  lemma ListingIsUnique(dir: ShardDir, files: seq<string>)
    requires Filed(dir) && Enumerates(dir, files)
    ensures NamesUnique(Listing(dir, files))
    ensures forall f <- dir :: dir[f].name != "" ==> Lookup(Listing(dir, files), dir[f].name) == Some(dir[f])
    ensures forall n :: Lookup(Listing(dir, files), n).Some? ==>
              n != "" && ShardFileName(n) in dir && dir[ShardFileName(n)].name == n
  {
    hide ShardFileName;
    var all := Listing(dir, files);
    ListingAt(dir, files);
    forall i, j | 0 <= i < j < |all| ensures all[i].name != all[j].name {
      assert files[i] in dir && files[j] in dir && files[i] != files[j];
    }
    forall f <- dir | dir[f].name != "" ensures Lookup(all, dir[f].name) == Some(dir[f]) {
      assert f in files;
      var i :| 0 <= i < |files| && files[i] == f;
      LookupIsFirst(all, i);
    }
    forall n | Lookup(all, n).Some? ensures n != "" && ShardFileName(n) in dir && dir[ShardFileName(n)].name == n {
      assert all[Find(all, n)] == dir[files[Find(all, n)]];
    }
  }

  /**
    A later job that gets only the shards, with a pipeline.json that lacks these subsystems, sees every
    one of them as written exactly if that pipeline.json exists, every record has a name, and no two of
    the names share a file.
   */
  lemma ShardsRestoreExactly(pipeline: Option<seq<Record>>, dir: ShardDir, subs: seq<Record>, files: seq<string>)
    requires Filed(dir) && NamesUnique(subs) && subs != []
    requires pipeline.Some? ==> forall s <- subs :: Lookup(pipeline.value, s.name) == None
    requires Enumerates(Written(dir, subs), files)
    ensures (forall s <- subs :: Lookup(ReadState(pipeline, Listing(Written(dir, subs), files)), s.name) ==
              Some(Persisted(s)))
            <==> pipeline.Some? && NoCollisions(subs) && forall s <- subs :: s.name != ""
  {
    hide ShardFileName, Find, Folded, Written, Listing;
    var after := Written(dir, subs);
    var shards := Listing(after, files);
    WrittenIsFiled(dir, subs);
    ListingIsUnique(after, files);
    assert subs[0] in subs;
    if pipeline.Some? {
      forall s <- subs ensures Lookup(Folded(pipeline.value, shards), s.name) == Lookup(shards, s.name) {
        FoldIsUnion(pipeline.value, shards, s.name);
      }
      if NoCollisions(subs) && forall s <- subs :: s.name != "" {
        forall s <- subs ensures Lookup(shards, s.name) == Some(Persisted(s)) {
          var i :| 0 <= i < |subs| && subs[i] == s;
          WrittenHolds(dir, subs, i);
          assert after[ShardFileName(s.name)] == Persisted(s);
        }
      } else if NoCollisions(subs) {
        var s :| s in subs && s.name == "";
        assert Lookup(shards, s.name) == None;
      } else {
        var i, j :| 0 <= i < j < |subs| && ShardFileName(subs[i].name) == ShardFileName(subs[j].name);
        assert subs[i] in subs && subs[j] in subs && subs[i].name != subs[j].name;
        assert !(Lookup(shards, subs[i].name).Some? && Lookup(shards, subs[j].name).Some?);
      }
    } else {
      assert Lookup(ReadState(pipeline, shards), subs[0].name) == None;
    }
  }

  // ---- what a read takes in ---------------------------------------------------------------------

  /** A read takes in exactly the parsed records with a name, from the files that end in .json. */
  lemma {:induction false} RecordsExactly(files: seq<ShardFile>, s: Record)
    ensures s in Records(files) <==>
            s.name != "" && exists f <- files :: !f.isDir && Ext(f.name) == ".json" && f.record == Some(s)
  {
    hide Ext;
    if files != [] {
      var front, last := files[..|files| - 1], files[|files| - 1];
      assert files == front + [last];
      RecordsExactly(front, s);
    }
  }

  lemma {:induction false} ExtAfterDot(a: string, b: string)
    requires '.' !in b
    ensures Ext(a + ['.'] + b) == ['.'] + b
  {
    var s := a + ['.'] + b;
    if a == [] {
      assert s == ['.'] + b && s[1..] == b;
    } else {
      assert s[1..] == a[1..] + ['.'] + b && '.' in s[1..] by {
        assert (a[1..] + ['.'] + b)[|a| - 1] == '.';
      }
      ExtAfterDot(a[1..], b);
    }
  }

  /** Every file the writer names is one the reader takes for a shard. */
  lemma ShardFilesAreRead(name: string)
    ensures Ext(ShardFileName(name)) == ".json"
  {
    ExtAfterDot(SafeName(name), "json");
    assert SafeName(name) + ['.'] + "json" == ShardFileName(name);
  }

  /** A shard directory as a read finds it, in the order of its names. */
  function FilesOf(dir: ShardDir, names: seq<string>): seq<ShardFile>
    requires forall f <- names :: f in dir
  {
    if names == [] then []
    else FilesOf(dir, names[..|names| - 1]) + [ShardFile(names[|names| - 1], false, Some(dir[names[|names| - 1]]))]
  }

  /** The files whose record has a name. */
  function Named(dir: ShardDir, names: seq<string>): (named: seq<string>)
    requires forall f <- names :: f in dir
    ensures forall f :: f in named <==> f in names && dir[f].name != ""
  {
    if names == [] then []
    else Named(dir, names[..|names| - 1]) + (if dir[names[|names| - 1]].name == "" then [] else [names[|names| - 1]])
  }

  lemma {:induction false} ListingMore(dir: ShardDir, files: seq<string>, f: string)
    requires f in dir && forall g <- files :: g in dir
    ensures Listing(dir, files + [f]) == Listing(dir, files) + [dir[f]]
  {
    if files == [] {
      assert [f][1..] == [] && [] + [f] == [f];
    } else {
      assert (files + [f])[1..] == files[1..] + [f];
      ListingMore(dir, files[1..], f);
    }
  }

  /** The overlay of a directory the writer keeps folds exactly its named records, in listing order. */
  lemma {:induction false} DirectoryIsRead(dir: ShardDir, names: seq<string>)
    requires Filed(dir) && forall f <- names :: f in dir
    ensures Records(FilesOf(dir, names)) == Listing(dir, Named(dir, names))
  {
    if names != [] {
      var front, f := names[..|names| - 1], names[|names| - 1];
      DirectoryIsRead(dir, front);
      ShardFilesAreRead(dir[f].name);
      OneMoreFile(FilesOf(dir, front), ShardFile(f, false, Some(dir[f])));
      hide Ext, ShardFileName, Records, Listing;
      ListingMore(dir, Named(dir, front), f);
      assert Named(dir, front) + [] == Named(dir, front);
    }
  }

  lemma OneMoreFile(files: seq<ShardFile>, f: ShardFile)
    ensures Records(files + [f]) == if Usable(f) then Records(files) + [f.record.value] else Records(files)
  {
    hide Ext;
    assert (files + [f])[..|files|] == files;
    assert Records(files) + [] == Records(files);
  }

  /** A listing that names each file once takes each in once. */
  lemma {:induction false} NamedIsDistinct(dir: ShardDir, names: seq<string>)
    requires (forall f <- names :: f in dir) && forall i, j :: 0 <= i < j < |names| ==> names[i] != names[j]
    ensures forall i, j :: 0 <= i < j < |Named(dir, names)| ==> Named(dir, names)[i] != Named(dir, names)[j]
  {
    if names != [] {
      var front, f := names[..|names| - 1], names[|names| - 1];
      NamedIsDistinct(dir, front);
      assert f !in front;
      assert forall i :: 0 <= i < |Named(dir, front)| ==> Named(dir, front)[i] in Named(dir, front);
    }
  }

  /** So what ReadState sees of a whole directory is the listing these results speak of. */
  lemma WholeDirectoryIsRead(pipeline: seq<Record>, dir: ShardDir, names: seq<string>)
    requires Filed(dir) && (forall f :: f in names <==> f in dir)
    requires forall i, j :: 0 <= i < j < |names| ==> names[i] != names[j]
    ensures Enumerates(dir, Named(dir, names))
    ensures Folded(pipeline, Records(FilesOf(dir, names))) == Folded(pipeline, Listing(dir, Named(dir, names)))
  {
    DirectoryIsRead(dir, names);
    NamedIsDistinct(dir, names);
  }

  // ---- two jobs' directories --------------------------------------------------------------------

  /** What a read of pipeline.json and a shard directory finds under a name. */
  function Seen(pipeline: seq<Record>, dir: ShardDir, n: string): Option<Record> {
    var f := ShardFileName(n);
    if n != "" && f in dir && dir[f].name == n then Some(Keeping(dir[f], Lookup(pipeline, n))) else Lookup(pipeline, n)
  }

  lemma ReadSees(pipeline: seq<Record>, dir: ShardDir, files: seq<string>, n: string)
    requires Filed(dir) && Enumerates(dir, files)
    ensures Lookup(Folded(pipeline, Listing(dir, files)), n) == Seen(pipeline, dir, n)
    ensures NamesUnique(Folded(pipeline, Listing(dir, files))) <==> NamesUnique(pipeline)
  {
    hide ShardFileName, Find, Folded, Listing;
    ListingIsUnique(dir, files);
    FoldIsUnion(pipeline, Listing(dir, files), n);
  }

  /** Two copies of one shard file that read alike: the same over pipeline.json, or both already in it. */
  ghost predicate Agree(pipeline: seq<Record>, x: Record, y: Record) {
    if x.name == y.name then Keeping(x, Lookup(pipeline, x.name)) == Keeping(y, Lookup(pipeline, y.name))
    else
      && Lookup(pipeline, x.name) == Some(Keeping(x, Lookup(pipeline, x.name)))
      && Lookup(pipeline, y.name) == Some(Keeping(y, Lookup(pipeline, y.name)))
  }

  ghost predicate SharedFilesAgree(pipeline: seq<Record>, a: ShardDir, b: ShardDir) {
    forall f <- a :: f in b && a[f].name != "" ==> Agree(pipeline, a[f], b[f])
  }

  lemma SeenAlikeExactly(pipeline: seq<Record>, a: ShardDir, b: ShardDir)
    requires Filed(a) && Filed(b)
    ensures (forall n :: Seen(pipeline, a + b, n) == Seen(pipeline, b + a, n)) <==> SharedFilesAgree(pipeline, a, b)
  {
    if forall n :: Seen(pipeline, a + b, n) == Seen(pipeline, b + a, n) {
      forall f <- a | f in b && a[f].name != "" ensures Agree(pipeline, a[f], b[f]) {
        ShardNamesCollideExactly(a[f].name, b[f].name);
        hide ShardFileName;
        assert Seen(pipeline, a + b, a[f].name) == Seen(pipeline, b + a, a[f].name);
        assert Seen(pipeline, a + b, b[f].name) == Seen(pipeline, b + a, b[f].name);
      }
    }
    if SharedFilesAgree(pipeline, a, b) {
      forall n ensures Seen(pipeline, a + b, n) == Seen(pipeline, b + a, n) {
        if n != "" {
          ShareNamed(a, b, n);
        }
      }
    }
  }

  lemma ShareNamed(a: ShardDir, b: ShardDir, n: string)
    requires Filed(a) && Filed(b) && n != ""
    ensures var f := ShardFileName(n); f in a && f in b ==> a[f].name != "" && b[f].name != ""
  {
    var f := ShardFileName(n);
    if f in a && f in b {
      ShardNamesCollideExactly(a[f].name, n);
      ShardNamesCollideExactly(b[f].name, n);
    }
  }

  /** Ledgers with unique names hold the same records exactly if every name finds the same. */
  lemma SameRecordsExactly(one: seq<Record>, two: seq<Record>)
    requires NamesUnique(one) && NamesUnique(two)
    ensures (forall s :: s in one <==> s in two) <==> forall n :: Lookup(one, n) == Lookup(two, n)
  {
    if forall s :: s in one <==> s in two {
      forall n ensures Lookup(one, n) == Lookup(two, n) {
        SameLookup(one, two, n);
      }
    }
    if forall n :: Lookup(one, n) == Lookup(two, n) {
      forall s ensures s in one <==> s in two {
        MemberMeansFound(one, s);
        MemberMeansFound(two, s);
      }
    }
  }

  /**
    Two jobs' shard directories, downloaded one over the other in either order: both orders give the
    same records exactly if the copies of every shared file agree over the pipeline.json that won.
   */
  lemma DownloadOrderDoesNotMatter(pipeline: seq<Record>, a: ShardDir, b: ShardDir, ab: seq<string>, ba: seq<string>)
    requires NamesUnique(pipeline) && Filed(a) && Filed(b)
    requires Enumerates(a + b, ab) && Enumerates(b + a, ba)
    ensures var one, two := Folded(pipeline, Listing(a + b, ab)), Folded(pipeline, Listing(b + a, ba));
            && NamesUnique(one) && NamesUnique(two)
            && ((forall s :: s in one <==> s in two) <==> SharedFilesAgree(pipeline, a, b))
  {
    hide ShardFileName, Find, Folded, Listing, Lookup, Seen, SharedFilesAgree;
    RaceExactly(pipeline, pipeline, a + b, b + a, ab, ba);
    SeenAlikeExactly(pipeline, a, b);
  }

  /** The facts pipeline.json holds under a name. */
  function Facts(pipeline: seq<Record>, n: string): Option<map<string, string>> {
    match Lookup(pipeline, n)
    case None => None
    case Some(s) => s.results
  }

  /**
    Two pipeline.json files read alike over one shard directory: where a name has a shard, the shard has
    facts of its own or both files hold the same; where it has none, both hold the same record.
   */
  ghost predicate PipelinesAgree(p: seq<Record>, q: seq<Record>, dir: ShardDir) {
    forall n ::
      var f := ShardFileName(n);
      if n != "" && f in dir && dir[f].name == n then dir[f].results.Some? || Facts(p, n) == Facts(q, n)
      else Lookup(p, n) == Lookup(q, n)
  }

  /** Which pipeline.json wins the download does not matter exactly if the two agree over the shards. */
  lemma PipelineRaceExactly(p: seq<Record>, q: seq<Record>, dir: ShardDir, files: seq<string>)
    requires NamesUnique(p) && NamesUnique(q) && Filed(dir) && Enumerates(dir, files)
    ensures var one, two := Folded(p, Listing(dir, files)), Folded(q, Listing(dir, files));
            (forall s :: s in one <==> s in two) <==> PipelinesAgree(p, q, dir)
  {
    hide ShardFileName, Find, Folded, Listing, Lookup;
    RaceExactly(p, q, dir, dir, files, files);
    forall n
      ensures Seen(p, dir, n) == Seen(q, dir, n) <==>
              var f := ShardFileName(n);
              if n != "" && f in dir && dir[f].name == n then dir[f].results.Some? || Facts(p, n) == Facts(q, n)
              else Lookup(p, n) == Lookup(q, n)
    {
    }
  }

  /** Whatever pipeline.json and directory two reads work on, they give the same records if every name does. */
  lemma RaceExactly(p: seq<Record>, q: seq<Record>, a: ShardDir, b: ShardDir, fa: seq<string>, fb: seq<string>)
    requires NamesUnique(p) && NamesUnique(q) && Filed(a) && Filed(b) && Enumerates(a, fa) && Enumerates(b, fb)
    ensures var one, two := Folded(p, Listing(a, fa)), Folded(q, Listing(b, fb));
            && NamesUnique(one) && NamesUnique(two)
            && ((forall s :: s in one <==> s in two) <==> forall n :: Seen(p, a, n) == Seen(q, b, n))
  {
    hide ShardFileName, Find, Folded, Listing, Lookup, Seen;
    var one, two := Folded(p, Listing(a, fa)), Folded(q, Listing(b, fb));
    forall n ensures Lookup(one, n) == Seen(p, a, n) && Lookup(two, n) == Seen(q, b, n) {
      ReadSees(p, a, fa, n);
      ReadSees(q, b, fb, n);
    }
    ReadSees(p, a, fa, "");
    ReadSees(q, b, fb, "");
    SameRecordsExactly(one, two);
  }

  /** With agreeing copies, either order gives one status and every named record of both directories. */
  lemma DownloadsUnite(pipeline: seq<Record>, a: ShardDir, b: ShardDir, ab: seq<string>, ba: seq<string>)
    requires NamesUnique(pipeline) && Filed(a) && Filed(b) && SharedFilesAgree(pipeline, a, b)
    requires Enumerates(a + b, ab) && Enumerates(b + a, ba)
    ensures var one, two := Folded(pipeline, Listing(a + b, ab)), Folded(pipeline, Listing(b + a, ba));
            && (forall s :: s in one <==> s in two) && StatusOf(one) == StatusOf(two)
            && (forall f <- a :: a[f].name != "" ==> Keeping(a[f], Lookup(pipeline, a[f].name)) in one)
            && (forall f <- b :: b[f].name != "" ==> Keeping(b[f], Lookup(pipeline, b[f].name)) in one)
  {
    hide Find, Folded, Listing, Lookup, ShardFileName, Fails, Warns;
    var one := Folded(pipeline, Listing(a + b, ab));
    DownloadOrderDoesNotMatter(pipeline, a, b, ab, ba);
    forall f <- a | a[f].name != "" ensures Keeping(a[f], Lookup(pipeline, a[f].name)) in one {
      ReadSees(pipeline, a + b, ab, a[f].name);
      MemberMeansFound(one, Keeping(a[f], Lookup(pipeline, a[f].name)));
    }
    forall f <- b | b[f].name != "" ensures Keeping(b[f], Lookup(pipeline, b[f].name)) in one {
      ReadSees(pipeline, a + b, ab, b[f].name);
      MemberMeansFound(one, Keeping(b[f], Lookup(pipeline, b[f].name)));
    }
  }

  /**
    A job that starts from another's ledger mirrors that job's records next to its own: as long as no
    two names share a file, its copies agree with the originals, whatever pipeline.json wins.
   */
  lemma MirroredCopiesAgree(pipeline: seq<Record>, theirs: seq<Record>, own: seq<Record>)
    requires NoCollisions(theirs + own)
    ensures Filed(Written(map[], theirs)) && Filed(Written(map[], theirs + own))
    ensures SharedFilesAgree(pipeline, Written(map[], theirs), Written(map[], theirs + own))
    ensures forall s <- theirs + own ::
              ShardFileName(s.name) in Written(map[], theirs + own) &&
                Written(map[], theirs + own)[ShardFileName(s.name)] == Persisted(s)
  {
    hide ShardFileName, Persisted;
    var all := theirs + own;
    var a, b := Written(map[], theirs), Written(map[], all);
    WrittenIsFiled(map[], theirs);
    WrittenIsFiled(map[], all);
    forall i | 0 <= i < |all|
      ensures ShardFileName(all[i].name) in b && b[ShardFileName(all[i].name)] == Persisted(all[i])
    {
      WrittenHolds(map[], all, i);
    }
    forall f <- a ensures f in b && a[f] == b[f] {
      WrittenOnly(theirs, f);
      var i :| 0 <= i < |theirs| && ShardFileName(theirs[i].name) == f;
      assert forall j :: i < j < |theirs| ==>
        all[j] == theirs[j] && ShardFileName(all[i].name) != ShardFileName(all[j].name);
      WrittenHolds(map[], theirs, i);
      assert all[i] == theirs[i];
    }
  }

  lemma {:induction false} WrittenOnly(subs: seq<Record>, f: string)
    requires f in Written(map[], subs)
    ensures exists i :: 0 <= i < |subs| && ShardFileName(subs[i].name) == f
  {
    if f != ShardFileName(subs[|subs| - 1].name) {
      WrittenOnly(subs[..|subs| - 1], f);
      var i :| 0 <= i < |subs| - 1 && ShardFileName(subs[..|subs| - 1][i].name) == f;
      assert subs[i] == subs[..|subs| - 1][i];
    }
  }

  /** Copies that disagree: the same two files read as failing or passing, by download order alone. */
  lemma DisagreeingCopiesChangeStatus(failed: Record, passed: Record)
    requires failed.name == passed.name != "" && Fails(failed)
    requires passed.life.attempted && !Fails(passed) && !Warns(passed)
    ensures var f := ShardFileName(failed.name);
            var a, b := map[f := failed], map[f := passed];
            && Filed(a) && Filed(b) && Enumerates(a + b, [f]) && Enumerates(b + a, [f]) && !SharedFilesAgree([], a, b)
            && StatusOf(Folded([], Listing(a + b, [f]))) == "passing" &&
              StatusOf(Folded([], Listing(b + a, [f]))) == "failing"
  {
    var f := ShardFileName(failed.name);
    var a, b := map[f := failed], map[f := passed];
    OneShard(a + b, f);
    OneShard(b + a, f);
    hide Fails, Warns, ShardFileName;
    assert Any([failed], Fails) by { assert failed in [failed]; }
    assert Any([passed], Attempted) by { assert passed in [passed]; }
    assert Lookup([], failed.name) == None;
    DownloadOrderDoesNotMatter([], a, b, [f], [f]);
    assert failed in [failed] && failed !in [passed];
  }

  lemma OneShard(dir: ShardDir, f: string)
    requires f in dir
    ensures Folded([], Listing(dir, [f])) == [dir[f]]
  {
    assert [f][1..] == [] && Listing(dir, []) == [];
    assert Listing(dir, [f]) == [dir[f]];
    assert [dir[f]][..0] == [] && Folded([], []) == [];
    assert [] + [dir[f]] == [dir[f]];
  }

  // ---- the documented status --------------------------------------------------------------------

  predicate Ended(s: Record) {
    s.life.outcome in {"failed", "cancelled"}
  }

  /** "Any required subsystem" with outcome failed, or cancelled. */
  predicate DocFails(s: Record) {
    Ended(s) && s.life.required
  }

  /** Failed but allowed and not required, cancelled and not required, warning, or skipped and required. */
  predicate DocWarns(s: Record) {
    || (s.life.outcome == "failed" && !s.life.required && s.life.allowFailure)
    || (s.life.outcome == "cancelled" && !s.life.required)
    || s.life.outcome == "warning"
    || (s.life.outcome == "skipped" && s.life.required)
  }

  /** The documented rules in their order; only the rule before the last speaks of attempts. */
  ghost function DocumentedStatus(subs: seq<Record>): string {
    if Any(subs, DocFails) then "failing"
    else if Any(subs, DocWarns) then "warning"
    else if !Any(subs, Attempted) then "unknown"
    else "passing"
  }

  /** Attempted, failed or cancelled, required and not allowed to fail: failing by any reading. */
  predicate Certain(s: Record) {
    s.life.attempted && Ended(s) && s.life.required && !s.life.allowFailure
  }

  /** Failing by the documentation alone: required but allowed to fail, or never attempted. */
  predicate OnlyDocumented(s: Record) {
    Ended(s) && s.life.required && (s.life.allowFailure || !s.life.attempted)
  }

  /** Failing by the code alone: attempted, neither required nor allowed to fail. */
  predicate OnlyComputed(s: Record) {
    s.life.attempted && Ended(s) && !s.life.required && !s.life.allowFailure
  }

  /** A warning by the documentation, on a subsystem the code does not look at. */
  predicate Unattempted(s: Record) {
    !s.life.attempted && DocWarns(s)
  }

  lemma AnyOf(subs: seq<Record>, p: Record -> bool, q: Record -> bool, r: Record -> bool)
    requires forall s <- subs :: p(s) <==> q(s) || r(s)
    ensures Any(subs, p) <==> Any(subs, q) || Any(subs, r)
  {
  }

  /**
    Exactly when the computed status is the documented one: some record fails by both readings, or
    records failing by only one reading come in both kinds or not at all, and then no warning hangs on
    an unattempted subsystem alone.
   */
  lemma StatusAsDocumentedExactly(subs: seq<Record>)
    ensures StatusOf(subs) == DocumentedStatus(subs) <==>
            || Any(subs, Certain)
            || (Any(subs, OnlyDocumented) && Any(subs, OnlyComputed))
            || (!Any(subs, OnlyDocumented) && !Any(subs, OnlyComputed) && (Any(subs, Warns) || !Any(subs, Unattempted)))
  {
    AnyOf(subs, Fails, Certain, OnlyComputed);
    AnyOf(subs, DocFails, Certain, OnlyDocumented);
    if !Any(subs, Certain) && !Any(subs, OnlyDocumented) && !Any(subs, OnlyComputed) {
      forall s <- subs ensures DocWarns(s) <==> Warns(s) || Unattempted(s) {
        assert !Certain(s) && !OnlyDocumented(s) && !OnlyComputed(s);
      }
      AnyOf(subs, DocWarns, Warns, Unattempted);
      assert Any(subs, Warns) ==> Any(subs, Attempted);
    }
  }

  /** Required and allowed to fail: documented as failing, computed as a warning. */
  lemma RequiredMayFail(s: Record)
    requires s.life.attempted && s.life.outcome == "failed" && s.life.required && s.life.allowFailure
    ensures DocumentedStatus([s]) == "failing" && StatusOf([s]) == "warning"
  {
    assert s in [s];
    assert DocFails(s) && Warns(s) && !Fails(s) && Attempted(s);
    assert Any([s], DocFails) && Any([s], Warns) && Any([s], Attempted) && !Any([s], Fails);
  }
}
