/**
  The content-addressed artifact store (src/cas/cas.go): OCI layouts kept under their digest, verified
  when written and when read. A Put may be cut off at any file; what it leaves is all a later call sees.
 */
module ContentStore {
  import opened Wrappers
  import opened Strings
  import opened Layouts

  /** hash: hex SHA-256. manifests: the digests an index.json lists, None if it is not valid JSON. */
  datatype Codec = Codec(hash: Bytes -> string, manifests: Bytes -> Option<seq<string>>)

  datatype Error = BadDigest | NotFound | Integrity | Unreadable | Interrupted

  // ---- digests ----------------------------------------------------------------------------------

  /** splitDigest: the hex part of "sha256:<64 characters>". */
  function SplitDigest(d: string): Option<string> {
    var i := IndexOf(d, ':');
    if i == |d| || i == 0 || i == |d| - 1 then None
    else if d[..i] != "sha256" then None
    else if |d[i + 1..]| != 64 then None
    else Some(d[i + 1..])
  }

  /** Exactly the 64-character sha256 digests are accepted, so a digest is known by its hex part. */
  lemma DigestExactly(d: string, hex: string)
    ensures SplitDigest(d) == Some(hex) <==> d == "sha256:" + hex && |hex| == 64
  {
    if d == "sha256:" + hex && |hex| == 64 {
      IndexOfFirst("sha256", ':', hex);
      assert "sha256" + [':'] + hex == d;
    }
    if SplitDigest(d) == Some(hex) {
      assert d == d[..6] + [d[6]] + d[7..];
    }
  }

  // ---- verification -----------------------------------------------------------------------------

  const INDEX: Path := ["index.json"]
  const BLOBS: Path := ["blobs"]

  predicate Lists(c: Codec, data: Bytes, d: string) {
    c.manifests(data).Some? && d in c.manifests(data).value
  }

  predicate UnderBlobs(p: Path) {
    |p| > 1 && p[0] == "blobs"
  }

  /** A file the store understands: it lies in a directory named sha256 and hashes to its own name. */
  predicate BlobIntact(c: Codec, p: Path, data: Bytes)
    requires UnderBlobs(p)
  {
    p[|p| - 2] == "sha256" && c.hash(data) == p[|p| - 1]
  }

  predicate HasBlobsDir(l: Layout) {
    BLOBS in l && l[BLOBS].Directory?
  }

  ghost predicate BlobsIntact(c: Codec, l: Layout) {
    forall p <- l :: UnderBlobs(p) && l[p].Blob? ==> BlobIntact(c, p, l[p].data)
  }

  /** verifyLayout holds: index.json lists the digest and every blob hashes to its name. */
  ghost predicate Verified(c: Codec, l: Layout, d: string) {
    && SplitDigest(d).Some?
    && INDEX in l && l[INDEX].Blob? && Lists(c, l[INDEX].data, d)
    && HasBlobsDir(l) && BlobsIntact(c, l)
  }

  /**
    What refuses a layout, each for itself: no index file, a digest it does not list, no blobs
    directory, and a file under blobs that lies outside a sha256 directory or has not its name's hash.
   */
  lemma RefusedExactly(c: Codec, l: Layout, d: string)
    ensures !Verified(c, l, d) <==>
            || (forall hex :: |hex| == 64 ==> d != "sha256:" + hex)
            || ["index.json"] !in l || l[["index.json"]].Directory?
            || c.manifests(l[["index.json"]].data).None? || d !in c.manifests(l[["index.json"]].data).value
            || ["blobs"] !in l || l[["blobs"]].Blob?
            || exists p <- l :: |p| > 1 && p[0] == "blobs" && l[p].Blob?
                                && (p[|p| - 2] != "sha256" || c.hash(l[p].data) != p[|p| - 1])
  {
    DigestAccepted(d);
    hide SplitDigest;
  }

  lemma DigestAccepted(d: string)
    ensures SplitDigest(d).Some? <==> exists hex :: |hex| == 64 && d == "sha256:" + hex
  {
    if SplitDigest(d).Some? {
      DigestExactly(d, SplitDigest(d).value);
    }
    if hex :| |hex| == 64 && d == "sha256:" + hex {
      DigestExactly(d, hex);
    }
  }

  method VerifyIdentityBinding(c: Codec, l: Layout, d: string) returns (err: Option<Error>)
    ensures err == None <==> SplitDigest(d).Some? && INDEX in l && l[INDEX].Blob? && Lists(c, l[INDEX].data, d)
    ensures err.Some? ==> err.value == (if SplitDigest(d) == None then BadDigest
                                        else if INDEX in l && l[INDEX].Directory? then Unreadable else Integrity)
  {
    if SplitDigest(d) == None { return Some(BadDigest); }
    if INDEX !in l { return Some(Integrity); }
    if l[INDEX].Directory? { return Some(Unreadable); }
    var listed := c.manifests(l[INDEX].data);
    if listed == None { return Some(Integrity); }
    for i := 0 to |listed.value|
      invariant d !in listed.value[..i]
    {
      if listed.value[i] == d { return None; }
    }
    assert listed.value[..|listed.value|] == listed.value;
    return Some(Integrity);
  }

  method VerifyBlobIntegrity(c: Codec, l: Layout) returns (err: Option<Error>)
    ensures err == if HasBlobsDir(l) && BlobsIntact(c, l) then None else Some(Integrity)
  {
    if !HasBlobsDir(l) { return Some(Integrity); }
    var pending := l.Keys;
    while pending != {}
      invariant pending <= l.Keys
      invariant forall p <- l.Keys - pending :: UnderBlobs(p) && l[p].Blob? ==> BlobIntact(c, p, l[p].data)
    {
      var p :| p in pending;
      if UnderBlobs(p) && l[p].Blob? && !BlobIntact(c, p, l[p].data) {
        return Some(Integrity);
      }
      pending := pending - {p};
    }
    return None;
  }

  method VerifyLayout(c: Codec, l: Layout, d: string) returns (err: Option<Error>)
    ensures err == None <==> Verified(c, l, d)
    ensures err.Some? ==> err.value in {BadDigest, Unreadable, Integrity}
  {
    err := VerifyIdentityBinding(c, l, d);
    if err == None {
      err := VerifyBlobIntegrity(c, l);
    }
  }

  // ---- the store --------------------------------------------------------------------------------

  type Store = map<string, Layout>

  /** What a Put leaves in the store; cut is where its copy stops, if it stops. */
  ghost function StoreAfterPut(c: Codec, dirs: Store, d: string, source: Tree, cut: Option<Cut>): Store {
    if !Verified(c, Flatten(source), d) then dirs
    else
      var key := SplitDigest(d).value;
      if key in dirs then dirs
      else
        var copy := if cut.Some? then CutOff(Walk([], source), cut.value) else Flatten(source);
        if copy == map[] then dirs else dirs[key := copy]
  }

  ghost predicate Resolvable(c: Codec, dirs: Store, d: string) {
    SplitDigest(d).Some? && SplitDigest(d).value in dirs && Verified(c, dirs[SplitDigest(d).value], d)
  }

  function Report(err: Option<Error>, key: string): Result<string, Error> {
    if err.Some? then Err(err.value) else Ok(key)
  }

  class FSStore {
    const codec: Codec
    var dirs: Store

    constructor (codec: Codec)
      ensures this.codec == codec && dirs == map[]
    {
      this.codec := codec;
      dirs := map[];
    }

    /**
      Put. It succeeds exactly when the source verifies, the copy is not interrupted and what is stored
      verifies; a copy that runs to its end can not fail the check after writing.
     */
    method Put(d: string, source: Tree, cut: Option<Cut>) returns (r: Result<string, Error>)
      modifies this
      ensures dirs == StoreAfterPut(codec, old(dirs), d, source, cut)
      ensures r.Ok? <==>
                Verified(codec, Flatten(source), d) &&
                if SplitDigest(d).value in old(dirs) then Verified(codec, old(dirs)[SplitDigest(d).value], d)
                  else cut == None
      ensures r.Ok? ==> SplitDigest(d) == Some(r.value) && Resolvable(codec, dirs, d)
      ensures r.Err? ==> (r.error == Interrupted <==>
                Verified(codec, Flatten(source), d) && SplitDigest(d).value !in old(dirs))
    {
      var es := Walk([], source);
      var err := VerifyLayout(codec, Copied(es), d);
      if err.Some? { return Err(err.value); }
      var key := SplitDigest(d).value;
      if key in dirs {
        err := VerifyLayout(codec, dirs[key], d);
        return Report(err, key);
      }
      var finished := CopyTree(es, key, cut);
      if !finished { return Err(Interrupted); }
      err := VerifyLayout(codec, dirs[key], d);
      return Report(err, key);
    }

    /** copyTree: one entry after the other, the directory itself first. */
    method CopyTree(es: seq<Entry>, key: string, cut: Option<Cut>) returns (finished: bool)
      requires key !in dirs && es != []
      modifies this
      ensures finished == (cut == None)
      ensures var copy := if cut.Some? then CutOff(es, cut.value) else Copied(es);
              dirs == if copy == map[] then old(dirs) else old(dirs)[key := copy]
    {
      for i := 0 to |es|
        invariant cut.Some? ==> i <= cut.value.steps
        invariant dirs == if i == 0 then old(dirs) else old(dirs)[key := Copied(es[..i])]
        invariant key in dirs <==> i > 0
      {
        var here := if key in dirs then dirs[key] else map[];
        assert here == Copied(es[..i]);
        if cut.Some? && cut.value.steps == i {
          CopiedSomething(es[..i]);
          if es[i].node.Blob? && cut.value.partial.Some? {
            var torn := here[es[i].path := Blob(Head(es[i].node.data, cut.value.partial.value))];
            assert torn == CutOff(es, cut.value) && es[i].path in torn;
            dirs := dirs[key := torn];
            assert dirs == old(dirs)[key := torn];
          }
          return false;
        }
        dirs := dirs[key := here[es[i].path := es[i].node]];
        assert es[..i + 1][..i] == es[..i];
      }
      assert es[..|es|] == es;
      CopiedSomething(es);
      finished := cut == None;
    }

    /** Resolve: absent, refused, or a layout that has just been verified. */
    method Resolve(d: string) returns (r: Result<string, Error>)
      ensures r.Ok? <==> Resolvable(codec, dirs, d)
      ensures r.Ok? ==> SplitDigest(d) == Some(r.value)
      ensures r.Err? ==> (r.error == NotFound <==> SplitDigest(d).Some? && SplitDigest(d).value !in dirs)
    {
      var key := SplitDigest(d);
      if key == None { return Err(BadDigest); }
      if key.value !in dirs { return Err(NotFound); }
      var err := VerifyLayout(codec, dirs[key.value], d);
      return Report(err, key.value);
    }

    method Retire()
      modifies this
      ensures dirs == map[]
    {
      dirs := map[];
    }
  }
}
