/**
  The cross-job ledger (src/cistate/state.go): subsystem records kept in one list per workspace and in
  one shard file per subsystem, which jobs forward to each other and fold back into the list.
 */
module Ledger {
  import opened Wrappers

  /** Every field of a subsystem record that is neither its name nor its facts. */
  datatype Lifecycle = Lifecycle(
    attempted: bool,
    completed: bool,
    skipped: bool,
    allowFailure: bool,
    required: bool,
    outcome: string,
    reason: string,
    blocking: bool,
    replacement: string,
    contract: bool)

  const UNRECORDED := Lifecycle(false, false, false, false, false, "", "", false, "", false)

  /** results is None where the source's map is nil. */
  datatype Record = Record(name: string, life: Lifecycle, results: Option<map<string, string>>)

  ghost predicate NamesUnique(subs: seq<Record>) {
    forall i, j :: 0 <= i < j < |subs| ==> subs[i].name != subs[j].name
  }

  /** The position of the first record of that name, |subs| if there is none. */
  function Find(subs: seq<Record>, name: string): (i: nat)
    ensures i <= |subs| && (i < |subs| ==> subs[i].name == name)
    ensures forall k :: 0 <= k < i ==> subs[k].name != name
  {
    if subs == [] || subs[0].name == name then 0 else 1 + Find(subs[1..], name)
  }

  /** GetSubsystem. */
  function Lookup(subs: seq<Record>, name: string): Option<Record> {
    var i := Find(subs, name);
    if i < |subs| then Some(subs[i]) else None
  }

  /** A record without results takes over those of the record it replaces. */
  function Keeping(s: Record, previous: Option<Record>): Record {
    if s.results == None && previous.Some? then s.(results := previous.value.results) else s
  }

  function Upserted(subs: seq<Record>, s: Record): seq<Record> {
    var i := Find(subs, s.name);
    if i < |subs| then subs[i := Keeping(s, Some(subs[i]))] else subs + [s]
  }

  function Folded(subs: seq<Record>, shards: seq<Record>): seq<Record> {
    if shards == [] then subs else Upserted(Folded(subs, shards[..|shards| - 1]), shards[|shards| - 1])
  }

  lemma FoldedOneMore(subs: seq<Record>, shards: seq<Record>, s: Record)
    ensures Folded(subs, shards + [s]) == Upserted(Folded(subs, shards), s)
  {
    assert (shards + [s])[..|shards|] == shards;
  }

  function WithFacts(s: Record, facts: map<string, string>): Record {
    s.(results := Some(if s.results.Some? then s.results.value + facts else facts))
  }

  function FactsOnly(name: string, facts: map<string, string>): Record {
    Record(name, UNRECORDED, Some(facts))
  }

  function WithResults(subs: seq<Record>, name: string, results: map<string, string>): seq<Record> {
    if results == map[] then subs
    else
      var i := Find(subs, name);
      if i < |subs| then
        subs[i := WithFacts(subs[i], results)]
      else
        subs + [FactsOnly(name, results)]
  }

  // ---- status -----------------------------------------------------------------------------------

  predicate Fails(s: Record) {
    s.life.attempted && s.life.outcome in {"failed", "cancelled"} && !s.life.allowFailure
  }

  predicate Warns(s: Record) {
    s.life.attempted &&
    ((s.life.outcome in {"failed", "cancelled"} && s.life.allowFailure) || s.life.outcome == "warning" ||
      (s.life.outcome == "skipped" && s.life.required))
  }

  predicate Attempted(s: Record) {
    s.life.attempted
  }

  ghost predicate Any(subs: seq<Record>, p: Record -> bool) {
    exists s <- subs :: p(s)
  }

  ghost function StatusOf(subs: seq<Record>): string {
    if Any(subs, Fails) then "failing"
    else if !Any(subs, Attempted) then "unknown"
    else if Any(subs, Warns) then "warning"
    else "passing"
  }

  /** filepath.Ext: from the last dot on, empty without one. */
  function Ext(name: string): string {
    if name == "" then ""
    else if name[0] == '.' && '.' !in name[1..] then name
    else Ext(name[1..])
  }

  /** One file of the shard directory; record is None if it can not be read or parsed. */
  datatype ShardFile = ShardFile(name: string, isDir: bool, record: Option<Record>)

  predicate Usable(f: ShardFile) {
    !f.isDir && Ext(f.name) == ".json" && f.record.Some? && f.record.value.name != ""
  }

  function Records(files: seq<ShardFile>): seq<Record> {
    if files == [] then []
    else Records(files[..|files| - 1]) + (if Usable(files[|files| - 1]) then [files[|files| - 1].record.value] else [])
  }

  /** ReadState on well-formed files: without pipeline.json the shards are not looked at. */
  function ReadState(pipeline: Option<seq<Record>>, shards: seq<Record>): seq<Record> {
    match pipeline
    case None => []
    case Some(subs) => Folded(subs, shards)
  }

  class State {
    var subsystems: seq<Record>

    /** upsertSubsystem: the record as stored. */
    method Upsert(s: Record) returns (stored: Record)
      modifies this
      ensures subsystems == Upserted(old(subsystems), s)
      ensures stored == Keeping(s, Lookup(old(subsystems), s.name))
    {
      stored := s;
      for i := 0 to |subsystems|
        invariant i <= Find(subsystems, s.name) && subsystems == old(subsystems) && stored == s
      {
        var existing := subsystems[i];
        if existing.name == s.name {
          if s.results == None {
            stored := s.(results := existing.results);
          }
          subsystems := subsystems[i := stored];
          return;
        }
      }
      subsystems := subsystems + [s];
    }

    /** overlaySubsystemShards; no listing means the directory can not be read. */
    method OverlayShards(listing: Option<seq<ShardFile>>)
      modifies this
      ensures subsystems == Folded(old(subsystems), if listing.Some? then Records(listing.value) else [])
    {
      if listing == None { return; }
      var files := listing.value;
      for i := 0 to |files|
        invariant subsystems == Folded(old(subsystems), Records(files[..i]))
      {
        assert files[..i + 1][..i] == files[..i];
        assert Records(files[..i + 1]) == if Usable(files[i]) then Records(files[..i]) + [files[i].record.value]
          else Records(files[..i]);
        if files[i].isDir || Ext(files[i].name) != ".json" { continue; }
        if files[i].record == None || files[i].record.value.name == "" { continue; }
        FoldedOneMore(old(subsystems), Records(files[..i]), files[i].record.value);
        var _ := Upsert(files[i].record.value);
      }
      assert files[..|files|] == files;
    }

    method MergeResults(name: string, results: map<string, string>)
      modifies this
      ensures subsystems == WithResults(old(subsystems), name, results)
    {
      if |results| == 0 { return; }
      for i := 0 to |subsystems|
        invariant i <= Find(subsystems, name) && subsystems == old(subsystems)
      {
        if subsystems[i].name != name { continue; }
        var s := subsystems[i];
        if s.results == None {
          s := s.(results := Some(map[]));
        }
        s := s.(results := Some(s.results.value + results));
        assert map[] + results == results;
        subsystems := subsystems[i := s];
        return;
      }
      subsystems := subsystems + [FactsOnly(name, results)];
    }

    method PipelineStatus() returns (status: string)
      ensures status == StatusOf(subsystems)
    {
      var anyAttempted, hasWarning := false, false;
      for i := 0 to |subsystems|
        invariant anyAttempted <==> Any(subsystems[..i], Attempted)
        invariant hasWarning <==> Any(subsystems[..i], Warns)
        invariant forall s <- subsystems[..i] :: !Fails(s)
      {
        var s := subsystems[i];
        assert subsystems[..i + 1] == subsystems[..i] + [s];
        assert s in subsystems[..i + 1] && forall t <- subsystems[..i + 1] :: t == s || t in subsystems[..i];
        if !s.life.attempted { continue; }
        anyAttempted := true;
        match s.life.outcome {
          case "failed" =>
            if s.life.allowFailure {
              hasWarning := true;
            } else {
              assert s in subsystems && Fails(s);
              return "failing";
            }
          case "warning" => hasWarning := true;
          case "skipped" =>
            if s.life.required {
              hasWarning := true;
            }
          case "cancelled" =>
            if !s.life.allowFailure {
              assert s in subsystems && Fails(s);
              return "failing";
            }
            hasWarning := true;
          case _ =>
        }
      }
      assert subsystems[..|subsystems|] == subsystems;
      if !anyAttempted { return "unknown"; }
      return if hasWarning then "warning" else "passing";
    }
  }

  // ---- shard files ------------------------------------------------------------------------------

  predicate Safe(c: char) {
    'a' <= c <= 'z' || 'A' <= c <= 'Z' || '0' <= c <= '9' || c == '-' || c == '_'
  }

  function SafeName(name: string): (safe: string)
    ensures |safe| == |name|
    ensures forall i :: 0 <= i < |name| ==> safe[i] == if Safe(name[i]) then name[i] else '_'
  {
    if name == "" then "" else [if Safe(name[0]) then name[0] else '_'] + SafeName(name[1..])
  }

  function ShardFileName(name: string): string {
    SafeName(name) + ".json"
  }

  method BuildShardFileName(name: string) returns (file: string)
    ensures file == ShardFileName(name)
  {
    var safe := "";
    for k := 0 to |name|
      invariant safe == SafeName(name)[..k]
    {
      safe := safe + [if Safe(name[k]) then name[k] else '_'];
    }
    assert safe == SafeName(name);
    file := safe + ".json";
  }

  /** What reading a written record back gives: an empty result map is not written. */
  function Persisted(s: Record): Record {
    if s.results == Some(map[]) then s.(results := None) else s
  }

  /** The shard directory by file name. */
  type ShardDir = map<string, Record>

  function Written(dir: ShardDir, subs: seq<Record>): ShardDir {
    if subs == [] then dir
    else Written(dir, subs[..|subs| - 1])[ShardFileName(subs[|subs| - 1].name) := Persisted(subs[|subs| - 1])]
  }

  /** writeSubsystemShards. */
  method WriteShards(dir: ShardDir, subs: seq<Record>) returns (after: ShardDir)
    ensures after == Written(dir, subs)
  {
    after := dir;
    for i := 0 to |subs|
      invariant after == Written(dir, subs[..i])
    {
      assert subs[..i + 1][..i] == subs[..i];
      var file := BuildShardFileName(subs[i].name);
      after := after[file := Persisted(subs[i])];
    }
    assert subs[..|subs|] == subs;
  }
}
