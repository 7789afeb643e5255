/** The persisted inventory cache of the desktop shell: answers from recorded file
    snapshots instead of rehashing (app/src-tauri/src/setup_inventory.rs).

    Files do not change while one inventory runs. Between inventories anything may
    change, and other versions of the application may write the cache file. */
module InventoryCache {
  import opened FileWorld
  import opened Text
  import opened Wrappers

  datatype Spec = Spec(assetId: string, destination: string, paths: seq<string>, hashes: seq<(string, string)>,
                       size: nat, sha256: string, installedSize: Option<nat>)

  /** The digest of a spec's cached fields, which determines them. */
  datatype Digest = Digest(assetId: string, destination: string, paths: seq<string>, hashes: seq<(string, string)>,
                           size: nat, sha256: string, installedSize: Option<nat>, platform: string)

  datatype Recorded = Recorded(snapshot: Snapshot, expected: string, verified: string)

  datatype Entry = Entry(digest: Digest, files: seq<Recorded>)

  datatype Details = Details(installed: bool, hashes: seq<string>)

  datatype App = App(version: string, platform: string)

  /** A parsed cache file; `entries` is None when that field is not an object. */
  datatype Persisted = Persisted(schema: int, version: string, platform: string, entries: Option<map<string, Entry>>)

  const SCHEMA_VERSION := 1

  // ---------------------------------------------------------------- hashing every file

  /** The hash that a spec states for a path; empty when it states none. */
  function ExpectedHash(hashes: seq<(string, string)>, path: string): string {
    if hashes == [] then ""
    else if hashes[0].0 == path then hashes[0].1
    else ExpectedHash(hashes[1..], path)
  }

  predicate HashReady(hashes: seq<(string, string)>, path: string, digest: string) {
    var expected := ExpectedHash(hashes, path);
    expected == "" || EqIgnoreCase(digest, expected)
  }

  /** The size check, made for one single file with stated hashes. */
  predicate SizeReady(spec: Spec, size: nat) {
    |spec.paths| == 1 && spec.hashes != [] ==>
      if spec.installedSize.Some? then size == spec.installedSize.value
      else spec.size == 0 || size == spec.size
  }

  predicate PathReady(hash: Bytes -> string, files: Files, spec: Spec, path: string) {
    path in files && files[path].readable && HashReady(spec.hashes, path, hash(files[path].content))
  }

  /** The number of leading paths that are ready. */
  function ReadyPrefix(hash: Bytes -> string, files: Files, spec: Spec, n: nat): (r: nat)
    requires n <= |spec.paths|
    ensures n <= r <= |spec.paths|
    ensures forall i :: n <= i < r ==> PathReady(hash, files, spec, spec.paths[i])
    ensures r < |spec.paths| ==> !PathReady(hash, files, spec, spec.paths[r])
    decreases |spec.paths| - n
  {
    if n < |spec.paths| && PathReady(hash, files, spec, spec.paths[n]) then ReadyPrefix(hash, files, spec, n + 1) else n
  }

  function Hashes(hash: Bytes -> string, files: Files, paths: seq<string>): seq<string>
    requires forall i :: 0 <= i < |paths| ==> paths[i] in files
  {
    seq(|paths|, i requires 0 <= i < |paths| => hash(files[paths[i]].content))
  }

  /** The result of hashing every file: the first path that is not ready ends it, with its
      digest if it could be read. */
  function Fresh(hash: Bytes -> string, files: Files, spec: Spec): Details {
    var n := ReadyPrefix(hash, files, spec, 0);
    if n < |spec.paths| then
      var bad := spec.paths[n];
      var shown := if bad in files && files[bad].readable then [hash(files[bad].content)] else [];
      Details(false, Hashes(hash, files, spec.paths[..n]) + shown)
    else
      Details(n == 1 ==> SizeReady(spec, |files[spec.paths[0]].content|), Hashes(hash, files, spec.paths))
  }

  method InstalledDetails(hash: Bytes -> string, files: Files, spec: Spec) returns (details: Details)
    ensures details == Fresh(hash, files, spec)
  {
    var digests: seq<string> := [];
    for i := 0 to |spec.paths|
      invariant ReadyPrefix(hash, files, spec, 0) == ReadyPrefix(hash, files, spec, i)
      invariant forall j :: 0 <= j < i ==> spec.paths[j] in files
      invariant digests == Hashes(hash, files, spec.paths[..i])
    {
      var path := spec.paths[i];
      assert spec.paths[..i + 1] == spec.paths[..i] + [path];
      if path !in files || !files[path].readable {
        assert digests + [] == digests;
        return Details(false, digests);
      }
      var digest := hash(files[path].content);
      digests := digests + [digest];
      var expected := ExpectedHash(spec.hashes, path);
      if expected != "" && !EqIgnoreCase(digest, expected) {
        return Details(false, digests);
      }
    }
    assert spec.paths[..|spec.paths|] == spec.paths;
    if |spec.paths| == 1 && spec.hashes != [] {
      var size := |files[spec.paths[0]].content|;
      var sizeReady := if spec.installedSize.Some? then size == spec.installedSize.value
                       else spec.size == 0 || size == spec.size;
      if !sizeReady {
        return Details(false, digests);
      }
    }
    return Details(true, digests);
  }

  // ---------------------------------------------------------------- the cache

  function DigestOf(app: App, spec: Spec): Digest {
    Digest(spec.assetId, spec.destination, spec.paths, spec.hashes, spec.size, spec.sha256, spec.installedSize,
           app.platform)
  }

  function Key(spec: Spec): string {
    spec.assetId + "|" + spec.destination
  }

  /** The present file still is the recorded one, as far as snapshots tell. */
  predicate Matches(files: Files, spec: Spec, path: string, recorded: Recorded) {
    var expected := ExpectedHash(spec.hashes, path);
    && path in files
    && SnapshotOf(files[path]).identity.Some?
    && recorded.snapshot == SnapshotOf(files[path]) && recorded.expected == expected
    && (expected == "" || EqIgnoreCase(recorded.verified, expected))
  }

  predicate Hit(app: App, files: Files, entry: Entry, spec: Spec) {
    && entry.digest == DigestOf(app, spec)
    && |entry.files| == |spec.paths|
    && forall i :: 0 <= i < |spec.paths| ==> Matches(files, spec, spec.paths[i], entry.files[i])
  }

  function VerifiedHashes(recorded: seq<Recorded>): seq<string> {
    seq(|recorded|, i requires 0 <= i < |recorded| => recorded[i].verified)
  }

  function Found(app: App, files: Files, entries: map<string, Entry>, spec: Spec): Option<Details> {
    if Key(spec) in entries && Hit(app, files, entries[Key(spec)], spec)
    then Some(Details(true, VerifiedHashes(entries[Key(spec)].files)))
    else None
  }

  function RecordOf(files: Files, spec: Spec, path: string, verified: string): Recorded
    requires path in files
  {
    Recorded(SnapshotOf(files[path]), ExpectedHash(spec.hashes, path), verified)
  }

  function RecordedFiles(files: Files, spec: Spec, hashes: seq<string>): seq<Recorded>
    requires |hashes| == |spec.paths| && forall i :: 0 <= i < |spec.paths| ==> spec.paths[i] in files
  {
    seq(|spec.paths|, i requires 0 <= i < |spec.paths| => RecordOf(files, spec, spec.paths[i], hashes[i]))
  }

  /** The entries after recording verified details. */
  function Remembered(app: App, files: Files, entries: map<string, Entry>, spec: Spec, details: Details)
    : map<string, Entry>
  {
    if details.installed && |details.hashes| == |spec.paths|
       && (forall i :: 0 <= i < |spec.paths| ==> spec.paths[i] in files)
    then entries[Key(spec) := Entry(DigestOf(app, spec), RecordedFiles(files, spec, details.hashes))]
    else entries
  }

  predicate Accepted(app: App, disk: Persisted) {
    disk.schema == SCHEMA_VERSION && disk.version == app.version && disk.platform == app.platform
  }

  /** The entries that a load finds; anything unusable counts as an empty cache. */
  function Loaded(app: App, disk: Option<Persisted>): map<string, Entry> {
    if disk.Some? && Accepted(app, disk.value) && disk.value.entries.Some? then disk.value.entries.value else map[]
  }

  /** What was saved is loaded, by the same version on the same platform only. */
  lemma LoadedIsExact(app: App, disk: Option<Persisted>)
    ensures Loaded(app, disk) ==
      if disk.Some? && disk.value.schema == 1 && disk.value.version == app.version
         && disk.value.platform == app.platform && disk.value.entries.Some?
      then disk.value.entries.value else map[]
  {
  }

  /** One row: what is reported, and the cache afterwards. */
  datatype Answer = Answer(details: Details, entries: map<string, Entry>, inRun: map<string, Details>)

  function Answered(app: App, hash: Bytes -> string, files: Files, entries: map<string, Entry>,
                    inRun: map<string, Details>, spec: Spec): Answer {
    if spec.assetId in inRun then Answer(inRun[spec.assetId], entries, inRun)
    else
      var found := Found(app, files, entries, spec);
      if found.Some? then Answer(found.value, entries, inRun[spec.assetId := found.value])
      else
        var details := Fresh(hash, files, spec);
        Answer(details, Remembered(app, files, entries, spec, details), inRun[spec.assetId := details])
  }

  class InventoryCache {
    const app: App
    var entries: map<string, Entry>
    var inRun: map<string, Details>

    constructor Load(app: App, disk: Option<Persisted>)
      ensures this.app == app && entries == Loaded(app, disk) && inRun == map[]
    {
      this.app := app;
      entries := if disk.Some? && Accepted(app, disk.value) && disk.value.entries.Some?
                 then disk.value.entries.value else map[];
      inRun := map[];
    }

    method Lookup(files: Files, spec: Spec) returns (found: Option<Details>)
      ensures found == Found(app, files, entries, spec)
    {
      var key := Key(spec);
      if key !in entries {
        return None;
      }
      var entry := entries[key];
      if entry.digest != DigestOf(app, spec) || |entry.files| != |spec.paths| {
        return None;
      }
      var hashes: seq<string> := [];
      for i := 0 to |spec.paths|
        invariant forall j :: 0 <= j < i ==> Matches(files, spec, spec.paths[j], entry.files[j])
        invariant hashes == VerifiedHashes(entry.files)[..i]
      {
        var path, recorded := spec.paths[i], entry.files[i];
        var expected := ExpectedHash(spec.hashes, path);
        if path !in files {
          return None;
        }
        var current := SnapshotOf(files[path]);
        if current.identity == None {
          return None;
        }
        if current.canonicalPath != recorded.snapshot.canonicalPath || expected != recorded.expected
           || current.size != recorded.snapshot.size || current.mtime != recorded.snapshot.mtime
           || current.identity != recorded.snapshot.identity {
          return None;
        }
        if expected != "" && !EqIgnoreCase(recorded.verified, expected) {
          return None;
        }
        hashes := hashes + [recorded.verified];
      }
      assert hashes == VerifiedHashes(entry.files);
      return Some(Details(true, hashes));
    }

    method Record(files: Files, spec: Spec, details: Details)
      modifies this`entries
      ensures entries == Remembered(app, files, old(entries), spec, details)
    {
      if !details.installed || |details.hashes| != |spec.paths| {
        return;
      }
      var recorded: seq<Recorded> := [];
      for i := 0 to |spec.paths|
        invariant |recorded| == i
        invariant forall j :: 0 <= j < i ==>
          spec.paths[j] in files && recorded[j] == RecordOf(files, spec, spec.paths[j], details.hashes[j])
      {
        if spec.paths[i] !in files {
          return;
        }
        recorded := recorded + [RecordOf(files, spec, spec.paths[i], details.hashes[i])];
      }
      assert recorded == RecordedFiles(files, spec, details.hashes);
      entries := entries[Key(spec) := Entry(DigestOf(app, spec), recorded)];
    }

    method Save() returns (disk: Persisted)
      ensures disk == Persisted(1, app.version, app.platform, Some(entries))
    {
      return Persisted(SCHEMA_VERSION, app.version, app.platform, Some(entries));
    }

    method AssetRow(hash: Bytes -> string, files: Files, spec: Spec) returns (details: Details)
      modifies this`entries, this`inRun
      ensures Answer(details, entries, inRun) == Answered(app, hash, files, old(entries), old(inRun), spec)
    {
      if spec.assetId in inRun {
        return inRun[spec.assetId];
      }
      var found := Lookup(files, spec);
      if found.Some? {
        inRun := inRun[spec.assetId := found.value];
        return found.value;
      }
      details := InstalledDetails(hash, files, spec);
      if details.installed {
        Record(files, spec, details);
      }
      inRun := inRun[spec.assetId := details];
    }
  }

  // ---------------------------------------------------------------- genuine entries

  /** A recorded file: its content had the verified hash, which its spec asked for. */
  ghost predicate GenuineFile(world: World, hash: Bytes -> string, digest: Digest, path: string, recorded: Recorded) {
    recorded.snapshot.identity.Some? ==>
      && recorded.verified == hash(world(recorded.snapshot))
      && HashReady(digest.hashes, path, recorded.verified)
  }

  function SpecOf(digest: Digest): Spec {
    Spec(digest.assetId, digest.destination, digest.paths, digest.hashes, digest.size, digest.sha256,
         digest.installedSize)
  }

  /** An entry written after every file of its spec had been hashed and accepted. */
  ghost predicate Genuine(world: World, hash: Bytes -> string, entry: Entry) {
    && |entry.files| == |entry.digest.paths|
    && (forall i :: 0 <= i < |entry.files| ==>
        GenuineFile(world, hash, entry.digest, entry.digest.paths[i], entry.files[i]))
    && (|entry.files| == 1 ==> SizeReady(SpecOf(entry.digest), entry.files[0].snapshot.size))
  }

  ghost predicate AllGenuine(world: World, hash: Bytes -> string, entries: map<string, Entry>) {
    forall k :: k in entries ==> Genuine(world, hash, entries[k])
  }

  /** The files that exist can be read. */
  predicate AllReadable(files: Files, spec: Spec) {
    forall i :: 0 <= i < |spec.paths| && spec.paths[i] in files ==> files[spec.paths[i]].readable
  }

  // ---------------------------------------------------------------- one answer

  /** The stated hash of a path is that of the first pair that names it, if any does. */
  lemma {:induction false} ExpectedHashIsFirst(hashes: seq<(string, string)>, path: string)
    ensures (forall i :: 0 <= i < |hashes| ==> hashes[i].0 != path) ==> ExpectedHash(hashes, path) == ""
    ensures forall i :: 0 <= i < |hashes| && hashes[i].0 == path && (forall j :: 0 <= j < i ==> hashes[j].0 != path) ==>
      ExpectedHash(hashes, path) == hashes[i].1
    decreases |hashes|
  {
    if hashes != [] {
      ExpectedHashIsFirst(hashes[1..], path);
      forall i | 0 < i < |hashes| && hashes[i].0 == path && (forall j :: 0 <= j < i ==> hashes[j].0 != path)
        ensures ExpectedHash(hashes, path) == hashes[i].1
      {
        assert hashes[1..][i - 1] == hashes[i];
        assert forall j :: 0 <= j < i - 1 ==> hashes[1..][j] == hashes[j + 1];
        assert hashes[0].0 != path;
      }
    }
  }

  /** The file can be read and has the hash stated for it, if one is. */
  predicate FileReady(hash: Bytes -> string, files: Files, spec: Spec, path: string) {
    && path in files && files[path].readable
    && (|ExpectedHash(spec.hashes, path)| > 0 ==>
        EqIgnoreCase(hash(files[path].content), ExpectedHash(spec.hashes, path)))
  }

  predicate SizeFits(spec: Spec, size: nat) {
    |spec.hashes| > 0 ==>
      if spec.installedSize.Some? then size == spec.installedSize.value else spec.size > 0 ==> size == spec.size
  }

  /** An asset is installed exactly when every file is ready and, for one single file with
      stated hashes, its size is the installed size, or without one the stated size if there
      is one; all hashes are then reported. */
  lemma FreshWhenReady(hash: Bytes -> string, files: Files, spec: Spec)
    ensures var details, paths := Fresh(hash, files, spec), spec.paths;
      var ready := forall i :: 0 <= i < |paths| ==> FileReady(hash, files, spec, paths[i]);
      && (details.installed <==> ready && (|paths| == 1 ==> SizeFits(spec, |files[paths[0]].content|)))
      && (ready ==> details.hashes == Hashes(hash, files, paths))
  {
  }

  /** Otherwise the hashes are those up to the first file that is not ready, with that file's
      if it could be read. */
  lemma FreshUntilFailure(hash: Bytes -> string, files: Files, spec: Spec, n: nat)
    requires n < |spec.paths| && !FileReady(hash, files, spec, spec.paths[n])
    requires var good := spec.paths[..n]; forall i :: 0 <= i < |good| ==> FileReady(hash, files, spec, good[i])
    ensures var bad, good := spec.paths[n], spec.paths[..n];
      Fresh(hash, files, spec) == Details(false, Hashes(hash, files, good) +
        if bad in files && files[bad].readable then [hash(files[bad].content)] else [])
  {
    forall i | 0 <= i < n ensures PathReady(hash, files, spec, spec.paths[i]) {
      assert FileReady(hash, files, spec, spec.paths[..n][i]);
    }
    assert ReadyPrefix(hash, files, spec, 0) == n;
  }

  /** A cached answer is what hashing every file would give, exactly when the files can
      still be read; the snapshots do not tell that. */
  lemma FoundIsFresh(app: App, world: World, hash: Bytes -> string, files: Files, entries: map<string, Entry>,
                     spec: Spec)
    requires Consistent(world, files) && AllGenuine(world, hash, entries)
    requires Found(app, files, entries, spec).Some?
    ensures Found(app, files, entries, spec) == Some(Fresh(hash, files, spec)) <==> AllReadable(files, spec)
  {
    var entry := entries[Key(spec)];
    FreshWhenReady(hash, files, spec);
    assert SpecOf(entry.digest) == spec;
    forall i | 0 <= i < |spec.paths|
      ensures spec.paths[i] in files && entry.files[i].verified == hash(files[spec.paths[i]].content)
      ensures HashReady(spec.hashes, spec.paths[i], entry.files[i].verified)
      ensures entry.files[i].snapshot.size == |files[spec.paths[i]].content|
    {
      assert Matches(files, spec, spec.paths[i], entry.files[i]);
      assert GenuineFile(world, hash, entry.digest, entry.digest.paths[i], entry.files[i]);
    }
    if AllReadable(files, spec) {
      assert VerifiedHashes(entry.files) == Hashes(hash, files, spec.paths);
    }
  }

  /** Recording fresh details keeps every entry genuine. */
  lemma RememberedIsGenuine(app: App, world: World, hash: Bytes -> string, files: Files, entries: map<string, Entry>,
                            spec: Spec)
    requires Consistent(world, files) && AllGenuine(world, hash, entries)
    ensures AllGenuine(world, hash, Remembered(app, files, entries, spec, Fresh(hash, files, spec)))
  {
    var details := Fresh(hash, files, spec);
    FreshWhenReady(hash, files, spec);
    if details.installed {
      var entry := Entry(DigestOf(app, spec), RecordedFiles(files, spec, details.hashes));
      forall i | 0 <= i < |entry.files|
        ensures GenuineFile(world, hash, entry.digest, entry.digest.paths[i], entry.files[i])
      {
        assert PathReady(hash, files, spec, spec.paths[i]);
      }
      assert SpecOf(entry.digest) == spec;
    }
  }

  // ---------------------------------------------------------------- one inventory

  /** The rows of one inventory, in order, and the entries it ends with. */
  function Rows(app: App, hash: Bytes -> string, files: Files, entries: map<string, Entry>,
                inRun: map<string, Details>, specs: seq<Spec>): (seq<Details>, map<string, Entry>)
    decreases |specs|
  {
    if specs == [] then ([], entries)
    else
      var answer := Answered(app, hash, files, entries, inRun, specs[0]);
      var rest := Rows(app, hash, files, answer.entries, answer.inRun, specs[1..]);
      ([answer.details] + rest.0, rest.1)
  }

  /** The first spec with the asset id of spec `j`. */
  function First(specs: seq<Spec>, j: nat): (i: nat)
    requires j < |specs|
    ensures i <= j && specs[i].assetId == specs[j].assetId
    ensures forall k :: 0 <= k < i ==> specs[k].assetId != specs[j].assetId
  {
    if specs[0].assetId == specs[j].assetId then 0 else 1 + First(specs[1..], j - 1)
  }

  lemma AnswerIsFresh(app: App, world: World, hash: Bytes -> string, files: Files, entries: map<string, Entry>,
                      inRun: map<string, Details>, spec: Spec)
    requires Consistent(world, files) && AllGenuine(world, hash, entries) && AllReadable(files, spec)
    ensures var answer := Answered(app, hash, files, entries, inRun, spec);
      && AllGenuine(world, hash, answer.entries)
      && answer.details == (if spec.assetId in inRun then inRun[spec.assetId] else Fresh(hash, files, spec))
      && answer.inRun == inRun[spec.assetId := answer.details]
  {
    RememberedIsGenuine(app, world, hash, files, entries, spec);
    if Found(app, files, entries, spec).Some? {
      FoundIsFresh(app, world, hash, files, entries, spec);
    }
  }

  /** The rows of a run that rehashes the files of each asset id once. */
  function Rehashed(hash: Bytes -> string, files: Files, inRun: map<string, Details>,
                    specs: seq<Spec>): (rows: seq<Details>)
    ensures |rows| == |specs|
    decreases |specs|
  {
    if specs == [] then []
    else
      var id := specs[0].assetId;
      var details := if id in inRun then inRun[id] else Fresh(hash, files, specs[0]);
      [details] + Rehashed(hash, files, inRun[id := details], specs[1..])
  }

  /** Whatever a run finds, the entries it leaves are genuine. */
  lemma {:induction false} RowsStayGenuine(app: App, world: World, hash: Bytes -> string, files: Files,
                                           entries: map<string, Entry>, inRun: map<string, Details>, specs: seq<Spec>)
    requires Consistent(world, files) && AllGenuine(world, hash, entries)
    ensures AllGenuine(world, hash, Rows(app, hash, files, entries, inRun, specs).1)
    decreases |specs|
  {
    if specs != [] {
      var answer := Answered(app, hash, files, entries, inRun, specs[0]);
      RememberedIsGenuine(app, world, hash, files, entries, specs[0]);
      RowsStayGenuine(app, world, hash, files, answer.entries, answer.inRun, specs[1..]);
    }
  }

  /** The persisted entries make no difference to the rows. */
  lemma {:induction false} RowsAreRehashed(app: App, world: World, hash: Bytes -> string, files: Files,
                                           entries: map<string, Entry>, inRun: map<string, Details>, specs: seq<Spec>)
    requires Consistent(world, files) && AllGenuine(world, hash, entries)
    requires forall j :: 0 <= j < |specs| ==> AllReadable(files, specs[j])
    ensures Rows(app, hash, files, entries, inRun, specs).0 == Rehashed(hash, files, inRun, specs)
    decreases |specs|
  {
    if specs != [] {
      var answer := Answered(app, hash, files, entries, inRun, specs[0]);
      AnswerIsFresh(app, world, hash, files, entries, inRun, specs[0]);
      RowsAreRehashed(app, world, hash, files, answer.entries, answer.inRun, specs[1..]);
    }
  }

  /** Row `j` is the fresh result of the first spec with its asset id, or what was already
      answered for that id. */
  lemma {:induction false} RehashedAt(hash: Bytes -> string, files: Files, inRun: map<string, Details>,
                                      specs: seq<Spec>, j: nat)
    requires j < |specs|
    ensures Rehashed(hash, files, inRun, specs)[j] ==
      if specs[j].assetId in inRun then inRun[specs[j].assetId] else Fresh(hash, files, specs[First(specs, j)])
    decreases |specs|
  {
    if j > 0 {
      var id := specs[0].assetId;
      var details := if id in inRun then inRun[id] else Fresh(hash, files, specs[0]);
      RehashedAt(hash, files, inRun[id := details], specs[1..], j - 1);
    }
  }

  method Inventory(app: App, hash: Bytes -> string, files: Files, disk: Option<Persisted>, specs: seq<Spec>)
    returns (rows: seq<Details>, saved: Persisted)
    ensures var (expected, after) := Rows(app, hash, files, Loaded(app, disk), map[], specs);
      rows == expected && saved == Persisted(1, app.version, app.platform, Some(after))
  {
    var cache := new InventoryCache.Load(app, disk);
    rows := [];
    ghost var whole := Rows(app, hash, files, cache.entries, cache.inRun, specs);
    for i := 0 to |specs|
      invariant cache.app == app
      invariant var rest := Rows(app, hash, files, cache.entries, cache.inRun, specs[i..]);
        rows + rest.0 == whole.0 && rest.1 == whole.1
    {
      assert specs[i..][0] == specs[i] && specs[i..][1..] == specs[i + 1..];
      var row := cache.AssetRow(hash, files, specs[i]);
      assert rows + ([row] + Rows(app, hash, files, cache.entries, cache.inRun, specs[i + 1..]).0) ==
             rows + [row] + Rows(app, hash, files, cache.entries, cache.inRun, specs[i + 1..]).0;
      rows := rows + [row];
    }
    assert rows + [] == rows;
    saved := cache.Save();
  }

  // ---------------------------------------------------------------- histories

  /** Files change, an inventory runs and may fail to save, or the cache file is damaged or
      written by another version of the application. */
  datatype Event =
    | Changed(files: Files)
    | Inventoried(specs: seq<Spec>, saved: bool)
    | Overwritten(disk: Option<Persisted>)

  datatype State = State(files: Files, disk: Option<Persisted>)

  function Next(app: App, hash: Bytes -> string, s: State, event: Event): State {
    match event
    case Changed(files) => s.(files := files)
    case Overwritten(disk) => s.(disk := disk)
    case Inventoried(specs, saved) =>
      var after := Rows(app, hash, s.files, Loaded(app, s.disk), map[], specs).1;
      if saved then s.(disk := Some(Persisted(SCHEMA_VERSION, app.version, app.platform, Some(after)))) else s
  }

  function History(app: App, hash: Bytes -> string, s: State, events: seq<Event>): State
    decreases |events|
  {
    if events == [] then s else History(app, hash, Next(app, hash, s, events[0]), events[1..])
  }

  /** Snapshots keep their meaning, and nobody else writes a cache file in this version's name. */
  ghost predicate Possible(app: App, world: World, event: Event) {
    match event
    case Changed(files) => Consistent(world, files)
    case Overwritten(disk) => disk.Some? ==> !Accepted(app, disk.value)
    case Inventoried(_, _) => true
  }

  ghost predicate PossibleHistory(app: App, world: World, hash: Bytes -> string, s: State, events: seq<Event>)
    decreases |events|
  {
    events != [] ==>
      Possible(app, world, events[0]) && PossibleHistory(app, world, hash, Next(app, hash, s, events[0]), events[1..])
  }

  ghost predicate Sound(app: App, world: World, hash: Bytes -> string, s: State) {
    Consistent(world, s.files) && AllGenuine(world, hash, Loaded(app, s.disk))
  }

  lemma {:induction false} HistoryIsSound(app: App, world: World, hash: Bytes -> string, s: State, events: seq<Event>)
    requires Sound(app, world, hash, s) && PossibleHistory(app, world, hash, s, events)
    ensures Sound(app, world, hash, History(app, hash, s, events))
    decreases |events|
  {
    if events != [] {
      if events[0].Inventoried? {
        RowsStayGenuine(app, world, hash, s.files, Loaded(app, s.disk), map[], events[0].specs);
      }
      HistoryIsSound(app, world, hash, Next(app, hash, s, events[0]), events[1..]);
    }
  }

  predicate DistinctIds(specs: seq<Spec>) {
    forall i, j :: 0 <= i < j < |specs| ==> specs[i].assetId != specs[j].assetId
  }

  ghost function FreshRows(hash: Bytes -> string, files: Files, specs: seq<Spec>): seq<Details> {
    seq(|specs|, j requires 0 <= j < |specs| => Fresh(hash, files, specs[j]))
  }

  /** From an empty cache, after any history, an inventory reports what rehashing every
      file would report, exactly when specs that share an id agree. */
  lemma InventoryIsFresh(app: App, world: World, hash: Bytes -> string, files: Files, events: seq<Event>,
                         specs: seq<Spec>)
    requires Consistent(world, files) && PossibleHistory(app, world, hash, State(files, None), events)
    requires var s := History(app, hash, State(files, None), events);
      forall j :: 0 <= j < |specs| ==> AllReadable(s.files, specs[j])
    ensures var s := History(app, hash, State(files, None), events);
      var rows := Rows(app, hash, s.files, Loaded(app, s.disk), map[], specs).0;
      && (rows == FreshRows(hash, s.files, specs) <==>
          forall j :: 0 <= j < |specs| ==>
            Fresh(hash, s.files, specs[First(specs, j)]) == Fresh(hash, s.files, specs[j]))
      && (DistinctIds(specs) ==> rows == FreshRows(hash, s.files, specs))
  {
    HistoryIsSound(app, world, hash, State(files, None), events);
    var s := History(app, hash, State(files, None), events);
    RowsAreRehashed(app, world, hash, s.files, Loaded(app, s.disk), map[], specs);
    RehashedIsFresh(hash, s.files, specs);
  }

  lemma RehashedIsFresh(hash: Bytes -> string, files: Files, specs: seq<Spec>)
    ensures Rehashed(hash, files, map[], specs) == FreshRows(hash, files, specs) <==>
      forall j :: 0 <= j < |specs| ==> Fresh(hash, files, specs[First(specs, j)]) == Fresh(hash, files, specs[j])
    ensures DistinctIds(specs) ==> Rehashed(hash, files, map[], specs) == FreshRows(hash, files, specs)
  {
    var rows, rehashed := Rehashed(hash, files, map[], specs), FreshRows(hash, files, specs);
    forall j | 0 <= j < |specs| ensures rows[j] == Fresh(hash, files, specs[First(specs, j)]) {
      RehashedAt(hash, files, map[], specs, j);
    }
    if DistinctIds(specs) {
      assert forall j :: 0 <= j < |specs| ==> First(specs, j) == j;
    }
    if rows == rehashed {
      forall j | 0 <= j < |specs| ensures Fresh(hash, files, specs[First(specs, j)]) == Fresh(hash, files, specs[j]) {
        assert rows[j] == rehashed[j];
      }
    } else {
      var j :| 0 <= j < |specs| && rows[j] != rehashed[j];
      assert Fresh(hash, files, specs[First(specs, j)]) != Fresh(hash, files, specs[j]);
    }
  }

  /** Two specs with one id: the second row repeats the first, though its file is missing. */
  lemma SharedIdHidesMissingFile(app: App, hash: Bytes -> string)
    ensures var one := Spec("model", "a", ["a"], [], 0, "", None);
      var two := Spec("model", "b", ["b"], [], 0, "", None);
      var files: Files := map["a" := FileState("/a", Some(1), Some(1), [], true)];
      var rows := Rows(app, hash, files, map[], map[], [one, two]).0;
      && |rows| == 2 && rows[1] == Details(true, [hash([])])
      && Fresh(hash, files, two) == Details(false, [])
  {
    var one := Spec("model", "a", ["a"], [], 0, "", None);
    var two := Spec("model", "b", ["b"], [], 0, "", None);
    var files: Files := map["a" := FileState("/a", Some(1), Some(1), [], true)];
    FreshWhenReady(hash, files, one);
    assert PathReady(hash, files, one, "a");
    assert Hashes(hash, files, one.paths) == [hash([])];
    RowsAreRehashed(app, (s: Snapshot) => [], hash, files, map[], map[], [one, two]);
    RehashedAt(hash, files, map[], [one, two], 1);
    assert First([one, two], 1) == 0;
    assert Hashes(hash, files, two.paths[..0]) + [] == [];
  }

  // ---------------------------------------------------------------- when the cache answers

  predicate OneOfKey(a: Spec, b: Spec) {
    a.assetId + "|" + a.destination == b.assetId + "|" + b.destination ==> a == b
  }

  /** Every file of the spec has an identity by which it can be recognized. */
  predicate Recognizable(files: Files, spec: Spec) {
    forall i :: 0 <= i < |spec.paths| && spec.paths[i] in files ==> files[spec.paths[i]].identity.Some?
  }

  lemma RecordedIsFound(app: App, hash: Bytes -> string, files: Files, entries: map<string, Entry>, spec: Spec)
    requires Fresh(hash, files, spec).installed && Recognizable(files, spec)
    ensures Found(app, files, Remembered(app, files, entries, spec, Fresh(hash, files, spec)), spec)
         == Some(Fresh(hash, files, spec))
  {
    var details := Fresh(hash, files, spec);
    FreshWhenReady(hash, files, spec);
    assert forall i :: 0 <= i < |spec.paths| ==> FileReady(hash, files, spec, spec.paths[i]);
    var entry := Entry(DigestOf(app, spec), RecordedFiles(files, spec, details.hashes));
    forall i | 0 <= i < |spec.paths| ensures Matches(files, spec, spec.paths[i], entry.files[i]) {
      assert FileReady(hash, files, spec, spec.paths[i]);
    }
    assert VerifiedHashes(entry.files) == details.hashes;
  }

  /** Other specs, and the same one again, leave what answers for the spec as it is. */
  lemma {:induction false} RowsKeepAnswer(app: App, hash: Bytes -> string, files: Files, entries: map<string, Entry>,
                                          inRun: map<string, Details>, specs: seq<Spec>, spec: Spec)
    requires Found(app, files, entries, spec).Some? && forall j :: 0 <= j < |specs| ==> OneOfKey(specs[j], spec)
    ensures Found(app, files, Rows(app, hash, files, entries, inRun, specs).1, spec)
         == Found(app, files, entries, spec)
    decreases |specs|
  {
    if specs != [] {
      var answer := Answered(app, hash, files, entries, inRun, specs[0]);
      assert OneOfKey(specs[0], spec);
      assert Found(app, files, answer.entries, spec) == Found(app, files, entries, spec);
      forall j | 0 <= j < |specs[1..]| ensures OneOfKey(specs[1..][j], spec) {
        assert OneOfKey(specs[j + 1], spec);
      }
      RowsKeepAnswer(app, hash, files, answer.entries, answer.inRun, specs[1..], spec);
    }
  }

  lemma {:induction false} RowsAnswerLater(app: App, hash: Bytes -> string, files: Files, entries: map<string, Entry>,
                                           inRun: map<string, Details>, specs: seq<Spec>, i: nat)
    requires i < |specs| && Fresh(hash, files, specs[i]).installed && Recognizable(files, specs[i])
    requires specs[i].assetId !in inRun && forall j :: 0 <= j < i ==> specs[j].assetId != specs[i].assetId
    requires forall j :: 0 <= j < |specs| ==> OneOfKey(specs[j], specs[i])
    ensures Found(app, files, Rows(app, hash, files, entries, inRun, specs).1, specs[i]).Some?
    decreases |specs|
  {
    var answer := Answered(app, hash, files, entries, inRun, specs[0]);
    forall j | 0 <= j < |specs[1..]| ensures OneOfKey(specs[1..][j], specs[i]) {
      assert OneOfKey(specs[j + 1], specs[i]);
    }
    if i == 0 {
      if Found(app, files, entries, specs[0]).None? {
        RecordedIsFound(app, hash, files, entries, specs[0]);
      }
      RowsKeepAnswer(app, hash, files, answer.entries, answer.inRun, specs[1..], specs[0]);
    } else {
      assert specs[0].assetId != specs[i].assetId;
      forall j | 0 <= j < i - 1 ensures specs[1..][j].assetId != specs[1..][i - 1].assetId {
        assert specs[j + 1].assetId != specs[i].assetId;
      }
      RowsAnswerLater(app, hash, files, answer.entries, answer.inRun, specs[1..], i - 1);
    }
  }

  /** What the cache is for: an inventory that was saved lets the next one of this version
      answer without hashing for every installed asset whose files can be recognized. */
  lemma SecondInventoryIsCached(app: App, hash: Bytes -> string, s: State, specs: seq<Spec>, i: nat)
    requires i < |specs| && Fresh(hash, s.files, specs[i]).installed && Recognizable(s.files, specs[i])
    requires forall j :: 0 <= j < i ==> specs[j].assetId != specs[i].assetId
    requires forall j :: 0 <= j < |specs| ==> OneOfKey(specs[j], specs[i])
    ensures var s' := Next(app, hash, s, Inventoried(specs, true));
      s'.files == s.files && Found(app, s'.files, Loaded(app, s'.disk), specs[i]).Some?
  {
    RowsAnswerLater(app, hash, s.files, Loaded(app, s.disk), map[], specs, i);
  }

  /** A recorded file that can no longer be opened is still reported as installed. */
  lemma UnreadableFileIsStillFound(app: App, hash: Bytes -> string)
    ensures var spec := Spec("model", "a", ["a"], [], 0, "", None);
      var readable: Files := map["a" := FileState("/a", Some(1), Some(1), [], true)];
      var unreadable: Files := map["a" := FileState("/a", Some(1), Some(1), [], false)];
      var s := Next(app, hash, State(readable, None), Inventoried([spec], true));
      && Rows(app, hash, unreadable, Loaded(app, s.disk), map[], [spec]).0 == [Details(true, [hash([])])]
      && !Fresh(hash, unreadable, spec).installed
  {
    var spec := Spec("model", "a", ["a"], [], 0, "", None);
    var readable: Files := map["a" := FileState("/a", Some(1), Some(1), [], true)];
    var unreadable: Files := map["a" := FileState("/a", Some(1), Some(1), [], false)];
    FreshWhenReady(hash, readable, spec);
    assert FileReady(hash, readable, spec, "a");
    var details := Fresh(hash, readable, spec);
    assert Hashes(hash, readable, spec.paths) == [hash([])];
    var entries := Remembered(app, readable, map[], spec, details);
    assert [spec][1..] == [];
    assert Rows(app, hash, readable, map[], map[], [spec]).1 == entries;
    assert Matches(unreadable, spec, "a", entries[Key(spec)].files[0]);
    assert VerifiedHashes(entries[Key(spec)].files) == [hash([])];
    assert Answered(app, hash, unreadable, entries, map[], spec).details == Details(true, [hash([])]);
  }
}
