/** The pipeline's own inventory, with and without its persisted cache, and the consent
    that each row reports (pipeline/clipgauge_pipeline/downloads.py). */
module PipelineInventory {
  import opened FileWorld
  import Sequences
  import opened Text
  import opened Wrappers

  /** A managed asset; `destination` is its resolved path. */
  datatype Asset = Asset(assetId: string, destination: string, sha256: string, size: int,
                         platform: string, revision: string, group: string)

  /** The digest of an asset's cached fields, which determines them. */
  datatype Digest = Digest(assetId: string, destination: string, sha256: string, size: int, platform: string,
                           revision: string)

  datatype Entry = Entry(snapshot: Snapshot, expected: string, verified: string, digest: Digest, platform: string)

  datatype Consent = Consent(assetIds: set<string>, budget: int)

  datatype Row = Row(installed: bool, cached: bool, digest: Option<string>, verification: string,
                     status: string, consentGranted: bool)

  /** A parsed cache file. */
  datatype Persisted = Persisted(schema: int, version: string, entries: map<string, Entry>)

  datatype App = App(version: string, platform: string)

  const SCHEMA_VERSION := 1

  // ---------------------------------------------------------------- rehashing

  /** The bytes are those that the asset describes. */
  predicate IsAsset(hash: Bytes -> string, content: Bytes, asset: Asset) {
    (asset.size <= 0 || |content| == asset.size) && EqIgnoreCase(hash(content), asset.sha256)
  }

  function AssetReady(hash: Bytes -> string, files: Files, asset: Asset): (bool, Option<string>) {
    if asset.destination !in files || !files[asset.destination].readable then (false, None)
    else
      var content := files[asset.destination].content;
      (IsAsset(hash, content, asset), Some(hash(content)))
  }

  /** The bytes to download for the assets that are not known to be installed. */
  function RequestedBytes(hash: Bytes -> string, files: Files, assets: seq<Asset>, verified: set<string>): int {
    if assets == [] then 0
    else
      (if assets[0].assetId !in verified && !AssetReady(hash, files, assets[0]).0 then assets[0].size else 0)
      + RequestedBytes(hash, files, assets[1..], verified)
  }

  function HasConsent(hash: Bytes -> string, files: Files, consents: map<string, Consent>, group: string,
                      assets: seq<Asset>, verified: set<string>): bool {
    group in consents
    && (forall i :: 0 <= i < |assets| ==> assets[i].assetId in consents[group].assetIds)
    && RequestedBytes(hash, files, assets, verified) <= consents[group].budget
  }

  /** Consent to download the assets, within the budget if one is given. */
  function Granted(hash: Bytes -> string, files: Files, assets: seq<Asset>, budget: Option<int>): Option<Consent> {
    var total := RequestedBytes(hash, files, assets, {});
    if budget.Some? && total > budget.value then None
    else Some(Consent(set i | 0 <= i < |assets| :: assets[i].assetId, if budget.Some? then budget.value else total))
  }

  function PersistedStatus(states: map<string, string>, asset: Asset): string {
    if asset.assetId in states then states[asset.assetId] else "not-installed"
  }

  /** Without verification the persisted status is believed. */
  function Believed(files: Files, states: map<string, string>, asset: Asset): bool {
    && asset.destination in files
    && asset.assetId in states && Lower(states[asset.assetId]) in {"installed", "reused", "ready"}
  }

  function MakeRow(files: Files, states: map<string, string>, asset: Asset, installed: bool, digest: Option<string>,
                   verification: string, consent: bool): Row {
    var status := if asset.destination in files && !installed && digest.Some? && digest.value != "" then "needs-repair"
                  else if installed then "ready"
                  else PersistedStatus(states, asset);
    Row(installed, installed || status in {"ready", "reused", "installed"}, digest, verification, status, consent)
  }

  function BelievedDigest(asset: Asset, installed: bool): Option<string> {
    if installed && asset.sha256 != "" then Some(asset.sha256) else None
  }

  /** One row of `inventory`. */
  function PlainRow(hash: Bytes -> string, files: Files, states: map<string, string>, consents: map<string, Consent>,
                    asset: Asset, verify: bool): Row {
    var consent := HasConsent(hash, files, consents, asset.group, [asset], {});
    if verify then
      var (installed, digest) := AssetReady(hash, files, asset);
      MakeRow(files, states, asset, installed, digest, "fresh-hash", consent)
    else
      var installed := Believed(files, states, asset);
      MakeRow(files, states, asset, installed, BelievedDigest(asset, installed),
              if installed then "persisted-state" else "not-verified", consent)
  }

  // ---------------------------------------------------------------- the cache

  function Key(asset: Asset): string {
    asset.assetId + "|" + asset.destination
  }

  function DigestOf(asset: Asset): Digest {
    Digest(asset.assetId, asset.destination, asset.sha256, asset.size, asset.platform, asset.revision)
  }

  predicate Hit(app: App, files: Files, asset: Asset, entry: Entry) {
    && asset.destination in files
    && files[asset.destination].identity.Some?
    && entry.snapshot == SnapshotOf(files[asset.destination])
    && EqIgnoreCase(entry.expected, asset.sha256) && EqIgnoreCase(entry.verified, asset.sha256)
    && entry.digest == DigestOf(asset) && entry.platform == app.platform
  }

  function Lookup(app: App, files: Files, entries: map<string, Entry>, asset: Asset): Option<string> {
    if Key(asset) in entries && Hit(app, files, asset, entries[Key(asset)]) then Some(entries[Key(asset)].verified)
    else None
  }

  function Remembered(app: App, files: Files, entries: map<string, Entry>, asset: Asset, verified: string)
    : map<string, Entry>
  {
    if asset.destination !in files then entries
    else
      var snapshot := SnapshotOf(files[asset.destination]);
      entries[Key(asset) := Entry(snapshot, asset.sha256, verified, DigestOf(asset), app.platform)]
  }

  function Loaded(app: App, disk: Option<Persisted>): map<string, Entry> {
    if disk.Some? && disk.value.schema == SCHEMA_VERSION && disk.value.version == app.version then disk.value.entries
    else map[]
  }

  /** One row of `inventory_cached`, and the entries after it. */
  function CachedRow(app: App, hash: Bytes -> string, files: Files, states: map<string, string>,
                     consents: map<string, Consent>,
                     entries: map<string, Entry>, asset: Asset, verify: bool): (Row, map<string, Entry>) {
    var found := if verify then Lookup(app, files, entries, asset) else None;
    var rehashed := AssetReady(hash, files, asset);
    var installed := if found.Some? then true else if verify then rehashed.0 else Believed(files, states, asset);
    var digest := if found.Some? then found else if verify then rehashed.1 else BelievedDigest(asset, installed);
    var verification := if found.Some? then "cached-hash" else if verify then "fresh-hash"
                        else if installed then "persisted-state" else "not-verified";
    var consent := HasConsent(hash, files, consents, asset.group, [asset], if installed then {asset.assetId} else {});
    (MakeRow(files, states, asset, installed, digest, verification, consent),
     if verify && found.None? && installed && digest.Some? && digest.value != ""
     then Remembered(app, files, entries, asset, digest.value) else entries)
  }

  function CachedRows(app: App, hash: Bytes -> string, files: Files, states: map<string, string>,
                      consents: map<string, Consent>,
                      entries: map<string, Entry>, assets: seq<Asset>, verify: bool): (seq<Row>, map<string, Entry>)
    decreases |assets|
  {
    if assets == [] then ([], entries)
    else
      var (row, next) := CachedRow(app, hash, files, states, consents, entries, assets[0], verify);
      var rest := CachedRows(app, hash, files, states, consents, next, assets[1..], verify);
      ([row] + rest.0, rest.1)
  }

  // ---------------------------------------------------------------- the code

  class DownloadManager {
    const app: App
    var states: map<string, string>
    var consents: map<string, Consent>
    var entries: map<string, Entry>

    constructor (app: App, states: map<string, string>, consents: map<string, Consent>, disk: Option<Persisted>)
      ensures this.app == app && this.states == states && this.consents == consents && entries == Loaded(app, disk)
      ensures entries ==
        if disk.Some? && disk.value.schema == 1 && disk.value.version == app.version then disk.value.entries else map[]
    {
      this.app, this.states, this.consents := app, states, consents;
      entries := if disk.Some? && disk.value.schema == SCHEMA_VERSION && disk.value.version == app.version
                 then disk.value.entries else map[];
    }

    method Consented(hash: Bytes -> string, files: Files, group: string, assets: seq<Asset>, verified: set<string>)
      returns (granted: bool)
      ensures granted == HasConsent(hash, files, consents, group, assets, verified)
    {
      if group !in consents {
        return false;
      }
      for i := 0 to |assets|
        invariant forall j :: 0 <= j < i ==> assets[j].assetId in consents[group].assetIds
      {
        if assets[i].assetId !in consents[group].assetIds {
          return false;
        }
      }
      var requested := 0;
      for i := 0 to |assets|
        invariant requested + RequestedBytes(hash, files, assets[i..], verified)
               == RequestedBytes(hash, files, assets, verified)
      {
        assert assets[i..][0] == assets[i] && assets[i..][1..] == assets[i + 1..];
        if assets[i].assetId !in verified && !AssetReady(hash, files, assets[i]).0 {
          requested := requested + assets[i].size;
        }
      }
      return requested <= consents[group].budget;
    }

    /** False when the assets exceed the budget. */
    method GrantConsent(hash: Bytes -> string, files: Files, group: string, assets: seq<Asset>, budget: Option<int>)
      returns (ok: bool)
      modifies this`consents
      ensures var granted := Granted(hash, files, assets, budget);
        ok == granted.Some? && consents == if ok then old(consents)[group := granted.value] else old(consents)
      ensures ok ==> HasConsent(hash, files, consents, group, assets, {})
    {
      var ids, total := {}, 0;
      for i := 0 to |assets|
        invariant ids == set j | 0 <= j < i :: assets[j].assetId
        invariant total + RequestedBytes(hash, files, assets[i..], {}) == RequestedBytes(hash, files, assets, {})
      {
        assert assets[i..][0] == assets[i] && assets[i..][1..] == assets[i + 1..];
        ids := ids + {assets[i].assetId};
        if !AssetReady(hash, files, assets[i]).0 {
          total := total + assets[i].size;
        }
      }
      if budget.Some? && total > budget.value {
        return false;
      }
      consents := consents[group := Consent(ids, if budget.Some? then budget.value else total)];
      return true;
    }

    method InventoryCached(hash: Bytes -> string, files: Files, assets: seq<Asset>,
                           verify: bool) returns (rows: seq<Row>)
      modifies this`entries
      ensures (rows, entries) == CachedRows(app, hash, files, states, consents, old(entries), assets, verify)
    {
      rows := [];
      ghost var whole := CachedRows(app, hash, files, states, consents, entries, assets, verify);
      assert [] + whole.0 == whole.0 && assets[0..] == assets;
      for i := 0 to |assets|
        invariant whole == Onwards(rows, CachedRows(app, hash, files, states, consents, entries, assets[i..], verify))
      {
        assert assets[i..][0] == assets[i] && assets[i..][1..] == assets[i + 1..];
        NextRow(rows, app, hash, files, states, consents, entries, assets[i..], verify);
        ghost var expected := CachedRow(app, hash, files, states, consents, entries, assets[i], verify);
        var row := OneRow(hash, files, assets[i], verify);
        assert (row, entries) == expected;
        rows := rows + [row];
      }
      assert assets[|assets|..] == [] && rows + [] == rows;
    }

    method OneRow(hash: Bytes -> string, files: Files, asset: Asset, verify: bool) returns (row: Row)
      modifies this`entries
      ensures (row, entries) == CachedRow(app, hash, files, states, consents, old(entries), asset, verify)
    {
      var installed, digest, verification;
      var found := if verify then Lookup(app, files, entries, asset) else None;
      if found.Some? {
        installed, digest, verification := true, found, "cached-hash";
      } else if verify {
        var ready := AssetReady(hash, files, asset);
        installed, digest, verification := ready.0, ready.1, "fresh-hash";
        if installed && digest.Some? && digest.value != "" {
          entries := Remembered(app, files, entries, asset, digest.value);
        }
      } else {
        installed := Believed(files, states, asset);
        digest := BelievedDigest(asset, installed);
        verification := if installed then "persisted-state" else "not-verified";
      }
      var consent := Consented(hash, files, asset.group, [asset], if installed then {asset.assetId} else {});
      row := MakeRow(files, states, asset, installed, digest, verification, consent);
    }

    method Inventory(hash: Bytes -> string, files: Files, assets: seq<Asset>, verify: bool) returns (rows: seq<Row>)
      ensures |rows| == |assets|
      ensures forall i :: 0 <= i < |assets| ==> rows[i] == PlainRow(hash, files, states, consents, assets[i], verify)
    {
      rows := [];
      for i := 0 to |assets|
        invariant |rows| == i
        invariant forall j :: 0 <= j < i ==> rows[j] == PlainRow(hash, files, states, consents, assets[j], verify)
      {
        var asset := assets[i];
        var installed, digest, verification;
        if verify {
          var ready := AssetReady(hash, files, asset);
          installed, digest, verification := ready.0, ready.1, "fresh-hash";
        } else {
          installed := Believed(files, states, asset);
          digest := BelievedDigest(asset, installed);
          verification := if installed then "persisted-state" else "not-verified";
        }
        var consent := Consented(hash, files, asset.group, [asset], {});
        rows := rows + [MakeRow(files, states, asset, installed, digest, verification, consent)];
      }
    }
  }

  /** Rows already made, and what the rest of the assets will add. */
  function Onwards(rows: seq<Row>, rest: (seq<Row>, map<string, Entry>)): (seq<Row>, map<string, Entry>) {
    (rows + rest.0, rest.1)
  }

  lemma NextRow(rows: seq<Row>, app: App, hash: Bytes -> string, files: Files, states: map<string, string>,
                consents: map<string, Consent>, entries: map<string, Entry>, assets: seq<Asset>, verify: bool)
    requires assets != []
    ensures var (row, next) := CachedRow(app, hash, files, states, consents, entries, assets[0], verify);
      Onwards(rows, CachedRows(app, hash, files, states, consents, entries, assets, verify)) ==
      Onwards(rows + [row], CachedRows(app, hash, files, states, consents, next, assets[1..], verify))
  {
    var (row, next) := CachedRow(app, hash, files, states, consents, entries, assets[0], verify);
    Sequences.Regroup(rows, row, CachedRows(app, hash, files, states, consents, next, assets[1..], verify).0);
  }

  // ---------------------------------------------------------------- what a row means

  /** The file of the asset can be read. */
  predicate CanRead(files: Files, asset: Asset) {
    asset.destination in files && files[asset.destination].readable
  }

  /** It can, and is the asset: of its size, if that is stated, and of its hash. */
  predicate IsReady(hash: Bytes -> string, files: Files, asset: Asset) {
    && CanRead(files, asset)
    && (asset.size > 0 ==> |files[asset.destination].content| == asset.size)
    && EqIgnoreCase(hash(files[asset.destination].content), asset.sha256)
  }

  /** Status and cached flag, given whether the asset is installed and whether a broken copy
      of it was found. */
  predicate StatusFits(states: map<string, string>, asset: Asset, row: Row, broken: bool) {
    && (row.installed ==> row.status == "ready" && row.cached)
    && (!row.installed && broken ==> row.status == "needs-repair" && !row.cached)
    && (!row.installed && !broken && asset.assetId in states ==> row.status == states[asset.assetId])
    && (!row.installed && !broken && asset.assetId !in states ==> row.status == "not-installed")
    && (!row.installed && row.cached ==> row.status == "ready" || row.status == "reused" || row.status == "installed")
    && (row.status in {"ready", "reused", "installed"} ==> row.cached)
  }

  /** Consent for one asset: it is named, and its bytes count unless it is there. */
  predicate ConsentFits(consents: map<string, Consent>, asset: Asset, row: Row, there: bool) {
    row.consentGranted <==>
      && asset.group in consents && asset.assetId in consents[asset.group].assetIds
      && (if there then 0 else asset.size) <= consents[asset.group].budget
  }

  /** A verified row of `inventory` says whether the file is the asset, with its hash; a file
      that can be read and is not the asset needs repair. */
  lemma VerifiedRowIsExact(hash: Bytes -> string, files: Files, states: map<string, string>,
                           consents: map<string, Consent>, asset: Asset)
    ensures var row := PlainRow(hash, files, states, consents, asset, true);
      && (row.installed <==> IsReady(hash, files, asset))
      && row.digest == (if CanRead(files, asset) then Some(hash(files[asset.destination].content)) else None)
      && row.verification == "fresh-hash"
      && StatusFits(states, asset, row, CanRead(files, asset) && hash(files[asset.destination].content) != "")
      && ConsentFits(consents, asset, row, IsReady(hash, files, asset))
  {
    ConsentOfOne(hash, files, consents, asset, {});
  }

  predicate Trusted(status: string) {
    Lower(status) == "ready" || Lower(status) == "installed" || Lower(status) == "reused"
  }

  /** A row that is not verified believes a persisted status of installed, reused or ready,
      in any letter case, if there is a file at all, and never finds a broken one. */
  lemma UnverifiedRowIsExact(hash: Bytes -> string, files: Files, states: map<string, string>,
                             consents: map<string, Consent>, asset: Asset)
    ensures var row := PlainRow(hash, files, states, consents, asset, false);
      && (row.installed <==> asset.destination in files && asset.assetId in states && Trusted(states[asset.assetId]))
      && row.digest == (if row.installed && |asset.sha256| > 0 then Some(asset.sha256) else None)
      && row.verification == (if row.installed then "persisted-state" else "not-verified")
      && StatusFits(states, asset, row, false)
      && ConsentFits(consents, asset, row, IsReady(hash, files, asset))
  {
    ConsentOfOne(hash, files, consents, asset, {});
  }

  /** A row of `inventory_cached` says whether it was answered from the cache, was hashed or
      is believed. */
  lemma CachedRowSays(app: App, hash: Bytes -> string, files: Files, states: map<string, string>,
                      consents: map<string, Consent>, entries: map<string, Entry>, asset: Asset, verify: bool)
    ensures var row := CachedRow(app, hash, files, states, consents, entries, asset, verify).0;
      var found := verify && Lookup(app, files, entries, asset).Some?;
      && (row.verification == "cached-hash" <==> found)
      && (row.verification == "fresh-hash" <==> verify && !found)
      && (row.verification == "persisted-state" <==> !verify && row.installed)
      && (row.verification == "not-verified" <==> !verify && !row.installed)
      && (found ==> row.installed && row.digest == Lookup(app, files, entries, asset))
      && ConsentFits(consents, asset, row, row.installed || IsReady(hash, files, asset))
  {
    ConsentOfOne(hash, files, consents, asset, {});
    ConsentOfOne(hash, files, consents, asset, {asset.assetId});
  }

  /** The bytes that consent must cover are the sizes of the assets neither known to be
      installed nor ready, one after the other. */
  lemma {:induction false} RequestedOneMore(hash: Bytes -> string, files: Files, assets: seq<Asset>, asset: Asset,
                                            verified: set<string>)
    ensures RequestedBytes(hash, files, [], verified) == 0
    ensures RequestedBytes(hash, files, assets + [asset], verified) == RequestedBytes(hash, files, assets, verified)
      + if asset.assetId in verified || IsReady(hash, files, asset) then 0 else asset.size
    decreases |assets|
  {
    if assets == [] {
      assert [] + [asset] == [asset] && [asset][1..] == [];
    } else {
      assert (assets + [asset])[1..] == assets[1..] + [asset];
      RequestedOneMore(hash, files, assets[1..], asset, verified);
    }
  }

  /** Consent to several assets is consent to the first ones that also names the last one and
      still covers its bytes. */
  lemma ConsentToOneMore(hash: Bytes -> string, files: Files, consents: map<string, Consent>, group: string,
                         assets: seq<Asset>, asset: Asset, verified: set<string>)
    ensures HasConsent(hash, files, consents, group, [], verified) <==>
      group in consents && consents[group].budget >= 0
    ensures group in consents ==>
      var rest := if asset.assetId in verified || IsReady(hash, files, asset) then 0 else asset.size;
      var left := consents[group].(budget := consents[group].budget - rest);
      HasConsent(hash, files, consents, group, assets + [asset], verified) <==>
        asset.assetId in left.assetIds && HasConsent(hash, files, consents[group := left], group, assets, verified)
  {
    RequestedOneMore(hash, files, assets, asset, verified);
    if group in consents {
      var all := assets + [asset];
      assert all[|assets|] == asset;
      assert forall i :: 0 <= i < |assets| ==> all[i] == assets[i];
    }
  }

  /** What is ready needs no bytes. */
  lemma {:induction false} ReadyNeedsNoMore(hash: Bytes -> string, files: Files, later: Files, assets: seq<Asset>)
    requires forall i :: 0 <= i < |assets| ==>
      assets[i].size >= 0 && (IsReady(hash, files, assets[i]) ==> IsReady(hash, later, assets[i]))
    ensures RequestedBytes(hash, later, assets, {}) <= RequestedBytes(hash, files, assets, {})
    decreases |assets|
  {
    if assets != [] {
      assert IsReady(hash, files, assets[0]) ==> IsReady(hash, later, assets[0]);
      forall i | 0 <= i < |assets[1..]|
        ensures assets[1..][i].size >= 0
        ensures IsReady(hash, files, assets[1..][i]) ==> IsReady(hash, later, assets[1..][i])
      {
        assert assets[1..][i] == assets[i + 1];
      }
      ReadyNeedsNoMore(hash, files, later, assets[1..]);
    }
  }

  /** Consent granted for assets holds for them at once, and stays when some of them become
      ready; it is refused exactly when they exceed the budget given. */
  lemma GrantedIsConsented(hash: Bytes -> string, files: Files, later: Files, consents: map<string, Consent>,
                           group: string, assets: seq<Asset>, budget: Option<int>)
    requires forall i :: 0 <= i < |assets| ==>
      assets[i].size >= 0 && (IsReady(hash, files, assets[i]) ==> IsReady(hash, later, assets[i]))
    ensures var granted := Granted(hash, files, assets, budget);
      && (granted.None? <==> budget.Some? && budget.value < RequestedBytes(hash, files, assets, {}))
      && (granted.Some? ==>
          granted.value.budget == if budget.Some? then budget.value else RequestedBytes(hash, files, assets, {}))
      && (granted.Some? ==> HasConsent(hash, later, consents[group := granted.value], group, assets, {}))
  {
    ReadyNeedsNoMore(hash, files, later, assets);
  }

  // ---------------------------------------------------------------- one row

  /** An entry of this platform written after its file had been hashed and accepted. */
  ghost predicate Genuine(app: App, world: World, hash: Bytes -> string, entry: Entry) {
    entry.platform == app.platform && entry.snapshot.identity.Some? ==>
      && entry.verified == hash(world(entry.snapshot))
      && EqIgnoreCase(entry.verified, entry.digest.sha256)
      && (entry.digest.size <= 0 || entry.snapshot.size == entry.digest.size)
  }

  ghost predicate AllGenuine(app: App, world: World, hash: Bytes -> string, entries: map<string, Entry>) {
    forall k :: k in entries ==> Genuine(app, world, hash, entries[k])
  }

  /** The two rows agree on everything but how they were verified. */
  predicate SameRow(cached: Row, plain: Row) {
    cached.(verification := plain.verification) == plain
  }

  predicate Readable(files: Files, asset: Asset) {
    asset.destination in files ==> files[asset.destination].readable
  }

  lemma ConsentOfOne(hash: Bytes -> string, files: Files, consents: map<string, Consent>, asset: Asset,
                     verified: set<string>)
    ensures HasConsent(hash, files, consents, asset.group, [asset], verified) <==>
      && asset.group in consents && asset.assetId in consents[asset.group].assetIds
      && (if asset.assetId !in verified && !AssetReady(hash, files, asset).0 then asset.size else 0)
         <= consents[asset.group].budget
  {
    assert RequestedBytes(hash, files, [asset][1..], verified) == 0;
  }

  /** A verified row answered from the cache is the rehashed row, consent included,
      exactly when the file can still be read. */
  lemma VerifiedRowIsSame(app: App, world: World, hash: Bytes -> string, files: Files, states: map<string, string>,
                          consents: map<string, Consent>, entries: map<string, Entry>, asset: Asset)
    requires Consistent(world, files) && AllGenuine(app, world, hash, entries)
    ensures SameRow(CachedRow(app, hash, files, states, consents, entries, asset, true).0,
                    PlainRow(hash, files, states, consents, asset, true)) <==>
            (Lookup(app, files, entries, asset).None? || Readable(files, asset))
  {
    ConsentOfOne(hash, files, consents, asset, {});
    ConsentOfOne(hash, files, consents, asset, {asset.assetId});
    if Lookup(app, files, entries, asset).Some? {
      assert Genuine(app, world, hash, entries[Key(asset)]);
    }
  }

  lemma RowKeepsGenuine(app: App, world: World, hash: Bytes -> string, files: Files, states: map<string, string>,
                        consents: map<string, Consent>, entries: map<string, Entry>, asset: Asset, verify: bool)
    requires Consistent(world, files) && AllGenuine(app, world, hash, entries)
    ensures AllGenuine(app, world, hash, CachedRow(app, hash, files, states, consents, entries, asset, verify).1)
  {
  }

  /** Without verification both rows believe the persisted status, but only the cached one
      leaves a believed asset out of the bytes that consent must cover: they differ exactly
      when the asset is in fact not ready and consent was given for fewer bytes. */
  lemma UnverifiedRowIsSame(app: App, hash: Bytes -> string, files: Files, states: map<string, string>,
                            consents: map<string, Consent>, entries: map<string, Entry>, asset: Asset)
    ensures SameRow(CachedRow(app, hash, files, states, consents, entries, asset, false).0,
                    PlainRow(hash, files, states, consents, asset, false)) <==>
            !(&& Believed(files, states, asset) && !AssetReady(hash, files, asset).0
              && asset.group in consents && asset.assetId in consents[asset.group].assetIds
              && (asset.size <= consents[asset.group].budget) != (0 <= consents[asset.group].budget))
  {
    ConsentOfOne(hash, files, consents, asset, {});
    ConsentOfOne(hash, files, consents, asset, {asset.assetId});
  }

  // ---------------------------------------------------------------- when the cache answers

  /** The entry under the asset's key answers for it with a hash that is not empty. */
  ghost predicate Answers(app: App, files: Files, entries: map<string, Entry>, asset: Asset) {
    Lookup(app, files, entries, asset).Some? && Lookup(app, files, entries, asset).value != ""
  }

  /** Two assets with one key are the same. */
  predicate OneOfKey(a: Asset, b: Asset) {
    a.assetId + "|" + a.destination == b.assetId + "|" + b.destination ==> a == b
  }

  lemma RowKeepsAnswer(app: App, hash: Bytes -> string, files: Files, states: map<string, string>,
                       consents: map<string, Consent>, entries: map<string, Entry>, asset: Asset, other: Asset)
    requires OneOfKey(other, asset) && Answers(app, files, entries, asset)
    ensures Answers(app, files, CachedRow(app, hash, files, states, consents, entries, other, true).1, asset)
  {
  }

  lemma {:induction false} RowsKeepAnswer(app: App, hash: Bytes -> string, files: Files, states: map<string, string>,
                                          consents: map<string, Consent>, entries: map<string, Entry>,
                                          assets: seq<Asset>, asset: Asset)
    requires Answers(app, files, entries, asset) && forall j :: 0 <= j < |assets| ==> OneOfKey(assets[j], asset)
    ensures Answers(app, files, CachedRows(app, hash, files, states, consents, entries, assets, true).1, asset)
    decreases |assets|
  {
    if assets != [] {
      var next := CachedRow(app, hash, files, states, consents, entries, assets[0], true).1;
      assert OneOfKey(assets[0], asset);
      RowKeepsAnswer(app, hash, files, states, consents, entries, asset, assets[0]);
      forall j | 0 <= j < |assets[1..]| ensures OneOfKey(assets[1..][j], asset) {
        assert OneOfKey(assets[j + 1], asset);
      }
      RowsKeepAnswer(app, hash, files, states, consents, next, assets[1..], asset);
    }
  }

  /** A ready file with an identity is recorded when it is verified. */
  lemma VerifiedIsRecorded(app: App, hash: Bytes -> string, files: Files, states: map<string, string>,
                           consents: map<string, Consent>, entries: map<string, Entry>, asset: Asset)
    requires IsReady(hash, files, asset) && files[asset.destination].identity.Some?
    requires hash(files[asset.destination].content) != ""
    ensures var next := CachedRow(app, hash, files, states, consents, entries, asset, true).1;
      Lookup(app, files, next, asset).Some?
  {
  }

  lemma {:induction false} RowsAnswerLater(app: App, hash: Bytes -> string, files: Files, states: map<string, string>,
                                           consents: map<string, Consent>, entries: map<string, Entry>,
                                           assets: seq<Asset>, i: nat)
    requires i < |assets| && IsReady(hash, files, assets[i]) && files[assets[i].destination].identity.Some?
    requires (forall content :: hash(content) != "") && assets[i].sha256 != ""
    requires forall j :: 0 <= j < |assets| ==> OneOfKey(assets[j], assets[i])
    ensures Answers(app, files, CachedRows(app, hash, files, states, consents, entries, assets, true).1, assets[i])
    decreases |assets|
  {
    var next := CachedRow(app, hash, files, states, consents, entries, assets[0], true).1;
    forall j | 0 <= j < |assets[1..]| ensures OneOfKey(assets[1..][j], assets[i]) {
      assert OneOfKey(assets[j + 1], assets[i]);
    }
    if i == 0 {
      VerifiedIsRecorded(app, hash, files, states, consents, entries, assets[0]);
      LowerIsExact(Lookup(app, files, next, assets[0]).value);
      LowerIsExact(assets[0].sha256);
      RowsKeepAnswer(app, hash, files, states, consents, next, assets[1..], assets[0]);
    } else {
      RowsAnswerLater(app, hash, files, states, consents, next, assets[1..], i - 1);
    }
  }

  // ---------------------------------------------------------------- histories

  lemma {:induction false} RowsKeepGenuine(app: App, world: World, hash: Bytes -> string, files: Files,
                                           states: map<string, string>, consents: map<string, Consent>,
                                           entries: map<string, Entry>, assets: seq<Asset>, verify: bool)
    requires Consistent(world, files) && AllGenuine(app, world, hash, entries)
    ensures AllGenuine(app, world, hash, CachedRows(app, hash, files, states, consents, entries, assets, verify).1)
    decreases |assets|
  {
    if assets != [] {
      RowKeepsGenuine(app, world, hash, files, states, consents, entries, assets[0], verify);
      RowsKeepGenuine(app, world, hash, files, states, consents,
                      CachedRow(app, hash, files, states, consents, entries, assets[0], verify).1, assets[1..], verify);
    }
  }

  lemma {:induction false} RowsAreSame(app: App, world: World, hash: Bytes -> string, files: Files,
                                       states: map<string, string>, consents: map<string, Consent>,
                                       entries: map<string, Entry>, assets: seq<Asset>)
    requires Consistent(world, files) && AllGenuine(app, world, hash, entries)
    requires forall i :: 0 <= i < |assets| ==> Readable(files, assets[i])
    ensures var rows := CachedRows(app, hash, files, states, consents, entries, assets, true).0;
      |rows| == |assets| &&
      forall i :: 0 <= i < |assets| ==> SameRow(rows[i], PlainRow(hash, files, states, consents, assets[i], true))
    decreases |assets|
  {
    if assets != [] {
      VerifiedRowIsSame(app, world, hash, files, states, consents, entries, assets[0]);
      RowKeepsGenuine(app, world, hash, files, states, consents, entries, assets[0], true);
      var next := CachedRow(app, hash, files, states, consents, entries, assets[0], true).1;
      RowsAreSame(app, world, hash, files, states, consents, next, assets[1..]);
    }
  }

  /** Files change, a cached inventory runs with whatever states and consents hold then and
      may fail to save, or another version or platform leaves its cache file. */
  datatype Event =
    | Changed(files: Files)
    | Inventoried(states: map<string, string>, consents: map<string, Consent>, assets: seq<Asset>, verify: bool,
                  saved: bool)
    | Overwritten(disk: Option<Persisted>)

  datatype State = State(files: Files, disk: Option<Persisted>)

  function Next(app: App, hash: Bytes -> string, s: State, event: Event): State {
    match event
    case Changed(files) => s.(files := files)
    case Overwritten(disk) => s.(disk := disk)
    case Inventoried(states, consents, assets, verify, saved) =>
      var after := CachedRows(app, hash, s.files, states, consents, Loaded(app, s.disk), assets, verify).1;
      if verify && saved then s.(disk := Some(Persisted(SCHEMA_VERSION, app.version, after))) else s
  }

  function History(app: App, hash: Bytes -> string, s: State, events: seq<Event>): State
    decreases |events|
  {
    if events == [] then s else History(app, hash, Next(app, hash, s, events[0]), events[1..])
  }

  ghost predicate Possible(app: App, world: World, event: Event) {
    match event
    case Changed(files) => Consistent(world, files)
    case Overwritten(disk) => forall k :: k in Loaded(app, disk) ==> Loaded(app, disk)[k].platform != app.platform
    case Inventoried(_, _, _, _, _) => true
  }

  lemma {:induction false} HistoryIsSound(app: App, world: World, hash: Bytes -> string, s: State, events: seq<Event>)
    requires Consistent(world, s.files) && AllGenuine(app, world, hash, Loaded(app, s.disk))
    requires forall i :: 0 <= i < |events| ==> Possible(app, world, events[i])
    ensures var s' := History(app, hash, s, events);
      Consistent(world, s'.files) && AllGenuine(app, world, hash, Loaded(app, s'.disk))
    decreases |events|
  {
    if events != [] {
      var e := events[0];
      assert Possible(app, world, e);
      if e.Inventoried? {
        RowsKeepGenuine(app, world, hash, s.files, e.states, e.consents, Loaded(app, s.disk), e.assets, e.verify);
      }
      HistoryIsSound(app, world, hash, Next(app, hash, s, e), events[1..]);
    }
  }

  /** What the cache is for: an inventory that was verified and saved spares the next one the
      hashing of every ready file that has an identity and has not changed. */
  lemma SecondInventoryIsCached(app: App, hash: Bytes -> string, s: State, states: map<string, string>,
                                consents: map<string, Consent>, assets: seq<Asset>, i: nat)
    requires i < |assets| && IsReady(hash, s.files, assets[i]) && s.files[assets[i].destination].identity.Some?
    requires (forall content :: hash(content) != "") && assets[i].sha256 != ""
    requires forall j :: 0 <= j < |assets| ==> OneOfKey(assets[j], assets[i])
    ensures var s' := Next(app, hash, s, Inventoried(states, consents, assets, true, true));
      var row := CachedRow(app, hash, s'.files, states, consents, Loaded(app, s'.disk), assets[i], true).0;
      s'.files == s.files && row.verification == "cached-hash" && row.installed
  {
    RowsAnswerLater(app, hash, s.files, states, consents, Loaded(app, s.disk), assets, i);
  }

  /** For every reachable cache file the cached inventory reports what the plain one does. */
  lemma CachedInventoryIsPlain(app: App, world: World, hash: Bytes -> string, files: Files, events: seq<Event>,
                               states: map<string, string>, consents: map<string, Consent>, assets: seq<Asset>)
    requires Consistent(world, files) && forall i :: 0 <= i < |events| ==> Possible(app, world, events[i])
    requires var s := History(app, hash, State(files, None), events);
      forall i :: 0 <= i < |assets| ==> Readable(s.files, assets[i])
    ensures var s := History(app, hash, State(files, None), events);
      var rows := CachedRows(app, hash, s.files, states, consents, Loaded(app, s.disk), assets, true).0;
      |rows| == |assets| &&
      forall i :: 0 <= i < |assets| ==> SameRow(rows[i], PlainRow(hash, s.files, states, consents, assets[i], true))
  {
    HistoryIsSound(app, world, hash, State(files, None), events);
    var s := History(app, hash, State(files, None), events);
    RowsAreSame(app, world, hash, s.files, states, consents, Loaded(app, s.disk), assets);
  }
}
