/** Installing a managed asset: reuse, consent, disk check, verified download and the
    recorded status (pipeline/clipgauge_pipeline/downloads.py, DownloadManager.download),
    for assets that are downloaded straight to their destination. */
module ManagedDownload {
  import D = Download
  import P = PipelineInventory
  import opened Text
  import opened Wrappers

  datatype Status = Reused | Downloading | Cancelled | RetryableFailed | Installed

  datatype Refusal = ConsentRequired | DiskSpace | DownloadFailed(outcome: D.Outcome)

  const MEBIBYTE: nat := 1024 * 1024

  function PolicyOf(asset: P.Asset): D.Policy {
    if asset.size > 0 then D.Policy(asset.sha256, asset.size + MEBIBYTE, Some(asset.size))
    else D.Policy(asset.sha256, 128 * MEBIBYTE, None)
  }

  /** The destination holds the asset. */
  predicate Ready(hash: D.Bytes -> string, dest: Option<D.Bytes>, asset: P.Asset) {
    dest.Some? && P.IsAsset(hash, dest.value, asset)
  }

  /** What may stop a download before it starts, and the environment it then meets. */
  datatype Circumstances = Circumstances(requireConsent: bool, consented: bool, room: bool, env: D.Environment)

  datatype Outcome = Outcome(log: D.Log, statuses: map<string, Status>, result: Result<(), Refusal>)

  function StatusAfter(outcome: D.Outcome): Status {
    match outcome
    case Done => Installed
    case DownloadCancelled => Cancelled
    case _ => RetryableFailed
  }

  function Fetch(hash: D.Bytes -> string, l: D.Log, statuses: map<string, Status>, asset: P.Asset,
                 c: Circumstances): Outcome {
    if Ready(hash, l.disk.dest, asset) then Outcome(l, statuses[asset.assetId := Reused], Ok(()))
    else if c.requireConsent && !c.consented then Outcome(l, statuses, Err(ConsentRequired))
    else if !c.room then Outcome(l, statuses, Err(DiskSpace))
    else
      var (after, outcome) := D.Attempt(PolicyOf(asset), hash, l, c.env);
      Outcome(after, statuses[asset.assetId := StatusAfter(outcome)],
              if outcome == D.Done then Ok(()) else Err(DownloadFailed(outcome)))
  }

  class Manager {
    var statuses: map<string, Status>

    method DownloadAsset(folder: D.Folder, hash: D.Bytes -> string, asset: P.Asset, c: Circumstances)
      returns (result: Result<(), Refusal>)
      modifies this, folder
      ensures Outcome(folder.Now(), statuses, result) == Fetch(hash, old(folder.Now()), old(statuses), asset, c)
    {
      if folder.dest.Some? && P.IsAsset(hash, folder.dest.value, asset) {
        statuses := statuses[asset.assetId := Reused];
        return Ok(());
      }
      if c.requireConsent && !c.consented {
        return Err(ConsentRequired);
      }
      if !c.room {
        return Err(DiskSpace);
      }
      ghost var before := statuses;
      statuses := statuses[asset.assetId := Downloading];
      var outcome := D.DownloadVerified(folder, PolicyOf(asset), hash, c.env);
      statuses := statuses[asset.assetId := StatusAfter(outcome)];
      assert statuses == before[asset.assetId := StatusAfter(outcome)];
      if outcome != D.Done {
        return Err(DownloadFailed(outcome));
      }
      return Ok(());
    }
  }

  /** A download succeeds exactly when the destination holds the asset afterwards, and then
      is recorded as reused if it was there before and as installed otherwise. Each refusal
      has its exact cause: no consent where it is required, then no room, and both leave
      disk and statuses alone; a failed attempt is recorded as cancelled or retryable and
      leaves the destination alone. No other asset's status changes. */
  lemma FetchIsExact(hash: D.Bytes -> string, l: D.Log, statuses: map<string, Status>, asset: P.Asset, c: Circumstances)
    ensures var out := Fetch(hash, l, statuses, asset, c);
      var before := Ready(hash, l.disk.dest, asset);
      var refused := !before && c.requireConsent && !c.consented;
      && (out.result.Ok? <==> Ready(hash, out.log.disk.dest, asset))
      && (out.result.Ok? ==> out.statuses == statuses[asset.assetId := if before then Reused else Installed])
      && (out.result == Err(ConsentRequired) <==> refused)
      && (out.result == Err(DiskSpace) <==> !before && !refused && !c.room)
      && (before || refused || !c.room ==> out.log == l)
      && (out.result.Err? ==> out.log.disk.dest == l.disk.dest)
      && (out.result.Err? && !out.result.error.DownloadFailed? ==> out.statuses == statuses)
      && (out.result.Err? && out.result.error.DownloadFailed? ==>
          out.statuses == statuses[asset.assetId :=
            if out.result.error.outcome == D.DownloadCancelled then Cancelled else RetryableFailed])
  {
    D.AttemptIsSafe(PolicyOf(asset), hash, l, c.env);
  }

  /** What was recorded as installed is what the inventory then reports as installed. */
  lemma InstalledIsReported(hash: D.Bytes -> string, l: D.Log, statuses: map<string, Status>, asset: P.Asset,
                            c: Circumstances,
                            files: P.FileWorld.Files)
    requires Fetch(hash, l, statuses, asset, c).result.Ok?
    requires asset.destination in files && files[asset.destination].readable
    requires Some(files[asset.destination].content) == Fetch(hash, l, statuses, asset, c).log.disk.dest
    ensures P.AssetReady(hash, files, asset).0
  {
    FetchIsExact(hash, l, statuses, asset, c);
  }

  /** The part file that a download of the asset continues: one of more bytes than the asset
      and one mebibyte, or than 128 mebibytes where its size is not stated, is discarded. */
  function Resumed(asset: P.Asset, d: D.Disk): nat {
    var size := if d.part.Some? then |d.part.value| else 0;
    if size > (if asset.size > 0 then asset.size + 1048576 else 134217728) then 0 else size
  }

  /** No two contents have the same hash, whatever its letter case. */
  ghost predicate Injective(hash: D.Bytes -> string) {
    forall x, y :: EqIgnoreCase(hash(x), hash(y)) ==> x == y
  }

  /** The limits suffice: what download_verified is told describes the asset's content. */
  lemma PolicyDescribes(hash: D.Bytes -> string, content: D.Bytes, asset: P.Asset, d: D.Disk)
    requires P.IsAsset(hash, content, asset) && |asset.sha256| == 64 && Injective(hash)
    requires asset.size <= 0 ==> |content| <= 134217728
    ensures D.Describes(PolicyOf(asset), hash, content)
    ensures D.Offset(PolicyOf(asset), d) == Resumed(asset, d)
  {
    forall x, y | Lower(hash(x)) == Lower(hash(y)) ensures x == y {
      assert EqIgnoreCase(hash(x), hash(y));
    }
  }

  /** An asset with a hash of 64 digits whose size is stated, or whose content has at most
      128 mebibytes, is installed by two downloads with consent and room against an honest
      server, from any leftover files; after a first one that failed, the second succeeds. */
  lemma TwoDownloadsInstall(hash: D.Bytes -> string, content: D.Bytes, d: D.Disk, statuses: map<string, Status>,
                            asset: P.Asset, one: D.Environment, two: D.Environment)
    requires P.IsAsset(hash, content, asset) && |asset.sha256| == 64 && Injective(hash)
    requires asset.size <= 0 ==> |content| <= 134217728
    requires D.HonestServer(content, Resumed(asset, d), one)
    requires var first := Fetch(hash, D.Log(d, [d], []), statuses, asset, Circumstances(true, true, true, one));
      D.HonestServer(content, Resumed(asset, first.log.disk), two)
    ensures var first := Fetch(hash, D.Log(d, [d], []), statuses, asset, Circumstances(true, true, true, one));
      var second := Fetch(hash, first.log, first.statuses, asset, Circumstances(true, true, true, two));
      && second.result.Ok? && second.log.disk.dest == Some(content)
      && (d.part.None? ==> first.result.Ok? && first.log.disk.dest == Some(content))
  {
    var p, l := PolicyOf(asset), D.Log(d, [d], []);
    var first := Fetch(hash, l, statuses, asset, Circumstances(true, true, true, one));
    PolicyDescribes(hash, content, asset, d);
    PolicyDescribes(hash, content, asset, first.log.disk);
    if Ready(hash, d.dest, asset) {
      assert D.Verified(p, hash, d.dest.value);
      assert Lower(hash(d.dest.value)) == Lower(hash(content));
    } else {
      D.OneAttempt(p, hash, content, l, one);
      if first.result.Ok? {
        assert Ready(hash, Some(content), asset);
      } else {
        D.OneAttempt(p, hash, content, first.log, two);
      }
    }
  }
}
