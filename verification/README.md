# ClipGauge protocols in Dafny

ClipGauge is a desktop application (a Rust shell with a TypeScript front end) around
a Python pipeline. This project models its protocols in Dafny 4.11 and proves what
they are for. `dafny verify dfyconfig.toml` checks everything.

| module | what it models |
|---|---|
| `ProcessManager` | the table of heavy operations: reserve, adopt, register, cancel, finish |
| `InitializationCoordinator` | the mutex and condvar protocol around the pipeline initializer |
| `Lifecycle` | the worker threads of run, resume, edit and setup together with the cancelling threads, as a step system over the two modules above |
| `Cancellation` | what cancels do over runs of that system: who is terminated, and how a cancelled operation ends |
| `Reports` | what its operations report over runs, when they start a child, and that none is stuck |
| `Download` | resumable verified downloads with a part file, retries, restarts, faults and crashes |
| `ManagedDownload` | installing an asset: reuse, consent, download and recorded status |
| `Archive` | tar extraction: link resolution, staging, publication |
| `InventoryCache` | the shell's persisted inventory cache over histories of file changes |
| `PipelineInventory` | the pipeline's inventory with and without its own cache, and consent |
| `BoundedLine` | bounded line reading from arbitrary chunks |
| `Diagnostics` | the bounded tail buffer and the in-place redaction of query values |
| `MediaRange` | byte ranges, responses and capabilities of the loopback media server |
| `Migration` | the one-time copy of a legacy data root |
| `MigrationHistory` | the migration over any number of attempts, with faults in copy and marker |
| `AttemptFilter` | which pipeline events the front end applies across attempts |
| `Storage` | storage accounting and confirmed cleanup |
| `StorageEstimate` | disk estimates, stage checks and URL metadata |
| `FileTree`, `FileWorld`, `Text`, `Sequences`, `Wrappers` | shared vocabulary |

Where the source updates state step by step, a method or a class with the source's
loops is proved equal to a specification function, and the theorems are about that
function; `Lifecycle` and the coordinator are step systems, one step for each locked
section, and their theorems hold at every point of every run.

## Assumptions

- A child never prints the key of an operation as a job id: keys of run and setup
  operations are fresh UUIDs, and `cancel_job` validates its argument, so job ids are
  either an operation's own key or an emitted string. Process ids of children are not
  reused during a run.
- File snapshots with equal canonical path, size, modification time and identity
  belong to equal content; manifest digests are represented by the fields they cover.
- Where a download theorem speaks of *the* content, the hash is injective; the safety
  theorems need no such assumption.
- A crash leaves any prefix of the part file as it was after some write.
- Names are unique within a directory, and the legacy root and the destination do not
  overlap.

## What the proofs found

- In `stream_pipeline` the cancel flag is read and the record finished in two locked
  sections, and a setup operation that cannot be initialized or started settles its
  event before it finishes; `EventAndRecord` says exactly when event and record disagree.
- A negative Content-Length, which `_safe_size` accepts, makes reported
  progress negative (`ProgressIsSteadyIff`).
- A cached inventory answer does not notice that a file can no longer be opened
  (`FoundIsFresh`, `VerifiedRowIsSame`), and the shell's run cache needs distinct
  asset ids (`InventoryIsFresh`).
- Without verification the cached and the plain pipeline inventory account for consent
  differently (`UnverifiedRowIsSame`).
- A range whose last position does not fit u64 is refused although section 14.1.2 of
  RFC 9110 has it stand for the end (`PrintedRange`).
- A copy cut short by `fs::copy` is a collision for every later migration
  (`RetryIsCleanIff`). A failing run can leave a marker, by a fault while writing it or
  because the legacy tree holds one (`FailingRunLeavesMarkerIff`); only in the second case
  can it vouch for missing data (`MarkerVouches`, `LegacyMarkerHidesData`).
- After a failed resume a late attempt's job event is shown but its progress is not;
  `AcceptedIffFollowed` and `FollowedAttemptIsApplied` say exactly which attempts are
  followed.
- The archive docstring speaks of regular members only; the code
  also extracts links, and reads a hard link's name relative to the link's own
  directory as it does for symbolic links. The model follows the code.

## Model

| member | source | states |
|---|---|---|
| ProcessManager.ReserveKeepsLimit | app/src-tauri/src/process_manager.rs:86-118 | a reservation succeeds exactly when its key has no live record and there is room, adds that key and no other to the live ones, and never exceeds the limit; live are exactly the queued, starting, running and cancelling records |
| ProcessManager.ReserveTouchesOneKey | app/src-tauri/src/process_manager.rs:86-118 | every other record, live or finished, is as it was; a granted reservation starts a fresh record, a refused one drops the finished record of its own key |
| ProcessManager.ProcessManager.Reserve | app/src-tauri/src/process_manager.rs:86-118 | the method with its lookup, removal, count and insertion refines the specified outcome and table |
| ProcessManager.ProcessManager.AdoptJobId | app/src-tauri/src/process_manager.rs:120-127 | only the record of the key gets the job id; a missing key is an error and changes nothing |
| ProcessManager.ProcessManager.RegisterProcess | app/src-tauri/src/process_manager.rs:129-142 | the record gets the process and becomes Cancelling or Running by its cancel flag, whatever its state was before |
| ProcessManager.ProcessManager.UpdateStage | app/src-tauri/src/process_manager.rs:144-149 | only stage and heartbeat of the key change |
| ProcessManager.ProcessManager.RequestCancel | app/src-tauri/src/process_manager.rs:151-165 | some record with the job id, chosen by the map order, gets the flag; a terminal one is refused; without one nothing changes |
| ProcessManager.ProcessManager.IsCancelRequested | app/src-tauri/src/process_manager.rs:167-172 | true exactly for a recorded key that finishing, even after success, would leave Cancelled |
| ProcessManager.ProcessManager.Finish | app/src-tauri/src/process_manager.rs:182-194 | the record becomes Cancelled when flagged, else Completed or Failed, and its key is no longer live |
| ProcessManager.ProcessManager.MakeLease | app/src-tauri/src/process_manager.rs:202-221 | a lease exists exactly for a recorded key and carries that record |
| InitializationCoordinator.RunKeepsInv | app/src-tauri/src/sidecar.rs:60-94 | the inductive invariant holds at every point of every run of the mutex and condvar protocol, panics and spurious wakeups included |
| InitializationCoordinator.MutualExclusion | app/src-tauri/src/sidecar.rs:60-94 | at most one thread runs the initializer, it succeeds at most once, and Ok is returned only after that |
| InitializationCoordinator.ReadyIsStable | app/src-tauri/src/sidecar.rs:60-94 | ready never becomes false again |
| InitializationCoordinator.NoLostWakeup | app/src-tauri/src/sidecar.rs:60-94 | a parked thread has a thread initializing, and however that ends it is woken; if it is the first to take the lock then, it returns Ok or becomes the initializer |
| InitializationCoordinator.WaitsUntilWoken | app/src-tauri/src/sidecar.rs:67-79 | over runs a waiting thread stays parked or woken until it takes the lock, and is woken once some initializer has ended |
| InitializationCoordinator.WokenThreadProceeds | app/src-tauri/src/sidecar.rs:67-94 | over runs, whoever comes in between: on taking the lock it returns Ok exactly after a success, initializes exactly when none succeeded and none runs, and parks exactly behind a running initializer |
| InitializationCoordinator.EndIsExact | app/src-tauri/src/sidecar.rs:80-94 | however an initializer ends, its caller returns, with Ok exactly when it succeeded, the coordinator is free and ready exactly then, and exactly the parked threads are woken |
| InitializationCoordinator.ErrorIsOwn | app/src-tauri/src/sidecar.rs:80-94 | over runs: a caller gets an error only from the initializer it ran itself |
| Lifecycle.StepsAreManagerCalls | app/src-tauri/src/main.rs:384-419 | every worker step changes the table as the process-table methods do when called in the order of its locked section |
| Lifecycle.StepKeepsInv | app/src-tauri/src/main.rs:843-948 | each step of each kind of worker and canceller keeps the inductive invariant of the whole system |
| Lifecycle.RunKeepsInv | app/src-tauri/src/main.rs:1373-1585 | the invariant holds at every point of every interleaving |
| Lifecycle.LiveRecordsAreOwned | app/src-tauri/src/main.rs:870-946 | at most the limit of records is live, each belongs to exactly one worker that reserved and has not finished, and each such worker has one |
| Lifecycle.FinishedRecordsStayFinished | app/src-tauri/src/main.rs:1373-1585 | no registration revives a terminal record: only a reservation of its key drops or replaces it |
| Lifecycle.SetupCancelPersists | app/src-tauri/src/main.rs:1895-2036 | a set cancel flag of a setup operation stays set, whatever any thread does |
| Lifecycle.SetupCancelIsNotLost | app/src-tauri/src/main.rs:2070-2172 | once a live setup operation is flagged, at any later point every child registered for it was terminated or is about to be, and it ends Cancelled and never reports success |
| Lifecycle.TerminateComesNext | app/src-tauri/src/main.rs:1932-1942 | a worker about to terminate its child takes no other step first |
| Lifecycle.SetupLookupIsUnique | app/src-tauri/src/main.rs:2159-2172 | the only record with the id of a live setup operation is its own |
| Lifecycle.OneInitializingWorker | app/src-tauri/src/main.rs:384-419 | at most one worker has the initializing child, and none after success |
| Lifecycle.OneCompletionEvent | app/src-tauri/src/main.rs:1393-1584 | an operation emits exactly its accepted lines in order (in stream_pipeline without the completion ones) and, after all of them, exactly one completion event |
| Lifecycle.EventMatchesRecord | app/src-tauri/src/main.rs:1500-1584 | the completion event follows the terminal record; CANCELLED means the record is Cancelled; Completed means not Cancelled and a successful event; a Cancelled setup record carries CANCELLED, SETUP_INITIALIZATION_FAILED or SETUP_START_FAILED and no other event |
| Lifecycle.CodeIsFixed | app/src-tauri/src/main.rs:1500-1584 | the event is decided when the flag is read and nothing later changes it |
| Lifecycle.CancelWindow | app/src-tauri/src/main.rs:1500-1530 | in stream_pipeline the event says CANCELLED exactly when the flag was set at the read, the record is Cancelled exactly when it was set at the finish |
| Lifecycle.EventAndRecord | app/src-tauri/src/main.rs:1908-2036 | for every finished operation of any kind: the record is Cancelled exactly when the flag was set at its finish, and carries another event exactly when that event was settled in an earlier section in which the flag was unread or clear; for setup that event is a failed initialization or start |
| Lifecycle.SetupCancelInTheGap | app/src-tauri/src/main.rs:1908-1930 | from any state where a setup worker has settled its event, cancel_setup gives a Cancelled record with that event |
| Lifecycle.StartFailedEventForCancelledRecord | app/src-tauri/src/main.rs:1908-1930 | a complete run from the start in which a Cancelled setup record carries SETUP_START_FAILED |
| Lifecycle.CancelInTheGap | app/src-tauri/src/main.rs:1590-1598 | from any state between the two locked sections, cancelling the job gives a Cancelled record with the other event; what the cancel does to the process is CancelReachesProcess |
| Lifecycle.NormalEventForCancelledRecord | app/src-tauri/src/main.rs:1500-1530 | a complete run from the start in which a Cancelled record carries a successful completion event |
| Cancellation.CancelIsExact | app/src-tauri/src/main.rs:1590-1598 | a cancel flags the live record it finds, and the process registered for it is requested to terminate, by cancel_setup under the lock and by cancel_job after it; a terminal record stays as it is; nothing else changes |
| Cancellation.CancelReachesProcess | app/src-tauri/src/main.rs:1590-1598 | over runs: at every later point the process registered for the live record that a cancel found has been sent a terminate request or is pending, and a pending one can be sent; by cancel_setup it has been sent |
| Cancellation.JobCancelReachesChild | app/src-tauri/src/main.rs:1590-1598 | over runs: whenever cancel_job finds a live record, that has a process, the child of its one owner until it is reaped, and at every later point a terminate request for it has been or is about to be sent |
| Cancellation.StepKeepsRequests | app/src-tauri/src/main.rs:1590-1598 | whatever any thread does, a pending request stays until it is sent, and only sending it ends that; sending is possible exactly as long as it is pending |
| Cancellation.RequestHasCause | app/src-tauri/src/main.rs:1932-1996 | over runs: nothing is terminated except by a cancel of the live record it is registered for, for a flagged operation at its registration, or after a timeout of its setup |
| Cancellation.RequestedIffAsked | app/src-tauri/src/main.rs:873-881 | each step newly requests the termination of exactly the processes so described, the initializing child of a flagged run or setup operation included |
| Cancellation.FlagHasCause | app/src-tauri/src/main.rs:1590-1598 | an operation is flagged only by a cancel that found it |
| Cancellation.FlaggedEndsCancelled | app/src-tauri/src/main.rs:1500-1530 | over runs: a live operation of any kind that is flagged stays flagged until it ends, and ends Cancelled |
| Cancellation.CancelIsHonoured | app/src-tauri/src/main.rs:1590-1598 | over runs: every cancel that finds a live record flags the one worker that owns it until that ends Cancelled |
| Cancellation.CancelledSetupStartsNothing | app/src-tauri/src/main.rs:2089-2147 | over runs: a setup operation cancelled before its check after initialization never spawns its child and reports CANCELLED |
| Reports.LinesAreOutput | app/src-tauri/src/main.rs:1429-1484 | over runs: what a worker has processed, and perhaps one line in hand, is exactly what its child delivered |
| Reports.ForwardedLines | app/src-tauri/src/main.rs:1439-1483 | JSON lines are forwarded in order, except in stream_pipeline those that complete the operation |
| Reports.EverythingIsReported | app/src-tauri/src/main.rs:1429-1584 | over runs: an operation emits of its child's whole output exactly the lines to be forwarded, in order, then one completion event |
| Reports.LastCompletionIsExact | app/src-tauri/src/main.rs:1463-1466 | the payload held is the last completing line received |
| Reports.EventIsExact | app/src-tauri/src/main.rs:1486-1584 | over runs: the completion event of every operation of every kind is the one that the step which settled it calls for, given flag, exit, timeout and the last completing line |
| Reports.InitializedFirst | app/src-tauri/src/main.rs:862-896 | over runs: no run or setup operation spawns its child before the pipeline has been initialized |
| Reports.ChildWasSpawned | app/src-tauri/src/main.rs:1387-1402 | over runs: no operation reports what a child did, or that one exited, without having spawned it |
| Reports.InitializedStartsChild | app/src-tauri/src/main.rs:862-948 | after a successful initialization a run operation, and after the check a setup operation that is not flagged, does nothing but try to start its child |
| Reports.NoWorkerIsStuck | app/src-tauri/src/main.rs:1373-1585 | in every reachable state a live worker can take a step of its own, unless it is parked while another thread executes the initializer |
| Reports.StepsLeadOn | app/src-tauri/src/main.rs:1373-1585 | every step of a worker leads to a later point, or by one line of output, or to being parked |
| Reports.EnvironmentIsFree | app/src-tauri/src/main.rs:1373-1585 | wherever spawning, output, exit, timeout or the initializer decide, each outcome is possible |
| Reports.OthersAreFree | app/src-tauri/src/main.rs:843-948 | reservations are granted or refused as the table says, other threads use the coordinator, and a finished operation can emit its event |
| Download.OpenStream | pipeline/clipgauge_pipeline/runtime.py:34-54 | the retry loop refines the specified connection |
| Download.OpenIsExact | pipeline/clipgauge_pipeline/runtime.py:34-54 | a connection is answered exactly by its first try whose status is not 408, 425, 429 or 500 to 599, within three retries and unless it is cancelled or breaks; it is stopped exactly when a try that is made is cancelled |
| Download.ReceiveInto | pipeline/clipgauge_pipeline/runtime.py:145-156 | the chunk loop with its counter refines the specification: same part file after every write, same progress, same ending |
| Download.TransferInto | pipeline/clipgauge_pipeline/runtime.py:141-156 | size announcement, append or truncate, loop, flush and publication refine the specification |
| Download.PublishPart | pipeline/clipgauge_pipeline/runtime.py:160-172 | length check, digest check with removal, and atomic replacement refine the specification |
| Download.DownloadVerified | pipeline/clipgauge_pipeline/runtime.py:88-172 | the whole function, with every branch and every state of the disk, refines the attempt that the lemmas are about |
| Download.AttemptIsSafe | pipeline/clipgauge_pipeline/runtime.py:88-172 | no failure changes the destination; success leaves verified bytes there and no part file; in every intermediate state the destination is old or final and the part file fits the limit |
| Download.DestinationIsOriginalOrVerified | pipeline/clipgauge_pipeline/runtime.py:88-172 | after any sequence of attempts and crashes with arbitrary servers the destination is the original or has the expected hash and size |
| Download.ReceiveStays | pipeline/clipgauge_pipeline/runtime.py:119-156 | in every state of the chunk loop the old part file is a prefix of the new one, which is a prefix of old file and stream and fits the limit |
| Download.ReceiveIsExact | pipeline/clipgauge_pipeline/runtime.py:145-156 | the chunk loop ends at the first chunk that breaks, is cancelled, exceeds the limit or is not stored in full, and the part file then holds exactly what was stored until then |
| Download.ReceiveTrace | pipeline/clipgauge_pipeline/runtime.py:145-156 | after each chunk taken the part file holds the old one and the stream so far: the states that a crash can leave |
| Download.EveryChangeIsRecorded | pipeline/clipgauge_pipeline/runtime.py:88-172 | no change of the disk is missing from the recorded states |
| Download.AttemptIsExact | pipeline/clipgauge_pipeline/runtime.py:88-172 | an attempt ends in RuntimeDownloadCancelled exactly when a poll it makes finds it cancelled, succeeds exactly when a reply is served, received in full, verified and published, and then publishes the part file it continued and what the reply delivered |
| Download.FailedAttemptLeaves | pipeline/clipgauge_pipeline/runtime.py:104-172 | a failed attempt keeps every byte that was stored, so that the next one can continue; the part file is discarded only when it exceeds the limit, when the server cannot continue it, or when all of it arrived with the wrong hash |
| Download.OneAttempt | pipeline/clipgauge_pipeline/runtime.py:104-172 | one uninterrupted attempt against an honest server succeeds, except exactly when the server continues a part file that is no prefix of the content; then the part file is gone |
| Download.TwoAttempts | pipeline/clipgauge_pipeline/runtime.py:104-172 | from any leftover part file two uninterrupted attempts leave the expected content as destination |
| Download.PrefixIsEnough | pipeline/clipgauge_pipeline/runtime.py:104-172 | after any interrupted, cancelled or crashed transfers from a truthful server the part file is a prefix and one uninterrupted attempt is enough |
| Download.ReceiveReports | pipeline/clipgauge_pipeline/runtime.py:152-153 | the callback is told exactly the share of each reported size |
| Download.ProgressIsSteadyIff | pipeline/clipgauge_pipeline/runtime.py:77-85 | progress of a transfer is non-decreasing in [0,1] exactly when the total is not negative or nothing is counted |
| Download.NegativeLengthIsReported | pipeline/clipgauge_pipeline/runtime.py:77-85 | a concrete negative Content-Length for which the reported share is negative |
| Download.AttemptProgress | pipeline/clipgauge_pipeline/runtime.py:88-172 | without negative lengths the progress of a whole attempt is non-decreasing in [0,1] |
| Download.UnknownSizeIsNotReported | pipeline/clipgauge_pipeline/runtime.py:141-153 | when no size is known nothing is reported |
| Download.ProgressIsShare | pipeline/clipgauge_pipeline/runtime.py:141-156 | against an honest server, resumed or not, the callback is told after each chunk which share of the whole content the part file holds, and 1.0 at the end |
| Archive.SafeMemberIsExact | pipeline/clipgauge_pipeline/runtime.py:252-257 | a member name is accepted exactly when it is relative, not empty and never goes up, and is then the path it leads to from the root |
| Archive.LinkTargetIsExact | pipeline/clipgauge_pipeline/runtime.py:313-316 | a link lands where walking through its name leads from the link's own folder, and is refused exactly when the name is absolute or leaves the root |
| Archive.LinkLands | pipeline/clipgauge_pipeline/runtime.py:313-316 | a name of n double dots and plain parts lands n folders above the link's own folder, then down those parts; above the root it is refused |
| Archive.ResolveIsExact | pipeline/clipgauge_pipeline/runtime.py:325-334 | link resolution returns exactly the regular member at the end of the chain, reports a missing target exactly when the chain leaves the archive, and a cycle exactly when it never ends |
| Archive.ScanIsExact | pipeline/clipgauge_pipeline/runtime.py:299-321 | the first pass accepts exactly the archives of safe, distinct, permitted members |
| Archive.ScanRecords | pipeline/clipgauge_pipeline/runtime.py:299-321 | and records each member under its path |
| Archive.ScanOneRefuses | pipeline/clipgauge_pipeline/runtime.py:299-321 | each reason to refuse a member, exactly |
| Archive.StagingIsExact | pipeline/clipgauge_pipeline/runtime.py:336-361 | writing files and links in order succeeds exactly when no entry stands in the way of another, in whatever order they come |
| Archive.ExtractionIsExact | pipeline/clipgauge_pipeline/runtime.py:292-361 | an archive is extracted exactly when names are relative, never go up and are distinct, nothing but files, links and directories occurs, nothing is in the way, and every link, read from its own folder, reaches a file |
| Archive.EveryMemberReads | pipeline/clipgauge_pipeline/runtime.py:346-361 | the extracted tree has exactly the member paths; files read as their content, links as the content their chain reaches, symbolic on POSIX and copies elsewhere |
| Archive.ExtractedPathsAreSafe | pipeline/clipgauge_pipeline/runtime.py:252-257 | no published path, and no path a published link leads to, has an empty, dot or double-dot part; links lead to files of the tree |
| Archive.OrderDoesNotMatter | pipeline/clipgauge_pipeline/runtime.py:299-361 | permuting the members changes neither whether the archive is extracted nor the resulting tree |
| Archive.Workspace.ScanMembers | pipeline/clipgauge_pipeline/runtime.py:299-321 | the loop over members refines the first pass and creates the directories |
| Archive.Workspace.StageFiles | pipeline/clipgauge_pipeline/runtime.py:346-350 | the loop over regular members refines staging |
| Archive.Workspace.StageLinks | pipeline/clipgauge_pipeline/runtime.py:351-361 | the loop over links refines staging |
| Archive.Workspace.Publish | pipeline/clipgauge_pipeline/runtime.py:363-383 | removal of the old tree and the moves end with the archive and the new tree; cut short, every file is an old or a new one |
| Archive.Workspace.ExtractArchive | pipeline/clipgauge_pipeline/runtime.py:240-393 | failure before publishing leaves the destination unchanged; success leaves the extracted tree, the archive if it lay there, and nothing else; staging is always cleaned up |
| InventoryCache.InstalledDetails | app/src-tauri/src/setup_inventory.rs:756-785 | the loop that hashes files refines the specified details, single-file size check included |
| InventoryCache.FreshWhenReady | app/src-tauri/src/setup_inventory.rs:756-785 | an asset is installed exactly when every file can be read and has its stated hash and, for a single file with stated hashes, the size fits; all hashes are then reported |
| InventoryCache.FreshUntilFailure | app/src-tauri/src/setup_inventory.rs:756-785 | otherwise the hashes up to the first file that is not ready are reported, with its own if it could be read |
| InventoryCache.ExpectedHashIsFirst | app/src-tauri/src/setup_inventory.rs:603-609 | the stated hash of a path is that of the first pair naming it, or empty |
| InventoryCache.InventoryCache.Load | app/src-tauri/src/setup_inventory.rs:637-663 | a cache file of another schema, version or platform counts as empty, and nothing is answered yet in this run |
| InventoryCache.InventoryCache.Lookup | app/src-tauri/src/setup_inventory.rs:669-706 | the loop over recorded files refines the specified hit |
| InventoryCache.InventoryCache.Record | app/src-tauri/src/setup_inventory.rs:708-735 | the loop over paths refines what is remembered |
| InventoryCache.InventoryCache.Save | app/src-tauri/src/setup_inventory.rs:737-753 | what is saved holds all entries, under the schema, version and platform that a load asks for |
| InventoryCache.InventoryCache.AssetRow | app/src-tauri/src/setup_inventory.rs:787-806 | run cache, persisted cache and rehash are consulted in that order and updated |
| InventoryCache.FoundIsFresh | app/src-tauri/src/setup_inventory.rs:669-706 | a persisted answer is what rehashing would give, exactly when the files can still be read |
| InventoryCache.RowsStayGenuine | app/src-tauri/src/setup_inventory.rs:787-806 | whatever a run finds, the entries it leaves were written after hashing and accepting their files |
| InventoryCache.RowsAreRehashed | app/src-tauri/src/setup_inventory.rs:787-806 | the persisted entries make no difference to the rows of a run |
| InventoryCache.RehashedAt | app/src-tauri/src/setup_inventory.rs:793-805 | each row is the fresh result of the first spec with its asset id |
| InventoryCache.Inventory | app/src-tauri/src/setup_inventory.rs:1573-1577 | the loop over specs with one cache refines the rows and saves the entries |
| InventoryCache.InventoryIsFresh | app/src-tauri/src/setup_inventory.rs:669-806 | after any history of file changes, saves, failed saves, damaged and foreign cache files the rows are those of rehashing, exactly when specs that share an id agree; distinct ids suffice |
| InventoryCache.SecondInventoryIsCached | app/src-tauri/src/setup_inventory.rs:669-735 | an inventory that was saved lets the next one of this version answer from the cache for every installed asset whose files have identities |
| InventoryCache.SharedIdHidesMissingFile | app/src-tauri/src/setup_inventory.rs:793-794 | two specs with one id where the second row hides a missing file |
| InventoryCache.UnreadableFileIsStillFound | app/src-tauri/src/setup_inventory.rs:589-601 | a whole inventory still reports as installed a recorded file that can no longer be opened |
| PipelineInventory.DownloadManager.constructor | pipeline/clipgauge_pipeline/downloads.py:93-111 | a cache file of another schema or version counts as empty |
| PipelineInventory.DownloadManager.Consented | pipeline/clipgauge_pipeline/downloads.py:411-431 | the loops over assets refine the consent rule |
| PipelineInventory.ConsentToOneMore | pipeline/clipgauge_pipeline/downloads.py:411-431 | consent to several assets: every one is named, and the budget covers the sizes of those neither known to be installed nor ready, added up |
| PipelineInventory.DownloadManager.GrantConsent | pipeline/clipgauge_pipeline/downloads.py:390-405 | refines the grant, after which consent holds for the assets |
| PipelineInventory.GrantedIsConsented | pipeline/clipgauge_pipeline/downloads.py:390-431 | consent is refused exactly when the assets exceed the budget; when granted it holds, and stays when some assets become ready |
| PipelineInventory.VerifiedRowIsExact | pipeline/clipgauge_pipeline/downloads.py:277-307 | a verified row says installed exactly when the file is the asset; the status is ready, needs-repair for a readable file that is not the asset, or else the persisted one; consent counts the size unless installed |
| PipelineInventory.UnverifiedRowIsExact | pipeline/clipgauge_pipeline/downloads.py:283-289 | an unverified row believes a persisted status in any letter case when there is a file, shows the stated hash, and never finds a broken copy |
| PipelineInventory.CachedRowSays | pipeline/clipgauge_pipeline/downloads.py:323-351 | a cached row says whether it was found in the cache, hashed or believed, and counts no bytes for what it reports as installed |
| PipelineInventory.DownloadManager.OneRow | pipeline/clipgauge_pipeline/downloads.py:323-351 | one turn of the cached loop refines its row and entries |
| PipelineInventory.DownloadManager.InventoryCached | pipeline/clipgauge_pipeline/downloads.py:309-355 | the cached inventory loop refines rows and entries |
| PipelineInventory.DownloadManager.Inventory | pipeline/clipgauge_pipeline/downloads.py:277-307 | the plain inventory loop refines the plain rows |
| PipelineInventory.VerifiedRowIsSame | pipeline/clipgauge_pipeline/downloads.py:277-355 | a verified cached row equals the plain row but for its verification field, exactly when nothing was found or the file can still be read |
| PipelineInventory.UnverifiedRowIsSame | pipeline/clipgauge_pipeline/downloads.py:331-351 | without verification the two rows differ exactly when a believed asset is not ready and consent covers one byte count but not the other |
| PipelineInventory.CachedInventoryIsPlain | pipeline/clipgauge_pipeline/downloads.py:141-355 | for every reachable cache file the cached inventory reports what the plain one does, consent included |
| PipelineInventory.SecondInventoryIsCached | pipeline/clipgauge_pipeline/downloads.py:141-198 | a verified and saved inventory lets the next one answer from the cache for every ready file that has an identity and has not changed |
| ManagedDownload.Manager.DownloadAsset | pipeline/clipgauge_pipeline/downloads.py:480-606 | reuse, consent, disk check, transfer and recorded status refine the specification built on the verified download |
| ManagedDownload.FetchIsExact | pipeline/clipgauge_pipeline/downloads.py:480-606 | a download succeeds exactly when the destination then holds the asset; each refusal, status and failure with its exact cause; refusals leave disk and statuses alone, failures the destination |
| ManagedDownload.InstalledIsReported | pipeline/clipgauge_pipeline/downloads.py:265-275 | what was recorded as installed is what the inventory then reports as installed |
| ManagedDownload.TwoDownloadsInstall | pipeline/clipgauge_pipeline/downloads.py:480-606 | an asset of stated size, or of at most 128 MiB, is installed by two downloads against an honest server from any leftover files, by one when there is no part file; the limits are spelled out |
| ManagedDownload.PolicyDescribes | pipeline/clipgauge_pipeline/downloads.py:551-560 | size, hash and limit that download_verified is given describe exactly the content of the asset, with room for all of it |
| BoundedLine.ReadBoundedLine | app/src-tauri/src/main.rs:1222-1260 | one call takes the first line of the remaining stream, up to a newline or the end, and accepts it exactly when it has at most the bounded number of bytes, whatever the chunks |
| BoundedLine.ReadAll | app/src-tauri/src/main.rs:1447-1453 | repeated calls report exactly the lines of the whole output, each as it is when it fits and as refused when it does not |
| BoundedLine.SplitJoin | app/src-tauri/src/main.rs:1222-1260 | splitting undoes joining for newline-free lines |
| BoundedLine.JoinSplit | app/src-tauri/src/main.rs:1222-1260 | joining undoes splitting, up to the newline a last line may lack |
| BoundedLine.OversizeLineIsIsolated | app/src-tauri/src/main.rs:1222-1260 | a line, accepted or oversize, has no influence on the lines after it |
| Diagnostics.BoundedTail.Push | app/src-tauri/src/diagnostics.rs:30-37 | the byte-by-byte loop keeps exactly the last bytes of everything pushed |
| Diagnostics.RedactMarker | app/src-tauri/src/diagnostics.rs:86-96 | the loop that edits the string it scans terminates and equals one left-to-right pass for its marker |
| Diagnostics.RedactQueryToken | app/src-tauri/src/diagnostics.rs:76-100 | all passes together equal one left-to-right pass for all markers, and leave no secret showing |
| Diagnostics.ScrubOneMore | app/src-tauri/src/diagnostics.rs:76-100 | a later name's pass never breaks an earlier one: scrubbing for more markers is scrubbing for all at once |
| Diagnostics.RedactedIsClean | app/src-tauri/src/diagnostics.rs:76-100 | behind ? or & and any of the seven names and = stands exactly [REDACTED] and then an ampersand or the end, everywhere in the result |
| Diagnostics.MarkersAreSecret | app/src-tauri/src/diagnostics.rs:77-86 | the passes are made for exactly the fourteen markers of the seven names |
| Diagnostics.PlainTextIsKept | app/src-tauri/src/diagnostics.rs:76-100 | text without a marker stays as it is |
| Diagnostics.FirstSecretIsReplaced | app/src-tauri/src/diagnostics.rs:86-97 | the value behind the first marker is replaced up to the next ampersand or the end, what precedes it is kept, and the rest is redacted in turn |
| Diagnostics.RedactionIsIdempotent | app/src-tauri/src/diagnostics.rs:76-100 | redacting again changes nothing |
| Diagnostics.RedactionKeepsContextOnly | app/src-tauri/src/diagnostics.rs:76-100 | two texts are redacted alike exactly when they agree outside the replaced values |
| MediaRange.ParseRangeIsExact | app/src-tauri/src/media_server.rs:339-369 | a header is accepted exactly when the range it stands for selects something, and the interval holds exactly the selected positions inside the file |
| MediaRange.NoWrapAround | app/src-tauri/src/media_server.rs:292-292 | the content length of an accepted range lies between one and the file length and fits u64 |
| MediaRange.DenotedIsExact | app/src-tauri/src/media_server.rs:339-369 | a header stands for a range exactly when it is bytes= and the range spelled in decimal u64 numbers, with white space around it |
| MediaRange.DenotedPrinted | app/src-tauri/src/media_server.rs:339-369 | parsing undoes printing for every range whose numbers fit u64 and refuses the others |
| MediaRange.PrintedRange | app/src-tauri/src/media_server.rs:339-369 | a printed range is answered with exactly the positions of section 14.1.2 of RFC 9110, and refused exactly when it selects none or a number does not fit u64 |
| MediaRange.WriteBody | app/src-tauri/src/media_server.rs:426-437 | the send loop emits exactly the requested interval for any short reads, and a prefix of it on failure |
| MediaRange.RangesRebuildFile | app/src-tauri/src/media_server.rs:262-317 | adjacent ranges rebuild the file wherever it is cut |
| MediaRange.ResponseIsTruthful | app/src-tauri/src/media_server.rs:262-317 | exactly when each status is given: 416 for a range that selects nothing, else 404 for a GET whose file cannot be opened, else 200 without a Range header and 206 with one; announced length, Content-Range and body agree with the file or the selected positions; HEAD announces the same and sends nothing |
| MediaRange.TokenIsExact | app/src-tauri/src/media_server.rs:320-337 | a target carries a token exactly when it is that token's path, with or without a query, and the token has 32 hexadecimal digits |
| MediaRange.MediaServer.Authorize | app/src-tauri/src/media_server.rs:59-92 | a new token is granted for a regular file for half an hour |
| MediaRange.MediaServer.Dispatch | app/src-tauri/src/media_server.rs:239-318 | over any history a GET or HEAD is answered truthfully about a file exactly for a token granted for it that has not expired; other verbs give 405, other targets 404 |
| Migration.Destination.CopyLegacyTree | app/src-tauri/src/main.rs:158-196 | the recursive copy over the mutable destination refines the specified walk |
| Migration.Destination.MigrateLegacyData | app/src-tauri/src/main.rs:198-211 | the function around it, markers included, refines its specification |
| Migration.CopyIsExact | app/src-tauri/src/main.rs:158-196 | without faults the copy succeeds exactly when the trees are compatible, and gives their union |
| Migration.CopyReaches | app/src-tauri/src/main.rs:158-196 | whatever fails, no pre-existing item changes and everything new is a faithful copy but for one file cut short |
| Migration.SuccessIsClean | app/src-tauri/src/main.rs:158-196 | a run that reports success met no fault |
| Migration.RetryReachesCleanTree | app/src-tauri/src/main.rs:158-196 | after any number of failed copies, each listing directories in its own order, a clean one reaches the tree of one clean copy, exactly when none cut a file short |
| Migration.StaysIncompatible | app/src-tauri/src/main.rs:175-188 | a collision, with a cut file or another, is never resolved by retrying |
| Migration.OrderDoesNotMatter | app/src-tauri/src/main.rs:166-172 | the order of directory entries makes no difference to success or tree |
| Migration.MigrationKeepsFiles | app/src-tauri/src/main.rs:198-211 | no outcome changes a pre-existing item |
| Migration.MigrationIsExact | app/src-tauri/src/main.rs:198-211 | success comes exactly when trees are compatible and nothing is in the marker's way, and means the union and the marker |
| Migration.NothingToMigrate | app/src-tauri/src/main.rs:203-207 | without a legacy root only a marker saying so and its folder are added |
| Migration.FailureWritesNoMarker | app/src-tauri/src/main.rs:198-211 | a failed copy leaves no marker when the legacy tree holds none |
| Migration.MarkerLeaksIff | app/src-tauri/src/main.rs:158-211 | for compatible trees some fault of the copy alone leaves a marker exactly when the legacy tree holds something at its path |
| Migration.LegacyMarkerHidesData | app/src-tauri/src/main.rs:198-202 | a concrete legacy tree whose data is never copied after one failure |
| MigrationHistory.FailingRunLeavesMarkerIff | app/src-tauri/src/main.rs:198-211 | for any faults of copy and marker, exactly when a failing run leaves a marker |
| MigrationHistory.SomeFailureLeavesMarkerIff | app/src-tauri/src/main.rs:198-211 | exactly for which trees some failing run leaves a marker |
| MigrationHistory.MarkerVouches | app/src-tauri/src/main.rs:198-211 | after any attempts with any faults a new marker, even one cut short, means the whole legacy tree is there, if that tree holds no marker itself |
| MigrationHistory.RetryIsCleanIff | app/src-tauri/src/main.rs:198-211 | after any attempts a clean retry gives the tree of one clean run up to the bytes of the marker, exactly when none cut a file short or, once a marker is there, when the whole legacy tree is |
| MigrationHistory.RetryIsCleanUnlessTorn | app/src-tauri/src/main.rs:198-211 | for a legacy tree without a marker that condition is only that no attempt cut a file short |
| AttemptFilter.Shell.PrepareAttempt | app/src/App.tsx:252-258 | afterwards exactly the job events of the prepared job are accepted, except that of the attempt just left, and an end naming nothing while no job is known |
| AttemptFilter.Shell.ResumeFailed | app/src/App.tsx:548-548 | afterwards exactly the events of the job and its current attempt are accepted, and a job event only when there is no current attempt |
| AttemptFilter.Shell.OnEvent | app/src/App.tsx:336-360 | the listener's guards and adoption refine the specified decision and state |
| AttemptFilter.AcceptedOnceAdopted | app/src/App.tsx:338-353 | once an attempt is adopted exactly the events are accepted whose labels name nothing but its job and itself, a job event only with its label |
| AttemptFilter.AcceptedUnexpectedly | app/src/App.tsx:354-357 | where nothing is expected exactly the events are accepted that name nothing but the session and attempt shown |
| AttemptFilter.StaleEventsAreNeverApplied | app/src/App.tsx:252-360 | once an attempt is prepared, no event labelled with an attempt adopted earlier is ever applied, through all later actions |
| AttemptFilter.CurrentAttemptIsFollowed | app/src/App.tsx:338-357 | the labelled events of the adopted attempt are all applied, in order, until another is prepared |
| AttemptFilter.AcceptedIffFollowed | app/src/App.tsx:338-360 | after any accepted job event another event of its attempt is accepted exactly when nothing was expected, a job event was awaited, or this attempt was expected |
| AttemptFilter.FollowedAttemptIsApplied | app/src/App.tsx:338-360 | over histories until the next attempt all labelled events of the attempt are applied in order under that condition, and none otherwise |
| AttemptFilter.UnexpectedIff | app/src/App.tsx:355-356 | where nothing is expected, opening or rendering another session ends it |
| AttemptFilter.PreparedAttemptIsAdopted | app/src/App.tsx:341-347 | a fresh attempt of the prepared job is adopted by its job event |
| AttemptFilter.RepeatedJobEventIsAdopted | app/src/App.tsx:341-347 | a repeated job event of the attempt before the last would be adopted |
| AttemptFilter.LateAttemptIsNotFollowed | app/src/App.tsx:548-548 | after a failed resume a late job event is applied but no event of its attempt is until the next attempt: the failing side of the exact condition |
| Storage.ScanTree | pipeline/clipgauge_pipeline/storage.py:49-75 | the single walk computes the total, rendered, partial and diagnostic bytes that four separate sums give; the total is the plain size |
| Storage.CountersAreExact | pipeline/clipgauge_pipeline/storage.py:49-75 | which files each sum counts: those directly in outputs or rendered, the unfinished ones, those below a diagnostics directory; added up entry by entry |
| Storage.PartialNames | pipeline/clipgauge_pipeline/storage.py:24-56 | unfinished files end in .part or .tmp or have .staging in their name |
| Storage.SumIsPartOfSize | pipeline/clipgauge_pipeline/storage.py:29-75 | each part is at most the total, and the total is the plain size |
| Storage.DataRoot.Cleanup | pipeline/clipgauge_pipeline/storage.py:223-242 | unconfirmed or refused cleanups change nothing; others report the previewed bytes and remove exactly the candidates |
| Storage.AtAfterRemove | pipeline/clipgauge_pipeline/storage.py:231-235 | removal takes away what is at or below a path and leaves the rest |
| Storage.RemoveAllIsExact | pipeline/clipgauge_pipeline/storage.py:228-235 | removal of paths that lie apart shrinks the size by exactly the previewed bytes |
| Storage.SafeFilesAreExact | pipeline/clipgauge_pipeline/storage.py:137-147 | the candidates are exactly the unfinished regular files below the cache directories, each once |
| Storage.SafeCleanupIsExact | pipeline/clipgauge_pipeline/storage.py:137-147 | a safe-cache cleanup shrinks the root by the previewed bytes, leaves no partial bytes in downloads and temp, and changes no other file |
| Storage.SessionCandidatesAreExact | pipeline/clipgauge_pipeline/storage.py:193-218 | a session is deleted exactly when it is recorded, not running, failed if a failed one was asked for, and has a well-formed id and a directory; each refusal with its reason |
| Storage.JobIdIsExact | pipeline/clipgauge_pipeline/storage.py:23-23 | a job id is a date, a time and six hexadecimal digits |
| Storage.ArchivesAreExact | pipeline/clipgauge_pipeline/storage.py:150-165 | the obsolete archives are the regular files in the download cache named like runtime archives, once some runtime is installed |
| Storage.ArchiveCleanupIsExact | pipeline/clipgauge_pipeline/storage.py:150-165 | deleting obsolete archives removes exactly the archives in the download cache |
| Storage.SessionCleanupIsExact | pipeline/clipgauge_pipeline/storage.py:193-207 | deleting a session that is not running removes exactly its directory |
| StorageEstimate.EstimateGrows | pipeline/clipgauge_pipeline/storage_estimate.py:21-44 | larger or longer sources never need less |
| StorageEstimate.EstimateKeepsMargin | pipeline/clipgauge_pipeline/storage_estimate.py:21-44 | copy, audio track, checkpoint and rendering are exactly the stated least whole bytes, and the margin the least that is a fifth of them and at least 512 MiB |
| StorageEstimate.StagesNeedNoMore | pipeline/clipgauge_pipeline/storage_estimate.py:63-101 | no stage needs more than the whole estimate it comes from |
| StorageEstimate.StageIsExact | pipeline/clipgauge_pipeline/storage_estimate.py:63-101 | what each stage still needs, with its own margin |
| StorageEstimate.BlockedIsExact | pipeline/clipgauge_pipeline/resource_guard.py:189-191 | a run is blocked exactly when less than one GiB or less than the stage, or the whole run, needs is free |
| StorageEstimate.AdmittedRunPasses | pipeline/clipgauge_pipeline/resource_guard.py:158-199 | a run admitted at some free space passes every later check at that space |
| StorageEstimate.AdmittedUrlRunPasses | pipeline/clipgauge_pipeline/storage_estimate.py:184-198 | the same for estimates from URL metadata |
| StorageEstimate.SelectRecords | pipeline/clipgauge_pipeline/storage_estimate.py:112-129 | the loop with its seen set refines the selection |
| StorageEstimate.SelectedOneMore | pipeline/clipgauge_pipeline/storage_estimate.py:112-129 | a record is selected exactly when no earlier one has its format id or, without ids, its URL |
| StorageEstimate.SelectedComponentSize | pipeline/clipgauge_pipeline/storage_estimate.py:132-145 | the loop over records refines the summed size and its confidence |
| StorageEstimate.ComponentsAreExact | pipeline/clipgauge_pipeline/storage_estimate.py:132-145 | the selected size is known exactly when every record has one, is their sum, and exact when all are |
| StorageEstimate.SelectedBitrateBytes | pipeline/clipgauge_pipeline/storage_estimate.py:148-162 | the loop over records refines the bitrate estimate |
| StorageEstimate.RatesAreExact | pipeline/clipgauge_pipeline/storage_estimate.py:148-158 | a record contributes its total bitrate, or else what its video and audio have |
| StorageEstimate.BitrateIsExact | pipeline/clipgauge_pipeline/storage_estimate.py:159-162 | the least whole bytes that kilobits at the summed rate fill in the duration |
| StorageEstimate.MetadataSizeIsExact | pipeline/clipgauge_pipeline/storage_estimate.py:165-181 | own exact size, exact formats, own approximate size, approximate formats, bitrate, fallback, in this order |
| StorageEstimate.UrlIsExact | pipeline/clipgauge_pipeline/storage_estimate.py:184-198 | a source of unknown size counts 4 MiB a second and at least 512 MiB |
| StorageEstimate.RepeatedFormatIsIgnored | pipeline/clipgauge_pipeline/storage_estimate.py:112-198 | repeating an identified format record anywhere later never changes the URL estimate |
| StorageEstimate.UnidentifiedFormatIsCounted | pipeline/clipgauge_pipeline/storage_estimate.py:119-128 | a record without identity counts each time it appears |

## Left out

- Process spawning and signals, HTTP and TLS, keyring, ffmpeg and GPU probes, sqlite, zip and tar decoding: their results are arguments or environment steps.
- Lock poisoning, and the fallbacks for a poisoned lock.
- The `environment-initialize` child of the setup tool is never registered, so no cancel property covers it.
- Liveness of children and timers: a terminate request is recorded, when the child dies is not modelled.
- Wall-clock contents of heartbeat, lease and cache timestamps, which are copied and never compared.
- Download.DownloadVerified: failures of creating the directory, of stat and of unlink are left out; they raise before or after any change the theorems speak of.
- Archive.Workspace.ExtractArchive: the zip branch, file modes, letter case of Windows names and the relative spelling of symbolic links; a symbolic link is its resolved target. Removal of the staging directory is taken to succeed.
- Archive.Workspace.Publish: when removing the old tree fails because the archive lies in a nested folder, which files were already removed is an arbitrary set.
- InventoryCache.InventoryCache.AssetRow: display fields of a row that are functions of the spec, the persisted status and the details.
- PipelineInventory.DownloadManager.InventoryCached: display fields copied from the asset, and the manifest digest, which no lookup compares.
- ManagedDownload.Manager.DownloadAsset: assets whose archive is downloaded elsewhere than their destination, progress messages, and cancel requests made before the download begins, which the code discards.
- Files changing while one inventory runs.
- Diagnostics: the whole `redact` function, whose key-value rewriting is not idempotent, and a tail buffer of capacity zero.
- BoundedLine.ReadBoundedLine: errors of the underlying reader, which end the loop, and the activity callback.
- MediaRange.MediaServer.Dispatch: request parsing, Unicode spaces around a range, and stopping the server.
- Migration.Destination.CopyLegacyTree: symbolic links in the destination and a create_dir_all that fails after creating some of the folders above a path; within the walk those folders exist.
- Storage.ScanTree: directories that cannot be read, which count as empty.
- Storage.DataRoot.Cleanup: the stage rows of a deleted session; only its job row is modelled.
- StorageEstimate.AdmittedRunPasses: score-only replays, whose fixed estimate ignores stages.
- StorageEstimate.EstimateGrows: floating point rounding above 2^53; ceilings are exact.
- AttemptFilter.Shell.OnEvent: what each applied event shows; a `job` event is the only one that changes the refs.
- React components, text validators, argument allow-lists, exit classification and provider readiness, which are one-branch facts.
- Settings and creator-state round trips, which would only add record case analysis.
