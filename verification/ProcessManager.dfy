/** The table of heavy operations and the methods that update it
    (app/src-tauri/src/process_manager.rs).

    Every table operation is a function on the map of records, so that the
    multi-threaded protocol in module Lifecycle can use it as one atomic step;
    the class proves that each method performs exactly that step. */
module ProcessManager {
  import opened Wrappers

  datatype LifecycleState =
    | Queued | Starting | Running | Cancelling
    | Cancelled | Completed | Failed | Interrupted | Resumable
  {
    predicate Terminal() {
      Cancelled? || Completed? || Failed? || Interrupted? || Resumable?
    }
  }

  /** The reservation keys "run:<id>", "job:<job>", "edit:<job>:<clip>" and
      "setup:<id>": the prefixes make the four formats disjoint. */
  datatype OpKey =
    | RunKey(id: nat)
    | JobKey(job: string)
    | EditKey(job: string, clip: nat)
    | SetupKey(id: nat)

  /** A record's job id: its own reservation key, or an id printed by the child. */
  datatype JobId = Own(key: OpKey) | Emitted(id: string)

  datatype JobRecord = JobRecord(
    jobId: Option<JobId>,
    processId: Option<nat>,
    startedAt: nat,
    heartbeatAt: nat,
    stage: Option<string>,
    state: LifecycleState,
    cancelRequested: bool)

  datatype ReserveError = Busy | AlreadyActive
  datatype CancelError = NotOwned | NoLongerActive | NoProcessYet

  datatype Lease = Lease(
    session: string, jobId: JobId, processId: nat, startedAt: nat, heartbeatAt: nat,
    stage: Option<string>, state: LifecycleState)

  type Table = map<OpKey, JobRecord>

  /** The keys of the records that still count against the heavy-job limit. */
  function Heavy(active: Table): set<OpKey> {
    set k | k in active && !active[k].state.Terminal()
  }

  function FreshRecord(now: nat): JobRecord {
    JobRecord(None, None, now, now, None, Starting, false)
  }

  /** A terminal record under the requested key is dropped before the limit is
      checked, so a refusal for being busy still forgets it. */
  function Freed(active: Table, key: OpKey): Table {
    if key in active && active[key].state.Terminal() then active - {key} else active
  }

  function ReserveOutcome(active: Table, max: nat, key: OpKey): Result<OpKey, ReserveError> {
    if key in active && !active[key].state.Terminal() then Err(AlreadyActive)
    else if |Heavy(Freed(active, key))| >= max then Err(Busy)
    else Ok(key)
  }

  function AfterReserve(active: Table, max: nat, key: OpKey, now: nat): Table {
    if ReserveOutcome(active, max, key).Ok?
    then Freed(active, key)[key := FreshRecord(now)]
    else Freed(active, key)
  }

  function Registered(record: JobRecord, pid: nat, now: nat): JobRecord {
    record.(
      processId := Some(pid),
      state := if record.cancelRequested then Cancelling else Running,
      heartbeatAt := now)
  }

  function AfterAdopt(active: Table, key: OpKey, jobId: JobId): Table {
    if key in active then active[key := active[key].(jobId := Some(jobId))] else active
  }

  function AfterRegister(active: Table, key: OpKey, pid: nat, now: nat): Table {
    if key in active then active[key := Registered(active[key], pid, now)] else active
  }

  function AfterStage(active: Table, key: OpKey, stage: Option<string>, now: nat): Table {
    if key in active then active[key := active[key].(stage := stage, heartbeatAt := now)] else active
  }

  /** The keys a hash-map scan for this job id may return. */
  function Owners(active: Table, jobId: JobId): set<OpKey> {
    set k | k in active && active[k].jobId == Some(jobId)
  }

  /** `found` is the record the scan returned. */
  function AfterCancel(active: Table, found: OpKey): Table {
    if found in active && !active[found].state.Terminal()
    then active[found := active[found].(cancelRequested := true, state := Cancelling)]
    else active
  }

  function CancelOutcome(active: Table, found: OpKey): Result<nat, CancelError> {
    if found !in active then Err(NotOwned)
    else if active[found].state.Terminal() then Err(NoLongerActive)
    else if active[found].processId == None then Err(NoProcessYet)
    else Ok(active[found].processId.value)
  }

  predicate CancelRequested(active: Table, key: OpKey) {
    key in active && active[key].cancelRequested
  }

  function FinishState(record: JobRecord, success: bool): LifecycleState {
    if record.cancelRequested then Cancelled else if success then Completed else Failed
  }

  function Finished(record: JobRecord, success: bool, now: nat): JobRecord {
    record.(state := FinishState(record, success), heartbeatAt := now)
  }

  function AfterFinish(active: Table, key: OpKey, success: bool, now: nat): Table {
    if key in active then active[key := Finished(active[key], success, now)] else active
  }

  lemma FreedKeepsHeavy(active: Table, key: OpKey)
    ensures Heavy(Freed(active, key)) == Heavy(active)
  {
  }

  lemma InsertAddsHeavy(active: Table, key: OpKey, now: nat)
    requires key !in Heavy(active)
    ensures Heavy(active[key := FreshRecord(now)]) == Heavy(active) + {key}
    ensures |Heavy(active[key := FreshRecord(now)])| == |Heavy(active)| + 1
  {
    assert Heavy(active[key := FreshRecord(now)]) == Heavy(active) + {key};
  }

  /** A reservation succeeds exactly when the key is not live and fewer than
      `max` records are; it adds one live record and loses none, a refusal
      leaves the live records alone, so the limit is never exceeded. A record is live until
      it is cancelled, completed, failed, interrupted or resumable. */
  lemma ReserveKeepsLimit(active: Table, max: nat, key: OpKey, now: nat)
    ensures forall k :: k in Heavy(active) <==>
      k in active && active[k].state in {Queued, Starting, Running, Cancelling}
    ensures ReserveOutcome(active, max, key).Ok? <==> key !in Heavy(active) && |Heavy(active)| < max
    ensures ReserveOutcome(active, max, key) == Err(AlreadyActive) <==> key in Heavy(active)
    ensures Heavy(AfterReserve(active, max, key, now)) ==
            Heavy(active) + (if ReserveOutcome(active, max, key).Ok? then {key} else {})
    ensures |Heavy(active)| <= max ==> |Heavy(AfterReserve(active, max, key, now))| <= max
  {
    FreedKeepsHeavy(active, key);
    if key !in Heavy(active) {
      InsertAddsHeavy(Freed(active, key), key, now);
    }
  }

  /** A reservation attempt leaves every other record as it is. A granted one starts a fresh
      record; a refused one drops a finished record of its key. */
  lemma ReserveTouchesOneKey(active: Table, max: nat, key: OpKey, now: nat)
    ensures var after := AfterReserve(active, max, key, now);
      && (ReserveOutcome(active, max, key).Ok? ==>
          key in after && after[key] == JobRecord(None, None, now, now, None, Starting, false))
      && (ReserveOutcome(active, max, key).Err? ==> (key in after <==> key in Heavy(active)))
      && (forall k :: k in after && k != key ==> k in active && after[k] == active[k])
      && (forall k :: k in active && k != key ==> k in after && after[k] == active[k])
  {
  }

  class ProcessManager {
    const sessionId: string
    var active: Table
    var maxHeavyJobs: nat

    constructor (session: string)
      ensures active == map[] && maxHeavyJobs == 1 && sessionId == session
    {
      sessionId := session;
      active := map[];
      maxHeavyJobs := 1;
    }

    method Reserve(key: OpKey, now: nat) returns (r: Result<OpKey, ReserveError>)
      modifies this`active
      ensures r == ReserveOutcome(old(active), maxHeavyJobs, key)
      ensures active == AfterReserve(old(active), maxHeavyJobs, key, now)
      ensures |Heavy(old(active))| <= maxHeavyJobs ==> |Heavy(active)| <= maxHeavyJobs
    {
      ReserveKeepsLimit(active, maxHeavyJobs, key, now);
      if key in active {
        if !active[key].state.Terminal() {
          return Err(AlreadyActive);
        }
        active := active - {key};
      }
      if |Heavy(active)| >= maxHeavyJobs {
        return Err(Busy);
      }
      active := active[key := FreshRecord(now)];
      return Ok(key);
    }

    method AdoptJobId(key: OpKey, jobId: JobId) returns (ok: bool)
      modifies this`active
      ensures ok <==> key in old(active)
      ensures active == AfterAdopt(old(active), key, jobId)
      ensures active == if ok then old(active)[key := old(active)[key].(jobId := Some(jobId))] else old(active)
    {
      if key !in active {
        return false;
      }
      active := active[key := active[key].(jobId := Some(jobId))];
      return true;
    }

    method RegisterProcess(key: OpKey, pid: nat, now: nat) returns (ok: bool)
      modifies this`active
      ensures ok <==> key in old(active)
      ensures active == AfterRegister(old(active), key, pid, now)
      ensures ok ==>
        && active == old(active)[key := active[key]]
        && active[key].processId == Some(pid) && active[key].heartbeatAt == now
        && active[key].state == (if old(active)[key].cancelRequested then Cancelling else Running)
        && active[key].(processId := None, heartbeatAt := 0, state := Queued)
           == old(active)[key].(processId := None, heartbeatAt := 0, state := Queued)
    {
      if key !in active {
        return false;
      }
      var record := active[key].(processId := Some(pid));
      record := record.(state := if record.cancelRequested then Cancelling else Running);
      active := active[key := record.(heartbeatAt := now)];
      return true;
    }

    method UpdateStage(key: OpKey, stage: Option<string>, now: nat)
      modifies this`active
      ensures active == AfterStage(old(active), key, stage, now)
      ensures active == if key !in old(active) then old(active)
        else old(active)[key := old(active)[key].(stage := stage, heartbeatAt := now)]
    {
      if key in active {
        active := active[key := active[key].(stage := stage, heartbeatAt := now)];
      }
    }

    /** The scan over the hash map may return any record carrying the id. */
    method RequestCancel(jobId: JobId) returns (r: Result<nat, CancelError>, ghost found: Option<OpKey>)
      modifies this`active
      ensures found.None? <==> Owners(old(active), jobId) == {}
      ensures found.None? ==> r == Err(NotOwned) && active == old(active)
      ensures found.Some? ==>
        && found.value in Owners(old(active), jobId)
        && r == CancelOutcome(old(active), found.value)
        && active == AfterCancel(old(active), found.value)
      ensures r == Err(NoLongerActive) ==>
        found.Some? && old(active)[found.value].state.Terminal() && active == old(active)
      ensures r.Ok? || r == Err(NoProcessYet) ==>
        && found.Some? && !old(active)[found.value].state.Terminal()
        && active == old(active)[found.value := active[found.value]]
        && active[found.value] == old(active)[found.value].(cancelRequested := true, state := Cancelling)
        && active[found.value].processId == (if r.Ok? then Some(r.value) else None)
    {
      if Owners(active, jobId) == {} {
        return Err(NotOwned), None;
      }
      var key :| key in Owners(active, jobId);
      found := Some(key);
      if active[key].state.Terminal() {
        return Err(NoLongerActive), found;
      }
      active := active[key := active[key].(cancelRequested := true, state := Cancelling)];
      match active[key].processId
      case None => return Err(NoProcessYet), found;
      case Some(pid) => return Ok(pid), found;
    }

    /** Holds exactly when finishing now would leave the record Cancelled, even after success. */
    method IsCancelRequested(key: OpKey) returns (r: bool)
      ensures r == CancelRequested(active, key)
      ensures r <==> key in active && FinishState(active[key], true) == Cancelled
      ensures r ==> forall success, now :: AfterFinish(active, key, success, now)[key].state == Cancelled
    {
      r := key in active && active[key].cancelRequested;
    }

    method Finish(key: OpKey, success: bool, now: nat) returns (r: Option<LifecycleState>)
      modifies this`active
      ensures active == AfterFinish(old(active), key, success, now)
      ensures r == if key in old(active) then Some(FinishState(old(active)[key], success)) else None
      ensures r.Some? ==> r.value.Terminal() && active[key].state == r.value && active[key].heartbeatAt == now
      ensures r.Some? ==>
        r.value == if old(active)[key].cancelRequested then Cancelled else if success then Completed else Failed
      ensures Heavy(active) == Heavy(old(active)) - {key}
    {
      if key !in active {
        return None;
      }
      var state := FinishState(active[key], success);
      active := active[key := active[key].(state := state, heartbeatAt := now)];
      return Some(state);
    }

    method MakeLease(key: OpKey) returns (r: Option<Lease>)
      ensures r.Some? <==> key in active
      ensures r.Some? ==>
        && r.value.session == sessionId
        && r.value.state == active[key].state
        && r.value.jobId == (if active[key].jobId.Some? then active[key].jobId.value else Own(key))
        && r.value.processId == (if active[key].processId.Some? then active[key].processId.value else 0)
        && r.value.stage == active[key].stage
        && r.value.startedAt == active[key].startedAt && r.value.heartbeatAt == active[key].heartbeatAt
    {
      if key !in active {
        return None;
      }
      var record := active[key];
      var jobId := if record.jobId.Some? then record.jobId.value else Own(key);
      var pid := if record.processId.Some? then record.processId.value else 0;
      return Some(Lease(sessionId, jobId, pid, record.startedAt, record.heartbeatAt, record.stage, record.state));
    }
  }
}
