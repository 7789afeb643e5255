/** The worker threads of app/src-tauri/src/main.rs (run_job, resume_job,
    run_edit_render, start_setup, stream_pipeline, stream_setup) and the cancelling
    threads (cancel_job, cancel_setup) as a step system.

    Every section that holds the process-table lock, and every locked section of
    the initialization coordinator, is one atomic step; a worker carries a program
    counter for the point it has reached between two sections. The environment
    (spawning, child output, exit codes, timing) is the choice of steps and of
    their arguments. */
module Lifecycle {
  import opened Wrappers
  import opened ProcessManager
  import IC = InitializationCoordinator

  /** A JSON line of the child's output. `completion` says that its event is
      "terminal" or "result". */
  datatype Value = Value(completion: bool, ok: bool, jobId: Option<string>, stage: Option<string>, body: string)

  /** What read_bounded_line and the JSON parser made of one line. */
  datatype Line = Rejected | Json(value: Value)

  datatype Code =
    | CancelledCode | InitFailedCode | StartFailedCode
    | PayloadCode(value: Value) | NativeExitCode                  // stream_pipeline
    | SetupTimedOutCode | SetupOkCode | SetupFailedCode           // stream_setup

  datatype Pc =
    | Adopting                          // start_setup, between its two locked sections
    | EnterInit                         // calling ensure_initialized, possibly parked in it
    | RunInit                           // executing the initializer, no child yet
    | InitSpawned(pid: nat)
    | InitRegistered(pid: nat)
    | InitFailed                        // setup: about to read the cancel flag
    | CheckCancel                       // setup: initialized, about to read the cancel flag
    | Spawning
    | Spawned(pid: nat)
    | Terminating(pid: nat)             // setup: registration saw the cancel flag
    | Streaming(pid: nat)
    | Forwarding(pid: nat, value: Value) // job id adopted, event not emitted yet
    | ReadingFlag                       // child reaped, about to read the cancel flag
    | Finishing(success: bool, code: Code)
    | Emitting(code: Code)
    | Done(code: Code)

  datatype Worker = Worker(key: OpKey, pc: Pc, lines: seq<Line>, outcome: Option<LifecycleState>)
  {
    /** Reserved and not yet finished. */
    predicate Alive() { !pc.Emitting? && !pc.Done? }

    /** The child that is registered and not yet reaped. */
    function Child(): Option<nat> {
      match pc
      case InitRegistered(p) => Some(p)
      case Terminating(p) => Some(p)
      case Streaming(p) => Some(p)
      case Forwarding(p, _) => Some(p)
      case _ => None
    }
  }

  datatype Event = Forwarded(worker: nat, value: Value) | Completion(worker: nat, code: Code)

  datatype State = State(
    active: Table,
    maxHeavy: nat,
    workers: map<nat, Worker>,
    usedIds: set<nat>,       // ids given to run and setup keys
    pids: set<nat>,          // children spawned so far
    terminated: set<nat>,    // children that were sent a terminate request
    pending: set<nat>,       // cancel_job released the lock and is about to terminate
    log: seq<Event>,
    coord: IC.Coord)

  datatype Step =
    | Reserve(w: nat, key: OpKey, now: nat)
    | Refused(key: OpKey, now: nat)
    | AdoptSetup(w: nat)
    | InitEnter(w: nat)
    | InitSpawn(w: nat, pid: nat)
    | InitRegister(w: nat, now: nat)
    | InitEnd(w: nat, result: IC.InitResult)
    | OtherInit(coordStep: IC.Step)   // setup_tool callers, spurious wakeups
    | ReadInitFailed(w: nat)
    | CheckAfterInit(w: nat)
    | SpawnFail(w: nat)
    | Spawn(w: nat, pid: nat)
    | Register(w: nat, now: nat)
    | Terminate(w: nat)
    | ReadLine(w: nat, line: Line, now: nat)
    | ForwardLine(w: nat)
    | EndOfStream(w: nat)
    | ReadFlag(w: nat)
    | SetupFinish(w: nat, success: bool, timedOut: bool, now: nat)
    | Finish(w: nat, now: nat)
    | Emit(w: nat)
    | CancelSetup(key: OpKey, found: OpKey)
    | CancelJob(id: string, found: OpKey)
    | KillPending(pid: nat)

  function Initial(maxHeavy: nat): State {
    State(map[], maxHeavy, map[], {}, {}, {}, {}, [], IC.START)
  }

  predicate IsSetup(x: Worker) { x.key.SetupKey? }

  predicate FreshKey(key: OpKey) { key.RunKey? || key.SetupKey? }

  predicate KeyUnused(s: State, key: OpKey) { FreshKey(key) ==> key.id !in s.usedIds }

  function StartPc(key: OpKey): Pc {
    match key
    case RunKey(_) => EnterInit
    case SetupKey(_) => Adopting
    case _ => Spawning
  }

  function AfterInitOk(key: OpKey): Pc { if key.SetupKey? then CheckCancel else Spawning }

  /** The payload stream_pipeline holds after these lines: the last completion wins. */
  function LastCompletion(lines: seq<Line>): Option<Value> {
    if lines == [] then None
    else if lines[|lines| - 1].Json? && lines[|lines| - 1].value.completion then Some(lines[|lines| - 1].value)
    else LastCompletion(lines[..|lines| - 1])
  }

  /** What one step of a worker does: its new state, the new content of its own
      record, and what it adds to the shared sets. */
  datatype Effect = Effect(
    x: Worker, r: JobRecord, coord: IC.Coord, spawned: set<nat>, killed: set<nat>, events: seq<Event>)

  /** The steps of a worker `x` in thread `w` whose record is `r`. A live worker
      always has a record (predicate Ownership below), so nothing is lost by
      describing its table updates on the record itself. */
  function WorkerStep(s: State, step: Step, x: Worker, r: JobRecord): Option<Effect>
    requires IsWorkerStep(step)
  {
    var same := Effect(x, r, s.coord, {}, {}, []);
    match step
    case AdoptSetup(_) =>
      if !x.pc.Adopting? then None else
      Some(same.(x := x.(pc := EnterInit), r := r.(jobId := Some(Own(x.key)))))
    case InitEnter(w) =>
      if !x.pc.EnterInit? || !IC.Enabled(s.coord, IC.Enter(w)) then None else
      var c := IC.Apply(s.coord, IC.Enter(w));
      Some(same.(coord := c, x := x.(pc :=
        match c.phase[w]
        case ReturnedOk => AfterInitOk(x.key)
        case Initializing => RunInit
        case _ => EnterInit)))
    case InitSpawn(_, pid) =>
      if !x.pc.RunInit? || pid in s.pids then None else
      Some(same.(x := x.(pc := InitSpawned(pid)), spawned := {pid}))
    case InitRegister(_, now) =>
      if !x.pc.InitSpawned? then None else
      var pid := x.pc.pid;
      Some(same.(x := x.(pc := InitRegistered(pid)),
                 r := Registered(r.(jobId := Some(Own(x.key))), pid, now),
                 killed := if r.cancelRequested then {pid} else {}))
    case InitEnd(w, result) =>
      if !(x.pc.InitRegistered? || (x.pc.RunInit? && !result.Succeeded?))
         || !IC.Enabled(s.coord, IC.End(w, result)) then None else
      Some(same.(coord := IC.Apply(s.coord, IC.End(w, result)), x := x.(pc :=
        if result.Succeeded? then AfterInitOk(x.key)
        else if IsSetup(x) then InitFailed else Finishing(false, InitFailedCode))))
    case ReadInitFailed(_) =>
      if !x.pc.InitFailed? then None else
      Some(same.(x := x.(pc := Finishing(false, if r.cancelRequested then CancelledCode else InitFailedCode))))
    case CheckAfterInit(_) =>
      if !x.pc.CheckCancel? then None else
      Some(same.(x := x.(pc := if r.cancelRequested then Finishing(false, CancelledCode) else Spawning)))
    case SpawnFail(_) =>
      if !x.pc.Spawning? then None else Some(same.(x := x.(pc := Finishing(false, StartFailedCode))))
    case Spawn(_, pid) =>
      if !x.pc.Spawning? || pid in s.pids then None else
      Some(same.(x := x.(pc := Spawned(pid)), spawned := {pid}))
    case Register(_, now) =>
      if !x.pc.Spawned? then None else
      var pid := x.pc.pid;
      var adopted := if IsSetup(x) then r.(jobId := Some(Own(x.key))) else r;
      Some(same.(r := Registered(adopted, pid, now),
                 x := x.(pc := if IsSetup(x) && r.cancelRequested then Terminating(pid) else Streaming(pid))))
    case Terminate(_) =>
      if !x.pc.Terminating? then None else
      Some(same.(x := x.(pc := Streaming(x.pc.pid)), killed := {x.pc.pid}))
    case ReadLine(w, line, now) =>
      if !x.pc.Streaming? then None
      else if line.Json? && !IsSetup(x) && !line.value.completion && line.value.jobId.Some? then
        Some(same.(x := x.(pc := Forwarding(x.pc.pid, line.value)),
                   r := r.(jobId := Some(Emitted(line.value.jobId.value)), stage := line.value.stage,
                           heartbeatAt := now)))
      else
        Some(same.(x := x.(lines := x.lines + [line]), events := Forwards(w, x.key, line)))
    case ForwardLine(w) =>
      if !x.pc.Forwarding? then None else
      var line := Json(x.pc.value);
      Some(same.(x := x.(lines := x.lines + [line], pc := Streaming(x.pc.pid)), events := Forwards(w, x.key, line)))
    case EndOfStream(_) =>
      if !x.pc.Streaming? || IsSetup(x) then None else Some(same.(x := x.(pc := ReadingFlag)))
    case ReadFlag(_) =>
      if !x.pc.ReadingFlag? then None else
      var payload := LastCompletion(x.lines);
      Some(same.(x := x.(pc :=
        if r.cancelRequested then Finishing(false, CancelledCode)
        else if payload.Some? then Finishing(payload.value.ok, PayloadCode(payload.value))
        else Finishing(false, NativeExitCode))))
    case SetupFinish(_, success, timedOut, now) =>
      if !x.pc.Streaming? || !IsSetup(x) || (timedOut && success) then None else
      var code :=
        if r.cancelRequested then CancelledCode
        else if timedOut then SetupTimedOutCode
        else if success then SetupOkCode
        else SetupFailedCode;
      var ok := success && !r.cancelRequested;
      Some(same.(x := x.(pc := Emitting(code), outcome := Some(FinishState(r, ok))), r := Finished(r, ok, now),
                 killed := if timedOut then {x.pc.pid} else {}))
    case Finish(_, now) =>
      if !x.pc.Finishing? then None else
      Some(same.(x := x.(pc := Emitting(x.pc.code), outcome := Some(FinishState(r, x.pc.success))),
                 r := Finished(r, x.pc.success, now)))
  }

  /** The events a processed line forwards: stream_pipeline keeps completion
      payloads back, stream_setup forwards every JSON line. */
  function Forwards(w: nat, key: OpKey, line: Line): seq<Event> {
    if line.Json? && (key.SetupKey? || !line.value.completion) then [Forwarded(w, line.value)] else []
  }

  predicate IsWorkerStep(step: Step) {
    !step.Reserve? && !step.Refused? && !step.OtherInit? && !step.Emit?
    && !step.CancelSetup? && !step.CancelJob? && !step.KillPending?
  }

  /** The state after one step, or None when the step is not possible. */
  function Next(s: State, step: Step): Option<State> {
    if IsWorkerStep(step) then NextOfWorker(s, step) else NextOfTable(s, step)
  }

  function NextOfWorker(s: State, step: Step): Option<State>
    requires IsWorkerStep(step)
  {
    if step.w in s.workers && s.workers[step.w].key in s.active then
      var x := s.workers[step.w];
      var e := WorkerStep(s, step, x, s.active[x.key]);
      if e.Some? then Some(Update(s, step.w, x.key, e.value)) else None
    else None
  }

  function NextOfTable(s: State, step: Step): Option<State>
    requires !IsWorkerStep(step)
  {
    match step
    case Reserve(w, key, now) =>
      if w !in s.workers && w !in s.coord.phase && KeyUnused(s, key)
         && ReserveOutcome(s.active, s.maxHeavy, key).Ok? then
        Some(s.(active := AfterReserve(s.active, s.maxHeavy, key, now),
                workers := s.workers[w := Worker(key, StartPc(key), [], None)],
                usedIds := if FreshKey(key) then s.usedIds + {key.id} else s.usedIds))
      else None
    case Refused(key, now) =>
      if KeyUnused(s, key) && ReserveOutcome(s.active, s.maxHeavy, key).Err? then
        Some(s.(active := AfterReserve(s.active, s.maxHeavy, key, now)))
      else None
    case OtherInit(c) =>
      if IC.Enabled(s.coord, c) && (c.thread in s.workers ==> c.SpuriousWake?)
      then Some(s.(coord := IC.Apply(s.coord, c))) else None
    case CancelSetup(key, found) =>
      if key.SetupKey? && found in Owners(s.active, Own(key)) then
        var r := CancelOutcome(s.active, found);
        Some(s.(active := AfterCancel(s.active, found),
                terminated := if r.Ok? then s.terminated + {r.value} else s.terminated))
      else None
    case CancelJob(id, found) =>
      if found in Owners(s.active, Emitted(id)) then
        var r := CancelOutcome(s.active, found);
        Some(s.(active := AfterCancel(s.active, found),
                pending := if r.Ok? then s.pending + {r.value} else s.pending))
      else None
    case KillPending(pid) =>
      if pid in s.pending then Some(s.(pending := s.pending - {pid}, terminated := s.terminated + {pid})) else None
    case Emit(w) =>
      if w in s.workers && s.workers[w].pc.Emitting? then
        var x := s.workers[w];
        Some(s.(log := s.log + [Completion(w, x.pc.code)], workers := s.workers[w := x.(pc := Done(x.pc.code))]))
      else None
  }

  function Update(s: State, w: nat, key: OpKey, e: Effect): State {
    s.(active := s.active[key := e.r],
       workers := s.workers[w := e.x],
       pids := s.pids + e.spawned,
       terminated := s.terminated + e.killed,
       log := s.log + e.events,
       coord := e.coord)
  }

  ghost predicate IsRun(run: seq<State>, steps: seq<Step>) {
    && |run| == |steps| + 1
    && run[0] == Initial(run[0].maxHeavy)
    && forall i {:trigger steps[i]} :: 0 <= i < |steps| ==> Next(run[i], steps[i]) == Some(run[i + 1])
  }

  /** The table after a worker step is what the process manager's methods leave
      when called in the order of the locked section. */
  function ManagerCalls(s: State, step: Step, x: Worker): Table
    requires IsWorkerStep(step)
  {
    var active, key := s.active, x.key;
    match step
    case AdoptSetup(_) => AfterAdopt(active, key, Own(key))
    case InitRegister(_, now) =>
      if x.pc.InitSpawned? then AfterRegister(AfterAdopt(active, key, Own(key)), key, x.pc.pid, now) else active
    case Register(_, now) =>
      if x.pc.Spawned? then
        AfterRegister(if IsSetup(x) then AfterAdopt(active, key, Own(key)) else active, key, x.pc.pid, now)
      else active
    case ReadLine(_, line, now) =>
      if line.Json? && !IsSetup(x) && !line.value.completion && line.value.jobId.Some? then
        AfterStage(AfterAdopt(active, key, Emitted(line.value.jobId.value)), key, line.value.stage, now)
      else active
    case SetupFinish(_, success, _, now) =>
      AfterFinish(active, key, success && !CancelRequested(active, key), now)
    case Finish(_, now) => if x.pc.Finishing? then AfterFinish(active, key, x.pc.success, now) else active
    case _ => active
  }

  lemma StepsAreManagerCalls(s: State, step: Step)
    requires IsWorkerStep(step) && NextOfWorker(s, step).Some?
    ensures NextOfWorker(s, step).value.active == ManagerCalls(s, step, s.workers[step.w])
  {
    var x := s.workers[step.w];
    var e := WorkerStep(s, step, x, s.active[x.key]).value;
    assert ManagerCalls(s, step, x) == s.active[x.key := e.r];
  }

  // ---------- ownership of live records ----------

  ghost predicate Owns(s: State, w: nat, k: OpKey) {
    w in s.workers && s.workers[w].Alive() && s.workers[w].key == k
  }

  ghost predicate Ownership(s: State) {
    && (forall w :: w in s.workers && s.workers[w].Alive() ==> s.workers[w].key in Heavy(s.active))
    && (forall v, w :: v in s.workers && w in s.workers && s.workers[v].Alive() && s.workers[w].Alive() && v != w
          ==> s.workers[v].key != s.workers[w].key)
    && (forall k :: k in Heavy(s.active) ==> exists w :: Owns(s, w, k))
    && |Heavy(s.active)| <= s.maxHeavy
  }

  /** A change of the table at one key. */
  lemma HeavyAfterUpdate(active: Table, k: OpKey, r: JobRecord)
    ensures Heavy(active[k := r]) == if r.state.Terminal() then Heavy(active) - {k} else Heavy(active) + {k}
  {
  }

  lemma OnlyLiveWorkersAct(s: State, step: Step, x: Worker, r: JobRecord)
    requires IsWorkerStep(step) && WorkerStep(s, step, x, r).Some?
    ensures x.Alive() && WorkerStep(s, step, x, r).value.x.key == x.key
  {
  }

  /** A live worker's record becomes terminal exactly when it finishes. */
  lemma FinishEndsOwnership(s: State, step: Step, x: Worker, r: JobRecord)
    requires IsWorkerStep(step) && WorkerStep(s, step, x, r).Some?
    requires !r.state.Terminal()
    ensures var e := WorkerStep(s, step, x, r).value;
      e.r.state.Terminal() <==> !e.x.Alive()
  {
  }

  lemma OwnershipAfterUpdate(s: State, w: nat, e: Effect)
    requires Ownership(s) && w in s.workers && s.workers[w].Alive()
    requires e.x.key == s.workers[w].key
    requires e.r.state.Terminal() <==> !e.x.Alive()
    ensures Ownership(Update(s, w, e.x.key, e))
  {
    var t := Update(s, w, e.x.key, e);
    HeavyAfterUpdate(s.active, e.x.key, e.r);
    forall k | k in Heavy(t.active) ensures exists v :: Owns(t, v, k) {
      var v :| Owns(s, v, k);
      assert Owns(t, v, k);
    }
  }

  /** A change that leaves the live keys and the workers alone. */
  lemma OwnershipOfSameHeavy(s: State, t: State)
    requires Ownership(s)
    requires Heavy(t.active) == Heavy(s.active) && t.maxHeavy == s.maxHeavy
    requires t.workers.Keys == s.workers.Keys
    requires forall w :: w in s.workers ==>
      t.workers[w].key == s.workers[w].key && t.workers[w].Alive() == s.workers[w].Alive()
    ensures Ownership(t)
  {
    forall k | k in Heavy(t.active) ensures exists w :: Owns(t, w, k) {
      var w :| Owns(s, w, k);
      assert Owns(t, w, k);
    }
  }

  lemma OwnershipAfterReserve(s: State, t: State, w: nat, x: Worker)
    requires Ownership(s)
    requires w !in s.workers && x.Alive() && t.workers == s.workers[w := x]
    requires x.key !in Heavy(s.active) && Heavy(t.active) == Heavy(s.active) + {x.key}
    requires t.maxHeavy == s.maxHeavy && |Heavy(t.active)| <= s.maxHeavy
    ensures Ownership(t)
  {
    assert forall v :: v in s.workers && s.workers[v].Alive() ==> s.workers[v].key != x.key;
    forall k | k in Heavy(t.active) ensures exists v :: Owns(t, v, k) {
      OwnerAfterReserve(s, t, w, x, k);
    }
  }

  lemma OwnerAfterReserve(s: State, t: State, w: nat, x: Worker, k: OpKey)
    requires w !in s.workers && x.Alive() && t.workers == s.workers[w := x]
    requires k == x.key || exists v :: Owns(s, v, k)
    ensures exists v :: Owns(t, v, k)
  {
    if k == x.key {
      assert Owns(t, w, k);
    } else {
      var v :| Owns(s, v, k);
      assert Owns(t, v, k);
    }
  }

  lemma CancelKeepsHeavy(active: Table, found: OpKey)
    ensures Heavy(AfterCancel(active, found)) == Heavy(active)
  {
  }

  lemma WorkerStepKeepsOwnership(s: State, step: Step)
    requires Ownership(s) && IsWorkerStep(step) && NextOfWorker(s, step).Some?
    ensures Ownership(NextOfWorker(s, step).value)
  {
    var x := s.workers[step.w];
    var r := s.active[x.key];
    OnlyLiveWorkersAct(s, step, x, r);
    FinishEndsOwnership(s, step, x, r);
    OwnershipAfterUpdate(s, step.w, WorkerStep(s, step, x, r).value);
  }

  lemma ReservationKeepsOwnership(s: State, step: Step)
    requires Ownership(s) && (step.Reserve? || step.Refused?) && NextOfTable(s, step).Some?
    ensures Ownership(NextOfTable(s, step).value)
  {
    var t := NextOfTable(s, step).value;
    ReserveKeepsLimit(s.active, s.maxHeavy, step.key, step.now);
    if step.Reserve? {
      OwnershipAfterReserve(s, t, step.w, t.workers[step.w]);
    } else {
      OwnershipOfSameHeavy(s, t);
    }
  }

  lemma CancelKeepsOwnership(s: State, step: Step)
    requires Ownership(s) && (step.CancelSetup? || step.CancelJob?) && NextOfTable(s, step).Some?
    ensures Ownership(NextOfTable(s, step).value)
  {
    CancelKeepsHeavy(s.active, step.found);
    OwnershipOfSameHeavy(s, NextOfTable(s, step).value);
  }

  lemma TableStepKeepsOwnership(s: State, step: Step)
    requires Ownership(s) && !IsWorkerStep(step) && NextOfTable(s, step).Some?
    ensures Ownership(NextOfTable(s, step).value)
  {
    if step.Reserve? || step.Refused? {
      ReservationKeepsOwnership(s, step);
    } else if step.CancelSetup? || step.CancelJob? {
      CancelKeepsOwnership(s, step);
    } else {
      OwnershipOfSameHeavy(s, NextOfTable(s, step).value);
    }
  }

  // ---------- what a worker knows about its record ----------

  predicate RecordOk(key: OpKey, r: JobRecord) {
    && (if r.state.Terminal()
        then
          && (r.state.Cancelled? || r.state.Completed? || r.state.Failed?)
          && (r.state.Cancelled? <==> r.cancelRequested)
        else
          && (r.state.Starting? || r.state.Running? || r.state.Cancelling?)
          && (r.state.Cancelling? <==> r.cancelRequested))
    && (r.jobId.Some? && r.jobId.value.Own? ==> r.jobId.value.key == key)
    && (key.SetupKey? && r.jobId.Some? ==> r.jobId.value.Own?)
  }

  predicate InInitializer(pc: Pc) { pc.RunInit? || pc.InitSpawned? || pc.InitRegistered? }

  /** The program points each kind of operation can be at. */
  predicate PcFits(key: OpKey, pc: Pc) {
    && (key.SetupKey? ==> !pc.Forwarding? && !pc.ReadingFlag?)
    && (!key.SetupKey? ==> !pc.Adopting? && !pc.InitFailed? && !pc.CheckCancel? && !pc.Terminating?)
    && (key.JobKey? || key.EditKey? ==> !pc.EnterInit? && !InInitializer(pc))
    && (pc.Finishing? || pc.Emitting? || pc.Done? ==>
          if key.SetupKey? then !pc.code.PayloadCode? && !pc.code.NativeExitCode?
          else !pc.code.SetupOkCode? && !pc.code.SetupTimedOutCode? && !pc.code.SetupFailedCode?)
  }

  /** The record a worker ends with, given the completion event it emits. */
  predicate OutcomeFits(code: Code, outcome: LifecycleState, lines: seq<Line>) {
    match code
    case CancelledCode => outcome == Cancelled
    case SetupOkCode => outcome == Completed
    case SetupTimedOutCode => outcome == Failed
    case SetupFailedCode => outcome == Failed
    case PayloadCode(v) =>
      LastCompletion(lines) == Some(v) && (outcome == Cancelled || outcome == if v.ok then Completed else Failed)
    case _ => outcome == Cancelled || outcome == Failed
  }

  predicate OutcomeOk(x: Worker) {
    match x.pc
    case Emitting(code) => x.outcome.Some? && OutcomeFits(code, x.outcome.value, x.lines)
    case Done(code) => x.outcome.Some? && OutcomeFits(code, x.outcome.value, x.lines)
    case Finishing(success, code) =>
      && x.outcome.None?
      && !code.SetupOkCode? && !code.SetupTimedOutCode? && !code.SetupFailedCode?
      && (code.PayloadCode? ==> LastCompletion(x.lines) == Some(code.value))
      && (success <==> code.PayloadCode? && code.value.ok)
    case _ => x.outcome.None?
  }

  /** A setup operation with a cancel request has sent every registered, unreaped
      child a terminate request, or is at the point of sending it. */
  predicate CancelReachesChild(x: Worker, r: JobRecord, terminated: set<nat>) {
    x.Child().Some? ==>
      && r.processId == x.Child()
      && (r.cancelRequested ==> x.Child().value in terminated || x.pc.Terminating?)
      && (x.pc.Terminating? ==> r.cancelRequested)
  }

  predicate RecordFits(x: Worker, r: JobRecord, terminated: set<nat>) {
    if x.Alive() then
      && (x.pc.Finishing? && x.pc.code.CancelledCode? ==> r.cancelRequested)
      && (IsSetup(x) && !x.pc.Adopting? ==> r.jobId == Some(Own(x.key)))
      && (IsSetup(x) ==> CancelReachesChild(x, r, terminated))
    else x.outcome == Some(r.state)
  }

  ghost predicate WorkerOk(s: State, w: nat)
    requires w in s.workers
  {
    var x := s.workers[w];
    && PcFits(x.key, x.pc)
    && OutcomeOk(x)
    && (FreshKey(x.key) ==> x.key.id in s.usedIds)
    && (InInitializer(x.pc) <==> IC.IsInitializing(s.coord, w))
    && (x.Alive() || IsSetup(x) ==> x.key in s.active && RecordFits(x, s.active[x.key], s.terminated))
  }

  ghost predicate SetupKeysDistinct(s: State) {
    forall v, w :: v in s.workers && w in s.workers && v != w && IsSetup(s.workers[v])
      ==> s.workers[v].key != s.workers[w].key
  }

  ghost predicate Inv(s: State) {
    && Ownership(s)
    && (forall k :: k in s.active ==> RecordOk(k, s.active[k]))
    && (forall w :: w in s.workers ==> WorkerOk(s, w))
    && SetupKeysDistinct(s)
    && IC.Inv(s.coord)
  }

  lemma WorkerStepKeepsRecord(s: State, step: Step, x: Worker, r: JobRecord)
    requires IsWorkerStep(step) && WorkerStep(s, step, x, r).Some?
    requires RecordOk(x.key, r) && PcFits(x.key, x.pc) && !r.state.Terminal()
    ensures RecordOk(x.key, WorkerStep(s, step, x, r).value.r)
  {
  }

  lemma WorkerStepKeepsPc(s: State, step: Step, x: Worker, r: JobRecord)
    requires IsWorkerStep(step) && WorkerStep(s, step, x, r).Some?
    requires PcFits(x.key, x.pc) && OutcomeOk(x)
    requires x.pc.Finishing? && x.pc.code.CancelledCode? ==> r.cancelRequested
    ensures var e := WorkerStep(s, step, x, r).value; PcFits(x.key, e.x.pc) && OutcomeOk(e.x)
  {
  }

  lemma WorkerStepKeepsFit(s: State, step: Step, x: Worker, r: JobRecord)
    requires IsWorkerStep(step) && WorkerStep(s, step, x, r).Some?
    requires PcFits(x.key, x.pc) && x.Alive() && RecordFits(x, r, s.terminated)
    ensures var e := WorkerStep(s, step, x, r).value; RecordFits(e.x, e.r, s.terminated + e.killed)
  {
  }

  /** What a step does to the coordinator, seen from the worker that takes it. */
  lemma WorkerStepKeepsCoord(s: State, step: Step, x: Worker, r: JobRecord)
    requires IsWorkerStep(step) && WorkerStep(s, step, x, r).Some?
    requires PcFits(x.key, x.pc) && IC.Inv(s.coord) && (InInitializer(x.pc) <==> IC.IsInitializing(s.coord, step.w))
    ensures var e := WorkerStep(s, step, x, r).value;
      && IC.Inv(e.coord)
      && (InInitializer(e.x.pc) <==> IC.IsInitializing(e.coord, step.w))
      && (forall v :: v != step.w ==> (IC.IsInitializing(e.coord, v) <==> IC.IsInitializing(s.coord, v)))
  {
    match step
    case InitEnter(w) => IC.StepKeepsInv(s.coord, IC.Enter(w));
    case InitEnd(w, result) => IC.StepKeepsInv(s.coord, IC.End(w, result));
    case _ =>
  }

  lemma WorkerStepKeepsInv(s: State, step: Step)
    requires Inv(s) && IsWorkerStep(step) && NextOfWorker(s, step).Some?
    ensures Inv(NextOfWorker(s, step).value)
  {
    var t := NextOfWorker(s, step).value;
    var w, x := step.w, s.workers[step.w];
    var r := s.active[x.key];
    OnlyLiveWorkersAct(s, step, x, r);
    WorkerStepKeepsOwnership(s, step);
    assert WorkerOk(s, w);
    WorkerStepKeepsRecord(s, step, x, r);
    WorkerStepKeepsPc(s, step, x, r);
    WorkerStepKeepsFit(s, step, x, r);
    WorkerStepKeepsCoord(s, step, x, r);
    UpdateKeepsWorkers(s, t, w, WorkerStep(s, step, x, r).value);
  }

  /** The other workers do not notice. */
  lemma UpdateKeepsWorkers(s: State, t: State, w: nat, e: Effect)
    requires Inv(s) && w in s.workers && s.workers[w].Alive() && e.x.key == s.workers[w].key
    requires t == Update(s, w, e.x.key, e)
    requires PcFits(e.x.key, e.x.pc) && OutcomeOk(e.x) && RecordFits(e.x, e.r, t.terminated)
    requires InInitializer(e.x.pc) <==> IC.IsInitializing(e.coord, w)
    requires forall v :: v != w ==> (IC.IsInitializing(e.coord, v) <==> IC.IsInitializing(s.coord, v))
    ensures forall v :: v in t.workers ==> WorkerOk(t, v)
    ensures SetupKeysDistinct(t)
  {
    assert WorkerOk(s, w);
    forall v | v in t.workers ensures WorkerOk(t, v) {
      if v != w {
        assert WorkerOk(s, v);
        var y := s.workers[v];
        assert t.workers[v] == y;
        if y.Alive() || IsSetup(y) {
          assert y.key != e.x.key;
        }
      }
    }
  }

  /** A worker that is live, or a setup operation, has a key nobody can reserve. */
  lemma ReserveSparesOthers(s: State, t: State, w: nat, v: nat, key: OpKey)
    requires Inv(s) && v in s.workers && v != w && key !in Heavy(s.active) && KeyUnused(s, key)
    requires t.workers == s.workers[w := Worker(key, StartPc(key), [], None)]
    requires s.usedIds <= t.usedIds && t.coord == s.coord && t.terminated == s.terminated
    requires forall k :: k != key && k in s.active ==> k in t.active && t.active[k] == s.active[k]
    ensures WorkerOk(t, v)
    ensures IsSetup(s.workers[v]) ==> s.workers[v].key != key
  {
    assert WorkerOk(s, v);
  }

  lemma ReserveAddsWorker(s: State, t: State, w: nat, key: OpKey, now: nat)
    requires Inv(s) && w !in s.workers && w !in s.coord.phase && key !in Heavy(s.active) && KeyUnused(s, key)
    requires t.workers == s.workers[w := Worker(key, StartPc(key), [], None)]
    requires t.usedIds == (if FreshKey(key) then s.usedIds + {key.id} else s.usedIds)
    requires t.coord == s.coord && t.terminated == s.terminated
    requires forall k :: k != key && k in s.active ==> k in t.active && t.active[k] == s.active[k]
    requires key in t.active && t.active[key] == FreshRecord(now)
    ensures forall v :: v in t.workers ==> WorkerOk(t, v)
    ensures SetupKeysDistinct(t)
  {
    forall v | v in s.workers
      ensures WorkerOk(t, v) && (IsSetup(t.workers[v]) ==> t.workers[v].key != key)
    {
      ReserveSparesOthers(s, t, w, v, key);
    }
  }

  lemma ReserveKeepsRecords(s: State, active: Table, key: OpKey, now: nat)
    requires Inv(s)
    requires forall k :: k in active && k != key ==> k in s.active && active[k] == s.active[k]
    requires key in active ==> active[key] == FreshRecord(now)
    ensures forall k :: k in active ==> RecordOk(k, active[k])
  {
  }

  lemma ReserveKeepsInv(s: State, t: State, w: nat, key: OpKey, now: nat)
    requires Inv(s) && NextOfTable(s, Reserve(w, key, now)) == Some(t)
    ensures Inv(t)
  {
    TableStepKeepsOwnership(s, Reserve(w, key, now));
    ReserveKeepsLimit(s.active, s.maxHeavy, key, now);
    ReserveTouchesOneKey(s.active, s.maxHeavy, key, now);
    ReserveKeepsRecords(s, t.active, key, now);
    ReserveAddsWorker(s, t, w, key, now);
  }

  lemma RefusedKeepsInv(s: State, key: OpKey, now: nat)
    requires Inv(s) && NextOfTable(s, Refused(key, now)).Some?
    ensures Inv(NextOfTable(s, Refused(key, now)).value)
  {
    var t := NextOfTable(s, Refused(key, now)).value;
    TableStepKeepsOwnership(s, Refused(key, now));
    forall v | v in t.workers ensures WorkerOk(t, v) {
      assert WorkerOk(s, v);
    }
  }

  /** A cancel reaches the child of the setup operation it finds, and job cancels
      never find a setup operation. */
  lemma CancelKeepsWorker(s: State, t: State, v: nat, found: OpKey)
    requires Inv(s) && v in s.workers && found in s.active
    requires t.workers == s.workers && t.coord == s.coord && t.usedIds == s.usedIds
    requires t.active == AfterCancel(s.active, found) && s.terminated <= t.terminated
    requires found.SetupKey? && CancelOutcome(s.active, found).Ok? ==>
      CancelOutcome(s.active, found).value in t.terminated
    ensures WorkerOk(t, v)
  {
    assert WorkerOk(s, v);
  }

  lemma CancelKeepsInv(s: State, step: Step)
    requires Inv(s) && (step.CancelSetup? || step.CancelJob?) && NextOfTable(s, step).Some?
    ensures Inv(NextOfTable(s, step).value)
  {
    var t := NextOfTable(s, step).value;
    var found := step.found;
    TableStepKeepsOwnership(s, step);
    assert RecordOk(found, s.active[found]);
    forall v | v in t.workers ensures WorkerOk(t, v) {
      CancelKeepsWorker(s, t, v, found);
    }
  }

  /** A step that leaves the workers and the records alone. */
  lemma QuietStepKeepsWorkers(s: State, t: State)
    requires Inv(s)
    requires t.workers == s.workers && t.active == s.active && t.usedIds == s.usedIds && s.terminated <= t.terminated
    requires forall v :: v in s.workers ==> (IC.IsInitializing(t.coord, v) <==> IC.IsInitializing(s.coord, v))
    ensures forall v :: v in t.workers ==> WorkerOk(t, v)
    ensures SetupKeysDistinct(t)
  {
    forall v | v in t.workers ensures WorkerOk(t, v) {
      assert WorkerOk(s, v);
    }
  }

  lemma OtherInitKeepsInv(s: State, c: IC.Step)
    requires Inv(s) && NextOfTable(s, OtherInit(c)).Some?
    ensures Inv(NextOfTable(s, OtherInit(c)).value)
  {
    TableStepKeepsOwnership(s, OtherInit(c));
    IC.StepKeepsInv(s.coord, c);
    IC.OthersUnaffected(s.coord, c);
    QuietStepKeepsWorkers(s, NextOfTable(s, OtherInit(c)).value);
  }

  lemma EmitKeepsWorkers(s: State, t: State, w: nat, code: Code)
    requires Inv(s) && w in s.workers && s.workers[w].pc == Emitting(code)
    requires t.workers == s.workers[w := s.workers[w].(pc := Done(code))]
    requires t.active == s.active && t.usedIds == s.usedIds && t.terminated == s.terminated && t.coord == s.coord
    ensures forall v :: v in t.workers ==> WorkerOk(t, v)
    ensures SetupKeysDistinct(t)
  {
    forall v | v in t.workers ensures WorkerOk(t, v) {
      assert WorkerOk(s, v);
    }
  }

  lemma StepKeepsInv(s: State, step: Step)
    requires Inv(s) && Next(s, step).Some?
    ensures Inv(Next(s, step).value)
  {
    if IsWorkerStep(step) {
      WorkerStepKeepsInv(s, step);
    } else {
      TableStepKeepsOwnership(s, step);
      match step
      case Reserve(w, key, now) => ReserveKeepsInv(s, NextOfTable(s, step).value, w, key, now);
      case Refused(key, now) => RefusedKeepsInv(s, key, now);
      case CancelSetup(_, _) => CancelKeepsInv(s, step);
      case CancelJob(_, _) => CancelKeepsInv(s, step);
      case OtherInit(c) => OtherInitKeepsInv(s, c);
      case Emit(w) => EmitKeepsWorkers(s, NextOfTable(s, step).value, w, s.workers[w].pc.code);
      case KillPending(_) => QuietStepKeepsWorkers(s, NextOfTable(s, step).value);
    }
  }

  lemma {:induction false} RunKeepsInv(run: seq<State>, steps: seq<Step>, i: nat)
    requires IsRun(run, steps) && i < |run|
    ensures Inv(run[i])
  {
    if i > 0 {
      RunKeepsInv(run, steps, i - 1);
      assert steps[i - 1] == steps[i - 1];
      StepKeepsInv(run[i - 1], steps[i - 1]);
    }
  }

  // ---------- the theorems ----------

  /** In every run, at every point: no more live records than the limit, every
      live record belongs to exactly one worker that has reserved and not yet
      finished, and every such worker has a live record. */
  lemma LiveRecordsAreOwned(run: seq<State>, steps: seq<Step>, i: nat)
    requires IsRun(run, steps) && i < |run|
    ensures |Heavy(run[i].active)| <= run[i].maxHeavy
    ensures forall k :: k in Heavy(run[i].active) ==> exists w :: Owns(run[i], w, k)
    ensures forall k, v, w :: Owns(run[i], v, k) && Owns(run[i], w, k) ==> v == w
    ensures forall w :: w in run[i].workers && run[i].workers[w].Alive() ==>
      run[i].workers[w].key in Heavy(run[i].active)
  {
    RunKeepsInv(run, steps, i);
  }

  /** A terminal record is never revived: every step keeps it as it is, drops it
      for a refused reservation of its key, or replaces it by a new reservation. */
  lemma FinishedRecordsStayFinished(run: seq<State>, steps: seq<Step>, i: nat, k: OpKey)
    requires IsRun(run, steps) && i < |steps|
    requires k in run[i].active && run[i].active[k].state.Terminal()
    ensures k !in run[i + 1].active ==> steps[i].Refused? && steps[i].key == k
    ensures k in run[i + 1].active && run[i + 1].active[k] != run[i].active[k] ==>
      steps[i].Reserve? && steps[i].key == k && run[i + 1].active[k] == FreshRecord(steps[i].now)
  {
    RunKeepsInv(run, steps, i);
    var s, step := run[i], steps[i];
    if IsWorkerStep(step) {
      var x := s.workers[step.w];
      OnlyLiveWorkersAct(s, step, x, s.active[x.key]);
      assert x.key in Heavy(s.active);
    }
  }

  lemma WorkerStepKeepsRequest(s: State, step: Step, x: Worker, r: JobRecord)
    requires IsWorkerStep(step) && WorkerStep(s, step, x, r).Some?
    ensures WorkerStep(s, step, x, r).value.r.cancelRequested == r.cancelRequested
  {
  }

  lemma WorkerStepKeepsSetupCancel(s: State, step: Step, w: nat)
    requires IsWorkerStep(step) && NextOfWorker(s, step).Some?
    requires w in s.workers && CancelRequested(s.active, s.workers[w].key)
    ensures var t := NextOfWorker(s, step).value;
      w in t.workers && t.workers[w].key == s.workers[w].key && CancelRequested(t.active, s.workers[w].key)
  {
    var x := s.workers[step.w];
    WorkerStepKeepsRequest(s, step, x, s.active[x.key]);
    OnlyLiveWorkersAct(s, step, x, s.active[x.key]);
  }

  lemma TableStepKeepsSetupCancel(s: State, step: Step, w: nat)
    requires !IsWorkerStep(step) && NextOfTable(s, step).Some?
    requires w in s.workers && WorkerOk(s, w) && IsSetup(s.workers[w]) && CancelRequested(s.active, s.workers[w].key)
    ensures var t := NextOfTable(s, step).value;
      w in t.workers && t.workers[w].key == s.workers[w].key && CancelRequested(t.active, s.workers[w].key)
  {
  }

  /** No step loses a cancel request of a setup operation. */
  lemma StepKeepsSetupCancel(s: State, step: Step, w: nat)
    requires Inv(s) && Next(s, step).Some?
    requires w in s.workers && IsSetup(s.workers[w]) && CancelRequested(s.active, s.workers[w].key)
    ensures var t := Next(s, step).value;
      w in t.workers && t.workers[w].key == s.workers[w].key && CancelRequested(t.active, s.workers[w].key)
  {
    if IsWorkerStep(step) {
      WorkerStepKeepsSetupCancel(s, step, w);
    } else {
      TableStepKeepsSetupCancel(s, step, w);
    }
  }

  lemma {:induction false} SetupCancelPersists(run: seq<State>, steps: seq<Step>, i: nat, j: nat, w: nat)
    requires IsRun(run, steps) && i <= j < |run|
    requires w in run[i].workers && IsSetup(run[i].workers[w])
    requires CancelRequested(run[i].active, run[i].workers[w].key)
    ensures w in run[j].workers && run[j].workers[w].key == run[i].workers[w].key
    ensures CancelRequested(run[j].active, run[i].workers[w].key)
  {
    if i < j {
      SetupCancelPersists(run, steps, i, j - 1, w);
      RunKeepsInv(run, steps, j - 1);
      assert Next(run[j - 1], steps[j - 1]) == Some(run[j]);
      StepKeepsSetupCancel(run[j - 1], steps[j - 1], w);
    }
  }

  /** No setup cancel is lost. Once the flag of a setup operation is set while it is
      live, wherever the worker is (parked in the coordinator, initializing,
      between spawn and registration, streaming), at every later point every child
      registered for it has been sent a terminate request or is about to be by the
      worker's only possible step; and when it has finished it is Cancelled, in
      its outcome and in the table, and reports neither success nor failure. */
  lemma SetupCancelIsNotLost(run: seq<State>, steps: seq<Step>, i: nat, j: nat, w: nat)
    requires IsRun(run, steps) && i <= j < |run|
    requires w in run[i].workers && IsSetup(run[i].workers[w]) && run[i].workers[w].Alive()
    requires CancelRequested(run[i].active, run[i].workers[w].key)
    ensures w in run[j].workers
    ensures var y := run[j].workers[w];
      && (y.Child().Some? ==> y.Child().value in run[j].terminated || y.pc.Terminating?)
      && (y.pc.InitRegistered? || y.pc.Streaming? ==> y.pc.pid in run[j].terminated)
      && (!y.Alive() ==>
            && y.outcome == Some(Cancelled)
            && y.key in run[j].active && run[j].active[y.key].state == Cancelled
            && !((y.pc.Emitting? || y.pc.Done?) && (y.pc.code.SetupOkCode? || y.pc.code.SetupFailedCode?)))
  {
    SetupCancelPersists(run, steps, i, j, w);
    RunKeepsInv(run, steps, j);
    assert WorkerOk(run[j], w);
    var y := run[j].workers[w];
    assert RecordOk(y.key, run[j].active[y.key]);
  }

  lemma OnlyTerminateFromTerminating(s: State, step: Step, x: Worker, r: JobRecord)
    requires IsWorkerStep(step) && x.pc.Terminating? && WorkerStep(s, step, x, r).Some?
    ensures step.Terminate? && WorkerStep(s, step, x, r).value.killed == {x.pc.pid}
  {
  }

  /** A worker about to send the terminate request takes no other step first. */
  lemma TerminateComesNext(s: State, step: Step, w: nat)
    requires Inv(s) && Next(s, step).Some?
    requires w in s.workers && s.workers[w].pc.Terminating?
    ensures var t := Next(s, step).value;
      if step == Terminate(w) then s.workers[w].pc.pid in t.terminated
      else w in t.workers && t.workers[w] == s.workers[w]
  {
    if IsWorkerStep(step) {
      var x := s.workers[step.w];
      if step.w == w {
        OnlyTerminateFromTerminating(s, step, x, s.active[x.key]);
      }
    } else {
      assert Next(s, step) == NextOfTable(s, step);
    }
  }

  /** cancel_setup finds the operation it names: the only record carrying the
      operation's id is its own. */
  lemma SetupLookupIsUnique(run: seq<State>, steps: seq<Step>, i: nat, w: nat)
    requires IsRun(run, steps) && i < |run|
    requires w in run[i].workers && IsSetup(run[i].workers[w])
    requires run[i].workers[w].Alive() && !run[i].workers[w].pc.Adopting?
    ensures Owners(run[i].active, Own(run[i].workers[w].key)) == {run[i].workers[w].key}
  {
    RunKeepsInv(run, steps, i);
    assert WorkerOk(run[i], w);
  }

  /** The composition with the coordinator: at most one worker has a child that
      runs the initializer, and none does once it has succeeded. */
  lemma OneInitializingWorker(run: seq<State>, steps: seq<Step>, i: nat, v: nat, w: nat)
    requires IsRun(run, steps) && i < |run| && v in run[i].workers && w in run[i].workers
    requires InInitializer(run[i].workers[v].pc) && InInitializer(run[i].workers[w].pc)
    ensures v == w && !run[i].coord.ready
  {
    RunKeepsInv(run, steps, i);
    assert WorkerOk(run[i], v) && WorkerOk(run[i], w);
  }

  // ---------- events ----------

  function ForwardsOf(w: nat, key: OpKey, lines: seq<Line>): seq<Event> {
    if lines == [] then []
    else ForwardsOf(w, key, lines[..|lines| - 1]) + Forwards(w, key, lines[|lines| - 1])
  }

  function EventsOf(log: seq<Event>, w: nat): seq<Event> {
    if log == [] then []
    else EventsOf(log[..|log| - 1], w) + (if log[|log| - 1].worker == w then [log[|log| - 1]] else [])
  }

  /** Everything an operation has emitted so far: the forwarded lines in order,
      then, once it is done, one completion event. */
  function Emissions(w: nat, x: Worker): seq<Event> {
    ForwardsOf(w, x.key, x.lines) + if x.pc.Done? then [Completion(w, x.pc.code)] else []
  }

  ghost predicate LogOk(s: State) {
    forall w :: EventsOf(s.log, w) == if w in s.workers then Emissions(w, s.workers[w]) else []
  }

  lemma EventsOfAppend(log: seq<Event>, e: Event, w: nat)
    ensures EventsOf(log + [e], w) == EventsOf(log, w) + if e.worker == w then [e] else []
  {
    assert (log + [e])[..|log|] == log;
  }

  lemma ForwardsOfAppend(w: nat, key: OpKey, lines: seq<Line>, line: Line)
    ensures ForwardsOf(w, key, lines + [line]) == ForwardsOf(w, key, lines) + Forwards(w, key, line)
  {
    assert (lines + [line])[..|lines|] == lines;
  }

  /** An effect of worker `w` reports the line it has read, if any. */
  predicate ReportsLine(w: nat, x: Worker, e: Effect) {
    && e.x.key == x.key && !x.pc.Done? && !e.x.pc.Done?
    && if e.x.lines == x.lines then e.events == []
       else |e.x.lines| == |x.lines| + 1 && e.x.lines == x.lines + [e.x.lines[|x.lines|]]
            && e.events == Forwards(w, x.key, e.x.lines[|x.lines|])
  }

  /** A step that reads a line forwards exactly that line, any other nothing. */
  lemma WorkerStepEvents(s: State, step: Step, x: Worker, r: JobRecord)
    requires IsWorkerStep(step) && WorkerStep(s, step, x, r).Some?
    ensures ReportsLine(step.w, x, WorkerStep(s, step, x, r).value)
  {
  }

  lemma EmissionsGrow(w: nat, x: Worker, e: Effect)
    requires ReportsLine(w, x, e)
    ensures Emissions(w, e.x) == Emissions(w, x) + e.events
  {
    assert Emissions(w, x) == ForwardsOf(w, x.key, x.lines);
    assert Emissions(w, e.x) == ForwardsOf(w, x.key, e.x.lines);
    if e.x.lines != x.lines {
      ForwardsOfAppend(w, x.key, x.lines, e.x.lines[|x.lines|]);
    }
  }

  lemma EventsOfForwards(log: seq<Event>, w: nat, key: OpKey, line: Line, v: nat)
    ensures EventsOf(log + Forwards(w, key, line), v) ==
      EventsOf(log, v) + if v == w then Forwards(w, key, line) else []
  {
    var events := Forwards(w, key, line);
    if events == [] {
      assert log + events == log;
    } else {
      EventsOfAppend(log, events[0], v);
      assert events == [events[0]];
    }
  }

  lemma LogAfterEffect(s: State, w: nat, e: Effect)
    requires LogOk(s) && w in s.workers && ReportsLine(w, s.workers[w], e)
    ensures LogOk(Update(s, w, e.x.key, e))
  {
    var t, x := Update(s, w, e.x.key, e), s.workers[w];
    EmissionsGrow(w, x, e);
    forall v ensures EventsOf(t.log, v) == if v in t.workers then Emissions(v, t.workers[v]) else [] {
      if e.events == [] {
        assert t.log == s.log;
      } else {
        EventsOfForwards(s.log, w, x.key, e.x.lines[|x.lines|], v);
      }
    }
  }

  lemma WorkerStepKeepsLog(s: State, step: Step)
    requires LogOk(s) && IsWorkerStep(step) && NextOfWorker(s, step).Some?
    ensures LogOk(NextOfWorker(s, step).value)
  {
    var w, x := step.w, s.workers[step.w];
    var e := WorkerStep(s, step, x, s.active[x.key]).value;
    WorkerStepEvents(s, step, x, s.active[x.key]);
    OnlyLiveWorkersAct(s, step, x, s.active[x.key]);
    LogAfterEffect(s, w, e);
  }

  lemma EmitKeepsLog(s: State, t: State, w: nat)
    requires LogOk(s) && w in s.workers && s.workers[w].pc.Emitting?
    requires var x := s.workers[w];
      t.log == s.log + [Completion(w, x.pc.code)] && t.workers == s.workers[w := x.(pc := Done(x.pc.code))]
    ensures LogOk(t)
  {
    forall v ensures EventsOf(t.log, v) == if v in t.workers then Emissions(v, t.workers[v]) else [] {
      EventsOfAppend(s.log, Completion(w, s.workers[w].pc.code), v);
    }
  }

  lemma NewWorkerKeepsLog(s: State, t: State, w: nat, x: Worker)
    requires LogOk(s) && w !in s.workers && x.lines == [] && !x.pc.Done?
    requires t.log == s.log && t.workers == s.workers[w := x]
    ensures LogOk(t)
  {
    assert Emissions(w, x) == [];
  }

  lemma TableStepKeepsLog(s: State, step: Step)
    requires LogOk(s) && !IsWorkerStep(step) && NextOfTable(s, step).Some?
    ensures LogOk(NextOfTable(s, step).value)
  {
    var t := NextOfTable(s, step).value;
    if step.Emit? {
      EmitKeepsLog(s, t, step.w);
    } else if step.Reserve? {
      NewWorkerKeepsLog(s, t, step.w, Worker(step.key, StartPc(step.key), [], None));
    } else {
      assert t.log == s.log && t.workers == s.workers;
    }
  }

  lemma {:induction false} RunKeepsLog(run: seq<State>, steps: seq<Step>, i: nat)
    requires IsRun(run, steps) && i < |run|
    ensures LogOk(run[i])
  {
    if i > 0 {
      RunKeepsLog(run, steps, i - 1);
      assert steps[i - 1] == steps[i - 1];
      if IsWorkerStep(steps[i - 1]) {
        WorkerStepKeepsLog(run[i - 1], steps[i - 1]);
      } else {
        TableStepKeepsLog(run[i - 1], steps[i - 1]);
      }
    }
  }

  /** Every operation emits its forwarded lines in order and then, after all of
      them, exactly one completion event. */
  lemma OneCompletionEvent(run: seq<State>, steps: seq<Step>, i: nat, w: nat)
    requires IsRun(run, steps) && i < |run| && w in run[i].workers
    ensures var x := run[i].workers[w];
      EventsOf(run[i].log, w) == ForwardsOf(w, x.key, x.lines) + if x.pc.Done? then [Completion(w, x.pc.code)] else []
  {
    RunKeepsLog(run, steps, i);
  }

  predicate ReportsSuccess(code: Code) {
    code.SetupOkCode? || (code.PayloadCode? && code.value.ok)
  }

  /** The completion event comes after the record has become terminal. A CANCELLED
      event means that it became Cancelled, and so do only two others of a setup
      operation: that initialization failed or that the child could not be started.
      The three other events of the section of stream_setup that reads the flag and
      finishes mean that it did not. A forwarded payload is the last one received. The record
      is Completed exactly when it is not Cancelled and the event reports success. */
  lemma EventMatchesRecord(run: seq<State>, steps: seq<Step>, i: nat, w: nat)
    requires IsRun(run, steps) && i < |run| && w in run[i].workers && !run[i].workers[w].Alive()
    ensures var x := run[i].workers[w];
      && x.outcome.Some? && x.outcome.value.Terminal()
      && (x.pc.code.CancelledCode? ==> x.outcome.value == Cancelled)
      && (x.pc.code.SetupOkCode? ==> x.outcome.value == Completed)
      && (x.pc.code.SetupTimedOutCode? || x.pc.code.SetupFailedCode? ==> x.outcome.value == Failed)
      && (x.pc.code.PayloadCode? ==> LastCompletion(x.lines) == Some(x.pc.code.value))
      && (x.pc.code.SetupOkCode? || x.pc.code.SetupTimedOutCode? || x.pc.code.SetupFailedCode? ==> IsSetup(x))
      && (x.pc.code.PayloadCode? || x.pc.code.NativeExitCode? ==> !IsSetup(x))
      && (x.outcome.value == Completed <==> x.outcome.value != Cancelled && ReportsSuccess(x.pc.code))
      && (IsSetup(x) && x.outcome.value == Cancelled ==>
            x.pc.code.CancelledCode? || x.pc.code.InitFailedCode? || x.pc.code.StartFailedCode?)
  {
    RunKeepsInv(run, steps, i);
    assert WorkerOk(run[i], w);
  }

  // ---------- the gap between reading the flag and finishing ----------

  lemma StepKeepsCode(s: State, step: Step, w: nat, code: Code)
    requires Next(s, step).Some? && w in s.workers
    requires (s.workers[w].pc.Finishing? || !s.workers[w].Alive()) && s.workers[w].pc.code == code
    ensures var t := Next(s, step).value;
      && w in t.workers && t.workers[w].key == s.workers[w].key
      && (t.workers[w].pc.Finishing? || !t.workers[w].Alive()) && t.workers[w].pc.code == code
  {
    if IsWorkerStep(step) {
      var x := s.workers[step.w];
      FinishingOnlyFinishes(s, step, x, s.active[x.key]);
    }
  }

  lemma FinishingOnlyFinishes(s: State, step: Step, x: Worker, r: JobRecord)
    requires IsWorkerStep(step) && WorkerStep(s, step, x, r).Some?
    ensures x.Alive()
    ensures x.pc.Finishing? ==>
      var e := WorkerStep(s, step, x, r).value;
      step.Finish? && e.x.pc == Emitting(x.pc.code) && e.x.key == x.key
  {
  }

  lemma {:induction false} CodeIsFixed(run: seq<State>, steps: seq<Step>, i: nat, j: nat, w: nat, code: Code)
    requires IsRun(run, steps) && i <= j < |run| && w in run[i].workers
    requires (run[i].workers[w].pc.Finishing? || !run[i].workers[w].Alive()) && run[i].workers[w].pc.code == code
    ensures w in run[j].workers && run[j].workers[w].key == run[i].workers[w].key
    ensures (run[j].workers[w].pc.Finishing? || !run[j].workers[w].Alive()) && run[j].workers[w].pc.code == code
  {
    if i < j {
      CodeIsFixed(run, steps, i, j - 1, w, code);
      assert steps[j - 1] == steps[j - 1];
      StepKeepsCode(run[j - 1], steps[j - 1], w, code);
    }
  }

  /** stream_pipeline reads the flag and finishes in two locked sections, so the
      event says CANCELLED exactly when the flag was set at the read and the record
      becomes Cancelled exactly when it was set at the finish. The two disagree
      exactly when a cancel arrives in between. */
  lemma CancelWindow(run: seq<State>, steps: seq<Step>, i: nat, j: nat, w: nat)
    requires IsRun(run, steps) && i < j < |steps|
    requires steps[i] == ReadFlag(w) && steps[j].Finish? && steps[j].w == w
    ensures w in run[i].workers && w in run[j + 1].workers && run[j + 1].workers[w].pc.Emitting?
    ensures run[j + 1].workers[w].pc.code.CancelledCode? <==> CancelRequested(run[i].active, run[i].workers[w].key)
    ensures run[j + 1].workers[w].outcome == Some(Cancelled) <==> CancelRequested(run[j].active, run[i].workers[w].key)
  {
    assert Next(run[i], steps[i]) == Some(run[i + 1]);
    assert Next(run[j], steps[j]) == Some(run[j + 1]);
    CodeIsFixed(run, steps, i + 1, j, w, run[i + 1].workers[w].pc.code);
  }

  /** The gap is real: from any state where a pipeline worker is about to finish with
      some event, a cancel of its job makes the record Cancelled and leaves the
      event as it was. */
  lemma CancelInTheGap(s: State, w: nat, id: string, now: nat)
    requires Inv(s) && w in s.workers && s.workers[w].pc.Finishing?
    requires s.active[s.workers[w].key].jobId == Some(Emitted(id))
    ensures var x := s.workers[w];
      var t := Next(s, CancelJob(id, x.key));
      t.Some? &&
      var u := Next(t.value, Finish(w, now));
      u.Some? && u.value.workers[w].outcome == Some(Cancelled) && u.value.workers[w].pc == Emitting(x.pc.code)
  {
    var x := s.workers[w];
    assert WorkerOk(s, w);
    assert x.key in Owners(s.active, Emitted(id));
    assert x.key in Heavy(s.active);
    var t := NextOfTable(s, CancelJob(id, x.key)).value;
    assert t.workers == s.workers && t.active[x.key].cancelRequested;
  }

  // ---------- which event a finished operation reports ----------

  /** The locked sections that read the cancel flag to choose the event. */
  predicate ReadsFlag(step: Step) { step.ReadFlag? || step.ReadInitFailed? || step.CheckAfterInit? }

  /** Step `i` is where worker `w` settles on its event before it finishes. */
  ghost predicate Decides(run: seq<State>, steps: seq<Step>, i: nat, w: nat)
    requires IsRun(run, steps)
  {
    && i < |steps| && w in run[i].workers && w in run[i + 1].workers
    && run[i].workers[w].Alive() && !run[i].workers[w].pc.Finishing? && run[i + 1].workers[w].pc.Finishing?
  }

  lemma DecisionFollowsFlag(s: State, step: Step, x: Worker, r: JobRecord)
    requires IsWorkerStep(step) && WorkerStep(s, step, x, r).Some?
    requires !x.pc.Finishing? && WorkerStep(s, step, x, r).value.x.pc.Finishing?
    ensures WorkerStep(s, step, x, r).value.x.pc.code.CancelledCode? <==> ReadsFlag(step) && r.cancelRequested
  {
  }

  lemma FinishFollowsFlag(s: State, step: Step, x: Worker, r: JobRecord)
    requires IsWorkerStep(step) && WorkerStep(s, step, x, r).Some? && (step.Finish? || step.SetupFinish?)
    ensures var e := WorkerStep(s, step, x, r).value;
      && (e.x.outcome == Some(Cancelled) <==> r.cancelRequested)
      && (step.SetupFinish? ==> (e.x.pc.code.CancelledCode? <==> r.cancelRequested))
      && (step.Finish? ==> x.pc.Finishing? && e.x.pc.code == x.pc.code)
  {
  }

  lemma FinishEndsWorker(s: State, step: Step, x: Worker, r: JobRecord)
    requires IsWorkerStep(step) && WorkerStep(s, step, x, r).Some?
    ensures !WorkerStep(s, step, x, r).value.x.Alive() <==> step.Finish? || step.SetupFinish?
    ensures x.pc.Finishing? ==> step.Finish?
  {
  }

  /** What the step before a finished worker was: its finish, or one that left it alone. */
  lemma BeforeFinished(s: State, step: Step, w: nat)
    requires Next(s, step).Some? && w in Next(s, step).value.workers && !Next(s, step).value.workers[w].Alive()
    ensures w in s.workers && s.workers[w].key == Next(s, step).value.workers[w].key
    ensures var x, y := s.workers[w], Next(s, step).value.workers[w];
      if x.Alive() then (step.Finish? || step.SetupFinish?) && step.w == w && x.key in s.active
      else y.pc.code == x.pc.code && y.outcome == x.outcome
  {
    if IsWorkerStep(step) {
      var x := s.workers[step.w];
      OnlyLiveWorkersAct(s, step, x, s.active[x.key]);
      FinishEndsWorker(s, step, x, s.active[x.key]);
    }
  }

  /** What the step before a worker about to finish was: its decision, or one that left it alone. */
  lemma BeforeFinishing(s: State, step: Step, w: nat)
    requires Next(s, step).Some? && w in Next(s, step).value.workers && Next(s, step).value.workers[w].pc.Finishing?
    ensures w in s.workers && s.workers[w].key == Next(s, step).value.workers[w].key && s.workers[w].Alive()
    ensures var x, y := s.workers[w], Next(s, step).value.workers[w];
      if x.pc.Finishing? then y.pc.code == x.pc.code
      else IsWorkerStep(step) && step.w == w && x.key in s.active
  {
    if IsWorkerStep(step) {
      var x := s.workers[step.w];
      OnlyLiveWorkersAct(s, step, x, s.active[x.key]);
      FinishEndsWorker(s, step, x, s.active[x.key]);
    }
  }

  lemma {:induction false} FindDecision(run: seq<State>, steps: seq<Step>, n: nat, w: nat) returns (i: nat)
    requires IsRun(run, steps) && n < |run| && w in run[n].workers && run[n].workers[w].pc.Finishing?
    ensures i < n && Decides(run, steps, i, w) && run[i].workers[w].key == run[n].workers[w].key
    ensures run[n].workers[w].pc.code.CancelledCode? <==>
      ReadsFlag(steps[i]) && CancelRequested(run[i].active, run[i].workers[w].key)
  {
    assert n > 0;
    assert steps[n - 1] == steps[n - 1];
    var s, step := run[n - 1], steps[n - 1];
    BeforeFinishing(s, step, w);
    if s.workers[w].pc.Finishing? {
      i := FindDecision(run, steps, n - 1, w);
    } else {
      i := n - 1;
      var x := s.workers[w];
      DecisionFollowsFlag(s, step, x, s.active[x.key]);
    }
  }

  /** The exact relation of event and record for every finished operation of every run. At
      some step `j` it finished: the record is Cancelled exactly when the flag was set then.
      If the same locked section chose the event, event and record agree. Otherwise the
      event was settled at an earlier step `i`, and says CANCELLED exactly when that step
      read the flag and found it set; so a Cancelled record carries another event exactly
      when the flag was set by `j` and at `i` was unread or still clear. For a setup
      operation that event is a failed initialization or a failed start. */
  lemma {:induction false} EventAndRecord(run: seq<State>, steps: seq<Step>, n: nat, w: nat) returns (i: nat, j: nat)
    requires IsRun(run, steps) && n < |run| && w in run[n].workers && !run[n].workers[w].Alive()
    ensures i <= j < n && (steps[j].Finish? || steps[j].SetupFinish?) && steps[j].w == w
    ensures steps[j].Finish? ==> i < j && Decides(run, steps, i, w)
    ensures var x := run[n].workers[w];
      var early := steps[j].Finish? && !(ReadsFlag(steps[i]) && CancelRequested(run[i].active, x.key));
      && (x.outcome == Some(Cancelled) <==> CancelRequested(run[j].active, x.key))
      && (x.pc.code.CancelledCode? <==> CancelRequested(run[j].active, x.key) && !early)
      && (x.outcome == Some(Cancelled) && !x.pc.code.CancelledCode? <==> CancelRequested(run[j].active, x.key) && early)
      && (IsSetup(x) && x.outcome == Some(Cancelled) && !x.pc.code.CancelledCode? ==>
            x.pc.code.InitFailedCode? || x.pc.code.StartFailedCode?)
  {
    assert n > 0;
    assert steps[n - 1] == steps[n - 1];
    var s, step := run[n - 1], steps[n - 1];
    BeforeFinished(s, step, w);
    EventMatchesRecord(run, steps, n, w);
    if !s.workers[w].Alive() {
      i, j := EventAndRecord(run, steps, n - 1, w);
    } else {
      j := n - 1;
      var x := s.workers[w];
      FinishFollowsFlag(s, step, x, s.active[x.key]);
      if step.Finish? {
        i := FindDecision(run, steps, j, w);
      } else {
        i := j;
      }
    }
  }

  /** From any state where a setup worker is about to finish, cancel_setup makes the record
      Cancelled and leaves the event as it was. */
  lemma SetupCancelInTheGap(s: State, w: nat, now: nat) returns (t: State, u: State)
    requires Inv(s) && w in s.workers && s.workers[w].pc.Finishing? && IsSetup(s.workers[w])
    ensures var x := s.workers[w];
      && Next(s, CancelSetup(x.key, x.key)) == Some(t) && Next(t, Finish(w, now)) == Some(u)
      && w in u.workers && u.workers[w].key == x.key
      && u.workers[w].outcome == Some(Cancelled) && u.workers[w].pc == Emitting(x.pc.code)
  {
    var x := s.workers[w];
    assert WorkerOk(s, w);
    assert x.key in Owners(s.active, Own(x.key));
    assert x.key in Heavy(s.active);
    t := NextOfTable(s, CancelSetup(x.key, x.key)).value;
    assert t.workers == s.workers && t.active[x.key].cancelRequested;
    u := NextOfWorker(t, Finish(w, now)).value;
  }

  ghost predicate At(s: State, x: Worker, r: JobRecord) {
    0 in s.workers && s.workers[0] == x && x.key in s.active && s.active[x.key] == r
  }

  /** Extends a run by one step of worker 0. */
  lemma Play(run: seq<State>, steps: seq<Step>, step: Step, x: Worker, r: JobRecord, e: Effect)
    returns (run': seq<State>, steps': seq<Step>)
    requires IsRun(run, steps) && IsWorkerStep(step) && step.w == 0
    requires At(run[|steps|], x, r) && WorkerStep(run[|steps|], step, x, r) == Some(e) && e.x.key == x.key
    ensures IsRun(run', steps') && At(run'[|steps'|], e.x, e.r) && run'[|steps'|].coord == e.coord
    ensures run'[|steps'|].pids == run[|steps|].pids + e.spawned
  {
    var s := run[|steps|];
    var t := NextOfWorker(s, step).value;
    assert t == Update(s, 0, x.key, e);
    run', steps' := run + [t], steps + [step];
    assert At(t, e.x, e.r);
  }

  lemma PlayReserve(key: OpKey) returns (run: seq<State>, steps: seq<Step>)
    requires key.JobKey? || key.SetupKey?
    ensures IsRun(run, steps) && At(run[|steps|], Worker(key, StartPc(key), [], None), FreshRecord(0))
    ensures run[|steps|].pids == {} && run[|steps|].coord == IC.START
  {
    var s0 := Initial(1);
    assert Heavy(s0.active) == {};
    var s1 := NextOfTable(s0, Reserve(0, key, 0)).value;
    run, steps := [s0, s1], [Reserve(0, key, 0)];
  }

  const JOB_LINE: Value := Value(false, false, Some("a"), None, "")
  const RESULT_LINE: Value := Value(true, true, None, None, "")
  const SCRIPT: seq<Step> :=
    [Spawn(0, 1), Register(0, 0), ReadLine(0, Json(JOB_LINE), 0), ForwardLine(0), ReadLine(0, Json(RESULT_LINE), 0),
     EndOfStream(0), ReadFlag(0)]
  const SCRIPT_PCS: seq<Pc> :=
    [Spawning, Spawned(1), Streaming(1), Forwarding(1, JOB_LINE), Streaming(1), Streaming(1),
     ReadingFlag, Finishing(true, PayloadCode(RESULT_LINE))]

  ghost predicate Scripted(k: nat, x: Worker, r: JobRecord)
    requires k < |SCRIPT_PCS|
  {
    && x.key == JobKey("a") && x.pc == SCRIPT_PCS[k] && !r.cancelRequested
    && x.lines == [Json(JOB_LINE), Json(RESULT_LINE)][..if k < 4 then 0 else if k == 4 then 1 else 2]
    && (k >= 3 ==> r.jobId == Some(Emitted("a")))
  }

  lemma ScriptedStep(s: State, k: nat, x: Worker, r: JobRecord) returns (e: Effect)
    requires k < |SCRIPT| && Scripted(k, x, r) && (k == 0 ==> s.pids == {})
    ensures WorkerStep(s, SCRIPT[k], x, r) == Some(e) && Scripted(k + 1, e.x, e.r)
  {
    e := WorkerStep(s, SCRIPT[k], x, r).value;
  }

  /** Such a state is reachable with a successful payload in hand. */
  lemma PayloadInHand() returns (run: seq<State>, steps: seq<Step>, x: Worker, r: JobRecord)
    ensures IsRun(run, steps) && At(run[|steps|], x, r) && Scripted(7, x, r)
  {
    x, r := Worker(JobKey("a"), Spawning, [], None), FreshRecord(0);
    run, steps := PlayReserve(JobKey("a"));
    for k := 0 to 7
      invariant IsRun(run, steps) && At(run[|steps|], x, r) && Scripted(k, x, r)
      invariant k == 0 ==> run[|steps|].pids == {}
    {
      var e := ScriptedStep(run[|steps|], k, x, r);
      run, steps := Play(run, steps, SCRIPT[k], x, r, e);
      x, r := e.x, e.r;
    }
  }

  /** A record can be Cancelled although its completion event reports success. */
  lemma NormalEventForCancelledRecord() returns (run: seq<State>, steps: seq<Step>)
    ensures IsRun(run, steps)
    ensures 0 in run[|steps|].workers
      && run[|steps|].workers[0].outcome == Some(Cancelled)
      && run[|steps|].workers[0].pc == Emitting(PayloadCode(RESULT_LINE)) && RESULT_LINE.ok
  {
    var x, r;
    run, steps, x, r := PayloadInHand();
    var s := run[|steps|];
    RunKeepsInv(run, steps, |steps|);
    CancelInTheGap(s, 0, "a", 0);
    var t := Next(s, CancelJob("a", x.key)).value;
    var u := Next(t, Finish(0, 0)).value;
    run, steps := run + [t, u], steps + [CancelJob("a", x.key), Finish(0, 0)];
  }

  const SETUP_SCRIPT: seq<Step> :=
    [AdoptSetup(0), InitEnter(0), InitSpawn(0, 1), InitRegister(0, 0), InitEnd(0, IC.Succeeded), CheckAfterInit(0),
     SpawnFail(0)]
  const SETUP_PCS: seq<Pc> :=
    [Adopting, EnterInit, RunInit, InitSpawned(1), InitRegistered(1), CheckCancel, Spawning,
     Finishing(false, StartFailedCode)]

  ghost predicate SetupScripted(k: nat, s: State, x: Worker, r: JobRecord)
    requires k < |SETUP_PCS|
  {
    && x.key == SetupKey(0) && x.pc == SETUP_PCS[k] && !r.cancelRequested
    && (k <= 1 ==> s.coord == IC.START)
    && (k <= 2 ==> s.pids == {})
    && (2 <= k <= 4 ==> IC.IsInitializing(s.coord, 0))
  }

  lemma SetupScriptedStep(s: State, k: nat, x: Worker, r: JobRecord) returns (e: Effect)
    requires k < |SETUP_SCRIPT| && SetupScripted(k, s, x, r)
    ensures WorkerStep(s, SETUP_SCRIPT[k], x, r) == Some(e) && e.x.key == x.key
    ensures forall t: State :: t.coord == e.coord && t.pids == s.pids + e.spawned ==> SetupScripted(k + 1, t, e.x, e.r)
  {
    e := WorkerStep(s, SETUP_SCRIPT[k], x, r).value;
  }

  lemma StartFailedInHand() returns (run: seq<State>, steps: seq<Step>)
    ensures IsRun(run, steps) && 0 in run[|steps|].workers
    ensures IsSetup(run[|steps|].workers[0]) && run[|steps|].workers[0].pc == Finishing(false, StartFailedCode)
  {
    var x, r := Worker(SetupKey(0), Adopting, [], None), FreshRecord(0);
    run, steps := PlayReserve(SetupKey(0));
    for k := 0 to 7
      invariant IsRun(run, steps) && At(run[|steps|], x, r) && SetupScripted(k, run[|steps|], x, r)
    {
      var e := SetupScriptedStep(run[|steps|], k, x, r);
      run, steps := Play(run, steps, SETUP_SCRIPT[k], x, r, e);
      x, r := e.x, e.r;
    }
  }

  /** A run from the start in which a Cancelled setup record carries the event that its
      child could not be started. */
  lemma StartFailedEventForCancelledRecord() returns (run: seq<State>, steps: seq<Step>)
    ensures IsRun(run, steps)
    ensures 0 in run[|steps|].workers
      && IsSetup(run[|steps|].workers[0]) && run[|steps|].workers[0].outcome == Some(Cancelled)
      && run[|steps|].workers[0].pc == Emitting(StartFailedCode)
  {
    run, steps := StartFailedInHand();
    var s, key := run[|steps|], run[|steps|].workers[0].key;
    RunKeepsInv(run, steps, |steps|);
    var t, u := SetupCancelInTheGap(s, 0, 0);
    run, steps := TwoMore(run, steps, CancelSetup(key, key), t, Finish(0, 0), u);
  }

  lemma TwoMore(run: seq<State>, steps: seq<Step>, one: Step, t: State, two: Step, u: State)
    returns (run': seq<State>, steps': seq<Step>)
    requires IsRun(run, steps) && Next(run[|steps|], one) == Some(t) && Next(t, two) == Some(u)
    ensures IsRun(run', steps') && run'[|steps'|] == u
  {
    run', steps' := run + [t, u], steps + [one, two];
  }
}
