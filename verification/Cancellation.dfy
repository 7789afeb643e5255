/** What cancelling does over whole runs of the step system in module Lifecycle: every
    request reaches the child it is for, nothing else is terminated, and a cancelled
    operation ends Cancelled (cancel_job, cancel_setup and the workers of
    app/src-tauri/src/main.rs). */
module Cancellation {
  import opened Wrappers
  import opened ProcessManager
  import opened Lifecycle
  import IC = InitializationCoordinator

  // ---------- requests ----------

  /** The process has been sent a terminate request, or a thread is about to send it. */
  predicate Requested(s: State, pid: nat) {
    pid in s.pending || pid in s.terminated
  }

  /** No step forgets a request: it stays pending until it is sent, by KillPending alone,
      which is possible as long as it is pending; and what was sent was sent. */
  lemma StepKeepsRequests(s: State, step: Step, pid: nat)
    requires Next(s, step).Some?
    ensures var t := Next(s, step).value;
      && (pid in s.terminated ==> pid in t.terminated)
      && (Requested(s, pid) ==> Requested(t, pid))
      && (pid in s.pending && pid !in t.pending ==> step == KillPending(pid) && pid in t.terminated)
    ensures pid in s.pending <==> Next(s, KillPending(pid)).Some?
    ensures pid in s.pending ==>
      pid in Next(s, KillPending(pid)).value.terminated && pid !in Next(s, KillPending(pid)).value.pending
  {
    if IsWorkerStep(step) {
      var x := s.workers[step.w];
      assert Next(s, step).value.pending == s.pending;
      assert s.terminated <= Next(s, step).value.terminated;
    } else {
      TableStepKeepsRequests(s, step, pid);
    }
    assert Next(s, KillPending(pid)) == NextOfTable(s, KillPending(pid));
  }

  lemma TableStepKeepsRequests(s: State, step: Step, pid: nat)
    requires !IsWorkerStep(step) && NextOfTable(s, step).Some?
    ensures var t := NextOfTable(s, step).value;
      && (pid in s.terminated ==> pid in t.terminated)
      && (pid in s.pending && pid !in t.pending ==> step == KillPending(pid) && pid in t.terminated)
  {
  }

  lemma {:induction false} RequestsPersist(run: seq<State>, steps: seq<Step>, i: nat, j: nat, pid: nat)
    requires IsRun(run, steps) && i <= j < |run|
    ensures Requested(run[i], pid) ==> Requested(run[j], pid)
    ensures pid in run[i].terminated ==> pid in run[j].terminated
  {
    if i < j {
      RequestsPersist(run, steps, i, j - 1, pid);
      assert Next(run[j - 1], steps[j - 1]) == Some(run[j]);
      StepKeepsRequests(run[j - 1], steps[j - 1], pid);
    }
  }

  // ---------- what a cancel does ----------

  predicate IsCancel(step: Step) { step.CancelJob? || step.CancelSetup? }

  /** cancel_job and cancel_setup flag the live record they find and put it into Cancelling,
      and a process registered for it is requested to terminate: by cancel_setup within the
      locked section, by cancel_job after it. A terminal record stays as it is. Nothing else
      changes. */
  lemma CancelIsExact(s: State, step: Step)
    requires IsCancel(step) && Next(s, step).Some?
    ensures step.found in s.active
    ensures var t, r := Next(s, step).value, s.active[step.found];
      var reached := !r.state.Terminal() && r.processId.Some?;
      && r.jobId == Some(if step.CancelJob? then Emitted(step.id) else Own(step.key))
      && t.active == (if r.state.Terminal() then s.active
                      else s.active[step.found := r.(cancelRequested := true, state := LifecycleState.Cancelling)])
      && t.pending == (if reached && step.CancelJob? then s.pending + {r.processId.value} else s.pending)
      && t.terminated == (if reached && step.CancelSetup? then s.terminated + {r.processId.value} else s.terminated)
      && t.workers == s.workers && t.log == s.log && t.coord == s.coord && t.pids == s.pids
  {
    assert Next(s, step) == NextOfTable(s, step);
  }

  /** No cancel is without effect on the process: whatever happens afterwards, the process
      registered for the record it found has been sent a terminate request or is about to be,
      and by cancel_setup it has been sent. */
  lemma CancelReachesProcess(run: seq<State>, steps: seq<Step>, i: nat, j: nat, pid: nat)
    requires IsRun(run, steps) && i < |steps| && i < j < |run| && IsCancel(steps[i])
    requires steps[i].found in run[i].active
    requires !run[i].active[steps[i].found].state.Terminal() && run[i].active[steps[i].found].processId == Some(pid)
    ensures pid in run[j].pending || pid in run[j].terminated
    ensures steps[i].CancelSetup? ==> pid in run[j].terminated
    ensures pid in run[j].pending ==> Next(run[j], KillPending(pid)).Some?
  {
    assert Next(run[i], steps[i]) == Some(run[i + 1]);
    CancelIsExact(run[i], steps[i]);
    RequestsPersist(run, steps, i + 1, j, pid);
    assert Next(run[j], KillPending(pid)) == NextOfTable(run[j], KillPending(pid));
  }

  /** What the record of a live worker knows of its child: a registered child that has not
      been reaped is the record's process, and a record that carries a job id printed by a
      child has a process. */
  predicate ChildKnown(x: Worker, r: JobRecord) {
    && (x.Child().Some? ==> r.processId == x.Child())
    && (r.jobId.Some? && r.jobId.value.Emitted? ==> r.processId.Some?)
  }

  lemma WorkerStepKeepsChild(s: State, step: Step, x: Worker, r: JobRecord)
    requires IsWorkerStep(step) && WorkerStep(s, step, x, r).Some? && ChildKnown(x, r)
    ensures var e := WorkerStep(s, step, x, r).value; ChildKnown(e.x, e.r)
  {
  }

  ghost predicate ChildrenKnown(s: State) {
    forall w :: w in s.workers && s.workers[w].Alive() ==>
      s.workers[w].key in s.active && ChildKnown(s.workers[w], s.active[s.workers[w].key])
  }

  lemma WorkerStepKeepsChildren(s: State, step: Step)
    requires Inv(s) && ChildrenKnown(s) && IsWorkerStep(step) && NextOfWorker(s, step).Some?
    ensures ChildrenKnown(NextOfWorker(s, step).value)
  {
    var x := s.workers[step.w];
    var r, t := s.active[x.key], NextOfWorker(s, step).value;
    OnlyLiveWorkersAct(s, step, x, r);
    WorkerStepKeepsChild(s, step, x, r);
    forall w | w in t.workers && t.workers[w].Alive()
      ensures t.workers[w].key in t.active && ChildKnown(t.workers[w], t.active[t.workers[w].key])
    {
      if w != step.w {
        assert s.workers[w].key != x.key;
      }
    }
  }

  /** The other steps change neither process nor job id of a record of a live worker. */
  lemma ReservationKeepsChildren(s: State, step: Step)
    requires Inv(s) && ChildrenKnown(s) && (step.Reserve? || step.Refused?) && NextOfTable(s, step).Some?
    ensures ChildrenKnown(NextOfTable(s, step).value)
  {
    var t := NextOfTable(s, step).value;
    ReserveKeepsLimit(s.active, s.maxHeavy, step.key, step.now);
    ReserveTouchesOneKey(s.active, s.maxHeavy, step.key, step.now);
    forall w | w in t.workers && t.workers[w].Alive()
      ensures t.workers[w].key in t.active && ChildKnown(t.workers[w], t.active[t.workers[w].key])
    {
      if w in s.workers {
        assert s.workers[w].key in Heavy(s.active);
      }
    }
  }

  lemma CancelKeepsChildren(s: State, step: Step)
    requires ChildrenKnown(s) && IsCancel(step) && Next(s, step).Some?
    ensures ChildrenKnown(Next(s, step).value)
  {
    CancelIsExact(s, step);
  }

  lemma TableStepKeepsChildren(s: State, step: Step)
    requires Inv(s) && ChildrenKnown(s) && !IsWorkerStep(step) && NextOfTable(s, step).Some?
    ensures ChildrenKnown(NextOfTable(s, step).value)
  {
    if step.Reserve? || step.Refused? {
      ReservationKeepsChildren(s, step);
    } else if IsCancel(step) {
      assert Next(s, step) == NextOfTable(s, step);
      CancelKeepsChildren(s, step);
    } else {
      assert NextOfTable(s, step).value.active == s.active;
    }
  }

  lemma {:induction false} RunKeepsChildren(run: seq<State>, steps: seq<Step>, i: nat)
    requires IsRun(run, steps) && i < |run|
    ensures ChildrenKnown(run[i])
  {
    if i > 0 {
      RunKeepsChildren(run, steps, i - 1);
      RunKeepsInv(run, steps, i - 1);
      assert Next(run[i - 1], steps[i - 1]) == Some(run[i]);
      if IsWorkerStep(steps[i - 1]) {
        WorkerStepKeepsChildren(run[i - 1], steps[i - 1]);
      } else {
        TableStepKeepsChildren(run[i - 1], steps[i - 1]);
      }
    }
  }

  /** cancel_job never misses the child: whenever it finds a live record, that has a process,
      which is the child of the worker that owns the record as long as that has not been
      reaped, and from then on a terminate request for it has been or is about to be sent. */
  lemma JobCancelReachesChild(run: seq<State>, steps: seq<Step>, i: nat, j: nat) returns (w: nat, pid: nat)
    requires IsRun(run, steps) && i < |steps| && i < j < |run| && steps[i].CancelJob?
    requires steps[i].found in run[i].active && !run[i].active[steps[i].found].state.Terminal()
    ensures Owns(run[i], w, steps[i].found)
    ensures run[i].workers[w].Child().Some? ==> run[i].workers[w].Child() == Some(pid)
    ensures pid in run[j].pending || pid in run[j].terminated
  {
    var s, key := run[i], steps[i].found;
    RunKeepsInv(run, steps, i);
    RunKeepsChildren(run, steps, i);
    assert key in Heavy(s.active);
    w :| Owns(s, w, key);
    assert Next(s, steps[i]) == Some(run[i + 1]);
    CancelIsExact(s, steps[i]);
    pid := s.active[key].processId.value;
    CancelReachesProcess(run, steps, i, j, pid);
  }

  // ---------- what else terminates a process ----------

  /** A step asks for the termination of a process: a cancel of the live record that it is
      registered for; the registration of an initializing child, or the next step after the
      registration of a setup child, whose operation is flagged; or a setup that timed out. */
  predicate Asks(s: State, step: Step, pid: nat) {
    match step
    case CancelJob(_, found) => Registers(s, found, pid)
    case CancelSetup(_, found) => Registers(s, found, pid)
    case InitRegister(w, _) =>
      w in s.workers && s.workers[w].pc == InitSpawned(pid) && CancelRequested(s.active, s.workers[w].key)
    case Terminate(w) =>
      w in s.workers && s.workers[w].pc == Pc.Terminating(pid) && CancelRequested(s.active, s.workers[w].key)
    case SetupFinish(w, _, timedOut, _) => timedOut && w in s.workers && s.workers[w].pc == Streaming(pid)
    case _ => false
  }

  /** The process is registered for the live record. */
  predicate Registers(s: State, key: OpKey, pid: nat) {
    key in s.active && !s.active[key].state.Terminal() && s.active[key].processId == Some(pid)
  }

  /** Who kills: only a worker whose child is asked for. */
  lemma WorkerAsks(s: State, step: Step, x: Worker, r: JobRecord, pid: nat)
    requires IsWorkerStep(step) && WorkerStep(s, step, x, r).Some?
    ensures pid in WorkerStep(s, step, x, r).value.killed <==>
      match step
      case InitRegister(_, _) => x.pc == InitSpawned(pid) && r.cancelRequested
      case Terminate(_) => x.pc == Pc.Terminating(pid)
      case SetupFinish(_, _, timedOut, _) => timedOut && x.pc == Streaming(pid)
      case _ => false
  {
  }

  lemma WorkerRequestsIffAsked(s: State, step: Step, pid: nat)
    requires Inv(s) && IsWorkerStep(step) && NextOfWorker(s, step).Some? && !Requested(s, pid)
    ensures Requested(NextOfWorker(s, step).value, pid) <==> Asks(s, step, pid)
  {
    var x := s.workers[step.w];
    var r := s.active[x.key];
    WorkerAsks(s, step, x, r, pid);
    OnlyLiveWorkersAct(s, step, x, r);
    TerminatingIsFlagged(s, step.w);
    var t := NextOfWorker(s, step).value;
    assert t.pending == s.pending && t.terminated == s.terminated + WorkerStep(s, step, x, r).value.killed;
  }

  lemma TerminatingIsFlagged(s: State, w: nat)
    requires Inv(s) && w in s.workers
    ensures s.workers[w].pc.Terminating? ==> CancelRequested(s.active, s.workers[w].key)
  {
    assert WorkerOk(s, w);
  }

  /** A process is newly requested exactly by a step that asks for it. */
  lemma RequestedIffAsked(s: State, step: Step, pid: nat)
    requires Inv(s) && Next(s, step).Some? && !Requested(s, pid)
    ensures Requested(Next(s, step).value, pid) <==> Asks(s, step, pid)
  {
    if IsWorkerStep(step) {
      WorkerRequestsIffAsked(s, step, pid);
    } else if IsCancel(step) {
      CancelIsExact(s, step);
    } else {
      assert Next(s, step) == NextOfTable(s, step);
    }
  }

  /** Nothing is terminated without cause: a process that was requested to terminate was
      asked for at some step, by a cancel of its operation or a setup that timed out. */
  lemma {:induction false} RequestHasCause(run: seq<State>, steps: seq<Step>, n: nat, pid: nat) returns (i: nat)
    requires IsRun(run, steps) && n < |run| && Requested(run[n], pid)
    ensures i < n && Asks(run[i], steps[i], pid)
  {
    assert n > 0;
    assert Next(run[n - 1], steps[n - 1]) == Some(run[n]);
    if Requested(run[n - 1], pid) {
      i := RequestHasCause(run, steps, n - 1, pid);
    } else {
      i := n - 1;
      RunKeepsInv(run, steps, i);
      RequestedIffAsked(run[i], steps[i], pid);
    }
  }

  lemma WorkerStepKeepsFlags(s: State, step: Step, key: OpKey)
    requires IsWorkerStep(step) && NextOfWorker(s, step).Some?
    ensures CancelRequested(NextOfWorker(s, step).value.active, key) <==> CancelRequested(s.active, key)
  {
    var x := s.workers[step.w];
    WorkerStepKeepsRequest(s, step, x, s.active[x.key]);
    OnlyLiveWorkersAct(s, step, x, s.active[x.key]);
  }

  /** And an operation is flagged only by a cancel that found it. */
  lemma {:induction false} FlagHasCause(run: seq<State>, steps: seq<Step>, n: nat, key: OpKey) returns (i: nat)
    requires IsRun(run, steps) && n < |run| && CancelRequested(run[n].active, key)
    ensures i < n && IsCancel(steps[i]) && steps[i].found == key
  {
    assert n > 0;
    assert Next(run[n - 1], steps[n - 1]) == Some(run[n]);
    if CancelRequested(run[n - 1].active, key) {
      i := FlagHasCause(run, steps, n - 1, key);
    } else {
      i := n - 1;
      if IsWorkerStep(steps[i]) {
        WorkerStepKeepsFlags(run[i], steps[i], key);
        assert false;
      } else if IsCancel(steps[i]) {
        CancelIsExact(run[i], steps[i]);
      }
    }
  }

  // ---------- a cancelled operation ends Cancelled ----------

  /** The operation is live and flagged, or has ended Cancelled. */
  predicate Doomed(s: State, w: nat) {
    w in s.workers &&
    if s.workers[w].Alive() then CancelRequested(s.active, s.workers[w].key)
    else s.workers[w].outcome == Some(LifecycleState.Cancelled)
  }

  lemma WorkerStepKeepsDoom(s: State, step: Step, w: nat)
    requires Inv(s) && IsWorkerStep(step) && NextOfWorker(s, step).Some? && Doomed(s, w)
    ensures Doomed(NextOfWorker(s, step).value, w)
    ensures NextOfWorker(s, step).value.workers[w].key == s.workers[w].key
  {
    var x := s.workers[step.w];
    var r := s.active[x.key];
    OnlyLiveWorkersAct(s, step, x, r);
    WorkerStepKeepsRequest(s, step, x, r);
    FinishEndsWorker(s, step, x, r);
    if step.Finish? || step.SetupFinish? {
      FinishFollowsFlag(s, step, x, r);
    }
  }

  lemma TableStepKeepsDoom(s: State, step: Step, w: nat)
    requires Inv(s) && !IsWorkerStep(step) && NextOfTable(s, step).Some? && Doomed(s, w)
    ensures Doomed(NextOfTable(s, step).value, w)
    ensures NextOfTable(s, step).value.workers[w].key == s.workers[w].key
  {
    assert s.workers[w].Alive() ==> s.workers[w].key in Heavy(s.active);
  }

  /** Once an operation of any kind is flagged while it is live, it stays so until it ends,
      and it ends Cancelled: neither registration nor another reservation revives it. */
  lemma {:induction false} FlaggedEndsCancelled(run: seq<State>, steps: seq<Step>, i: nat, j: nat, w: nat)
    requires IsRun(run, steps) && i <= j < |run| && Doomed(run[i], w)
    ensures Doomed(run[j], w) && run[j].workers[w].key == run[i].workers[w].key
  {
    if i < j {
      FlaggedEndsCancelled(run, steps, i, j - 1, w);
      assert Next(run[j - 1], steps[j - 1]) == Some(run[j]);
      RunKeepsInv(run, steps, j - 1);
      if IsWorkerStep(steps[j - 1]) {
        WorkerStepKeepsDoom(run[j - 1], steps[j - 1], w);
      } else {
        TableStepKeepsDoom(run[j - 1], steps[j - 1], w);
      }
    }
  }

  /** Every cancel that finds a live record is honoured: the one worker that owns the record
      stays flagged from then on, and ends Cancelled. */
  lemma CancelIsHonoured(run: seq<State>, steps: seq<Step>, i: nat, j: nat) returns (w: nat)
    requires IsRun(run, steps) && i < |steps| && i < j < |run| && IsCancel(steps[i])
    requires steps[i].found in run[i].active && !run[i].active[steps[i].found].state.Terminal()
    ensures Owns(run[i], w, steps[i].found)
    ensures w in run[j].workers && run[j].workers[w].key == steps[i].found
    ensures if run[j].workers[w].Alive() then CancelRequested(run[j].active, steps[i].found)
            else run[j].workers[w].outcome == Some(LifecycleState.Cancelled)
  {
    var s, key := run[i], steps[i].found;
    assert Next(s, steps[i]) == Some(run[i + 1]);
    RunKeepsInv(run, steps, i);
    assert key in Heavy(s.active);
    w :| Owns(s, w, key);
    CancelIsExact(s, steps[i]);
    FlaggedEndsCancelled(run, steps, i + 1, j, w);
  }

  // ---------- a cancelled setup starts nothing ----------

  /** Before the locked section that reads the flag after initialization. */
  predicate BeforeCheck(pc: Pc) {
    pc.Adopting? || pc.EnterInit? || InInitializer(pc) || pc.InitFailed? || pc.CheckCancel?
  }

  /** The setup has not passed the check, or is ending with the CANCELLED event. */
  predicate Stopping(s: State, w: nat) {
    && w in s.workers && IsSetup(s.workers[w]) && CancelRequested(s.active, s.workers[w].key)
    && (BeforeCheck(s.workers[w].pc)
        || ((s.workers[w].pc.Finishing? || s.workers[w].pc.Emitting? || s.workers[w].pc.Done?)
            && s.workers[w].pc.code == CancelledCode))
  }

  lemma StoppingStays(s: State, step: Step, x: Worker, r: JobRecord)
    requires IsWorkerStep(step) && WorkerStep(s, step, x, r).Some? && IsSetup(x) && r.cancelRequested
    requires BeforeCheck(x.pc) || (x.pc.Finishing? && x.pc.code == CancelledCode)
    ensures var y := WorkerStep(s, step, x, r).value.x;
      BeforeCheck(y.pc) || ((y.pc.Finishing? || y.pc.Emitting?) && y.pc.code == CancelledCode)
  {
  }

  lemma OwnStepKeepsStopping(s: State, step: Step)
    requires IsWorkerStep(step) && NextOfWorker(s, step).Some? && Stopping(s, step.w)
    ensures Stopping(NextOfWorker(s, step).value, step.w)
  {
    var x := s.workers[step.w];
    var r := s.active[x.key];
    OnlyLiveWorkersAct(s, step, x, r);
    StoppingStays(s, step, x, r);
    WorkerStepKeepsRequest(s, step, x, r);
  }

  /** Other workers' steps, and those of no worker, leave a worker where it is, except for
      emitting its completion event. */
  lemma OtherStepKeepsPc(s: State, step: Step, w: nat)
    requires Next(s, step).Some? && w in s.workers && !(IsWorkerStep(step) && step.w == w)
    ensures var t := Next(s, step).value;
      w in t.workers && t.workers[w] ==
        if step == Emit(w) then s.workers[w].(pc := Done(s.workers[w].pc.code)) else s.workers[w]
  {
    if !IsWorkerStep(step) {
      assert Next(s, step) == NextOfTable(s, step);
    }
  }

  lemma StepKeepsStopping(s: State, step: Step, w: nat)
    requires Inv(s) && Next(s, step).Some? && Stopping(s, w)
    ensures Stopping(Next(s, step).value, w)
  {
    if IsWorkerStep(step) && step.w == w {
      OwnStepKeepsStopping(s, step);
    } else {
      OtherStepKeepsPc(s, step, w);
      StepKeepsSetupCancel(s, step, w);
    }
  }

  /** A setup operation cancelled before it has passed the check, however far its
      initialization has come, never spawns its child and reports CANCELLED. */
  lemma {:induction false} CancelledSetupStartsNothing(run: seq<State>, steps: seq<Step>, i: nat, j: nat, w: nat)
    requires IsRun(run, steps) && i <= j < |run| && w in run[i].workers && IsSetup(run[i].workers[w])
    requires BeforeCheck(run[i].workers[w].pc) && CancelRequested(run[i].active, run[i].workers[w].key)
    ensures Stopping(run[j], w)
  {
    if i < j {
      CancelledSetupStartsNothing(run, steps, i, j - 1, w);
      assert Next(run[j - 1], steps[j - 1]) == Some(run[j]);
      RunKeepsInv(run, steps, j - 1);
      StepKeepsStopping(run[j - 1], steps[j - 1], w);
    }
  }
}
