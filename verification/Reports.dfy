/** What the operations of the step system in module Lifecycle report: every line of the
    child's output, then the one completion event that the way they ended calls for; and
    when they may start a child and never wait for themselves (the workers of
    app/src-tauri/src/main.rs). */
module Reports {
  import opened Wrappers
  import opened ProcessManager
  import opened Lifecycle
  import IC = InitializationCoordinator

  // ---------- lines ----------

  /** The lines that the child of worker `w` has delivered. */
  function Output(steps: seq<Step>, w: nat): seq<Line> {
    if steps == [] then []
    else
      var last := steps[|steps| - 1];
      Output(steps[..|steps| - 1], w) + if last.ReadLine? && last.w == w then [last.line] else []
  }

  /** The line whose job id has been adopted and whose event has not been emitted yet. */
  function InHand(pc: Pc): seq<Line> {
    if pc.Forwarding? then [Json(pc.value)] else []
  }

  lemma WorkerStepLines(s: State, step: Step, x: Worker, r: JobRecord)
    requires IsWorkerStep(step) && WorkerStep(s, step, x, r).Some?
    ensures var y := WorkerStep(s, step, x, r).value.x;
      y.lines + InHand(y.pc) == x.lines + InHand(x.pc) + if step.ReadLine? then [step.line] else []
  {
  }

  function Held(s: State, w: nat): seq<Line> {
    if w in s.workers then s.workers[w].lines + InHand(s.workers[w].pc) else []
  }

  lemma StepLines(s: State, step: Step, w: nat)
    requires Next(s, step).Some?
    ensures Held(Next(s, step).value, w) ==
      Held(s, w) + if step.ReadLine? && step.w == w then [step.line] else []
  {
    if IsWorkerStep(step) {
      var x := s.workers[step.w];
      WorkerStepLines(s, step, x, s.active[x.key]);
    } else {
      TableStepLines(s, step, w);
    }
    assert Held(s, w) + [] == Held(s, w);
  }

  /** What a worker has processed and has in hand is exactly what its child delivered. */
  lemma {:induction false} LinesAreOutput(run: seq<State>, steps: seq<Step>, i: nat, w: nat)
    requires IsRun(run, steps) && i < |run|
    ensures Output(steps[..i], w) == Held(run[i], w)
  {
    if i > 0 {
      assert Next(run[i - 1], steps[i - 1]) == Some(run[i]);
      LinesAreOutput(run, steps, i - 1, w);
      StepLines(run[i - 1], steps[i - 1], w);
      assert steps[..i][..i - 1] == steps[..i - 1] && steps[..i][i - 1] == steps[i - 1];
    }
  }

  lemma TableStepLines(s: State, step: Step, w: nat)
    requires !IsWorkerStep(step) && NextOfTable(s, step).Some?
    ensures var t := NextOfTable(s, step).value;
      && (w in s.workers ==> w in t.workers && t.workers[w].lines == s.workers[w].lines
                             && InHand(t.workers[w].pc) == InHand(s.workers[w].pc))
      && (w !in s.workers && w in t.workers ==> t.workers[w].lines == [] && InHand(t.workers[w].pc) == [])
  {
  }

  /** Which lines are forwarded: those that are JSON, except in stream_pipeline for the ones
      that complete the operation; in the order they come. */
  lemma ForwardedLines(w: nat, key: OpKey, lines: seq<Line>, value: Value)
    ensures ForwardsOf(w, key, []) == []
    ensures ForwardsOf(w, key, lines + [Line.Rejected]) == ForwardsOf(w, key, lines)
    ensures ForwardsOf(w, key, lines + [Json(value)]) == ForwardsOf(w, key, lines) +
      if value.completion && !key.SetupKey? then [] else [Forwarded(w, value)]
  {
    ForwardsOfAppend(w, key, lines, Line.Rejected);
    ForwardsOfAppend(w, key, lines, Json(value));
  }

  /** Everything an operation has emitted, at every point of every run: of the lines its child
      delivered those to be forwarded, the last one perhaps still in hand; and once it is
      done one completion event. */
  lemma EverythingIsReported(run: seq<State>, steps: seq<Step>, i: nat, w: nat)
    requires IsRun(run, steps) && i < |run| && w in run[i].workers
    ensures var x := run[i].workers[w];
      EventsOf(run[i].log, w) + (if x.pc.Forwarding? then [Forwarded(w, x.pc.value)] else []) ==
      ForwardsOf(w, x.key, Output(steps[..i], w)) + (if x.pc.Done? then [Completion(w, x.pc.code)] else [])
  {
    var x := run[i].workers[w];
    LinesAreOutput(run, steps, i, w);
    OneCompletionEvent(run, steps, i, w);
    if x.pc.Forwarding? {
      ForwardedLines(w, x.key, x.lines, x.pc.value);
      RunKeepsHand(run, steps, i, w);
      assert EventsOf(run[i].log, w) == ForwardsOf(w, x.key, x.lines);
    } else {
      assert x.lines + [] == x.lines;
    }
  }

  /** Only a line that does not complete the operation is held back for its job id. */
  predicate HandFits(x: Worker) {
    x.pc.Forwarding? ==> !x.pc.value.completion && !x.key.SetupKey?
  }

  lemma WorkerStepKeepsHand(s: State, step: Step, x: Worker, r: JobRecord)
    requires IsWorkerStep(step) && WorkerStep(s, step, x, r).Some? && HandFits(x)
    ensures HandFits(WorkerStep(s, step, x, r).value.x)
  {
  }

  lemma {:induction false} RunKeepsHand(run: seq<State>, steps: seq<Step>, i: nat, w: nat)
    requires IsRun(run, steps) && i < |run|
    ensures w in run[i].workers ==> HandFits(run[i].workers[w])
  {
    if i > 0 {
      var s, step := run[i - 1], steps[i - 1];
      assert Next(s, step) == Some(run[i]);
      RunKeepsHand(run, steps, i - 1, w);
      if IsWorkerStep(step) {
        var x := s.workers[step.w];
        if step.w == w {
          WorkerStepKeepsHand(s, step, x, s.active[x.key]);
        }
      } else {
        assert Next(s, step) == NextOfTable(s, step);
      }
    }
  }

  // ---------- the completion event ----------

  /** The payload held at the end is the last completing line received. */
  lemma {:induction false} LastCompletionIsExact(lines: seq<Line>, value: Value)
    ensures LastCompletion(lines) == Some(value) <==> exists k :: IsLastCompletion(lines, k, value)
  {
    if lines != [] {
      var n := |lines| - 1;
      if lines[n].Json? && lines[n].value.completion {
        if LastCompletion(lines) == Some(value) {
          assert IsLastCompletion(lines, n, value);
        }
        if k :| IsLastCompletion(lines, k, value) {
          assert k == n;
        }
      } else {
        LastCompletionIsExact(lines[..n], value);
        if k :| IsLastCompletion(lines[..n], k, value) {
          assert IsLastCompletion(lines, k, value);
        }
        if k :| IsLastCompletion(lines, k, value) {
          assert k != n && IsLastCompletion(lines[..n], k, value);
        }
      }
    }
  }

  predicate IsLastCompletion(lines: seq<Line>, k: int, value: Value) {
    && 0 <= k < |lines| && lines[k] == Json(value) && value.completion
    && forall j :: k < j < |lines| && lines[j].Json? ==> !lines[j].value.completion
  }

  /** The event that a step calls for which ends an operation or settles how it will end,
      given whether the operation is flagged and what its child delivered; and whether it
      ends with success. */
  predicate CallsFor(step: Step, flagged: bool, lines: seq<Line>, code: Code, success: bool) {
    match step
    case InitEnd(_, result) => !result.Succeeded? && code == InitFailedCode && !success
    case ReadInitFailed(_) => code == (if flagged then CancelledCode else InitFailedCode) && !success
    case CheckAfterInit(_) => flagged && code == CancelledCode && !success
    case SpawnFail(_) => code == StartFailedCode && !success
    case ReadFlag(_) =>
      if flagged then code == CancelledCode && !success
      else if LastCompletion(lines).Some? then
        code == PayloadCode(LastCompletion(lines).value) && success == LastCompletion(lines).value.ok
      else code == NativeExitCode && !success
    case SetupFinish(_, exitOk, timedOut, _) =>
      && code == (if flagged then CancelledCode
                  else if timedOut then SetupTimedOutCode
                  else if exitOk then SetupOkCode else SetupFailedCode)
      && success == (exitOk && !flagged)
    case _ => false
  }

  /** A worker settles its event only in such a step, and as that step calls for. */
  lemma DecisionIsExact(s: State, step: Step, x: Worker, r: JobRecord)
    requires IsWorkerStep(step) && WorkerStep(s, step, x, r).Some? && !x.pc.Finishing?
    ensures var y := WorkerStep(s, step, x, r).value.x;
      && (y.pc.Finishing? ==> CallsFor(step, r.cancelRequested, x.lines, y.pc.code, y.pc.success))
      && (y.pc.Emitting? ==> CallsFor(step, r.cancelRequested, x.lines, y.pc.code, y.outcome == Some(Completed)))
  {
  }

  /** Step `i` of worker `w` settled the event `code`. */
  ghost predicate Settles(run: seq<State>, steps: seq<Step>, i: nat, w: nat, code: Code)
    requires IsRun(run, steps)
  {
    && i < |steps| && w in run[i].workers && IsWorkerStep(steps[i]) && steps[i].w == w
    && exists success :: CallsFor(steps[i], CancelRequested(run[i].active, run[i].workers[w].key),
                                  Output(steps[..i], w), code, success)
  }

  /** For every operation that has settled how it ends, of every kind, in every run: its event
      is the one called for by the step that settled it. */
  lemma {:induction false} EventIsExact(run: seq<State>, steps: seq<Step>, n: nat, w: nat) returns (i: nat)
    requires IsRun(run, steps) && n < |run| && w in run[n].workers
    requires run[n].workers[w].pc.Finishing? || !run[n].workers[w].Alive()
    ensures i < n && Settles(run, steps, i, w, run[n].workers[w].pc.code)
  {
    assert n > 0;
    assert Next(run[n - 1], steps[n - 1]) == Some(run[n]);
    var s, step := run[n - 1], steps[n - 1];
    if w in s.workers && (s.workers[w].pc.Finishing? || !s.workers[w].Alive()) {
      StepKeepsCode(s, step, w, s.workers[w].pc.code);
      i := EventIsExact(run, steps, n - 1, w);
    } else {
      i := n - 1;
      EventJustSettled(run, steps, i, w);
    }
  }

  lemma EventJustSettled(run: seq<State>, steps: seq<Step>, i: nat, w: nat)
    requires IsRun(run, steps) && i < |steps| && w in run[i + 1].workers
    requires w in run[i].workers ==> run[i].workers[w].Alive() && !run[i].workers[w].pc.Finishing?
    requires run[i + 1].workers[w].pc.Finishing? || !run[i + 1].workers[w].Alive()
    ensures Settles(run, steps, i, w, run[i + 1].workers[w].pc.code)
  {
    assert Next(run[i], steps[i]) == Some(run[i + 1]);
    JustSettled(run[i], steps[i], run[i + 1], w);
    LinesAreOutput(run, steps, i, w);
    var x := run[i].workers[w];
    assert x.lines + InHand(x.pc) == x.lines;
  }

  lemma JustSettled(s: State, step: Step, t: State, w: nat)
    requires Next(s, step) == Some(t) && w in t.workers
    requires w in s.workers ==> s.workers[w].Alive() && !s.workers[w].pc.Finishing?
    requires t.workers[w].pc.Finishing? || !t.workers[w].Alive()
    ensures IsWorkerStep(step) && step.w == w && w in s.workers && InHand(s.workers[w].pc) == []
    ensures exists success ::
      CallsFor(step, CancelRequested(s.active, s.workers[w].key), s.workers[w].lines, t.workers[w].pc.code, success)
  {
    SettledByOwner(s, step, t, w);
    var x := s.workers[w];
    var y := WorkerStep(s, step, x, s.active[x.key]).value.x;
    DecisionIsExact(s, step, x, s.active[x.key]);
    NothingInHand(s, step, x, s.active[x.key]);
    EndingPcs(s, step, x, s.active[x.key]);
    assert t.workers[w] == y && (y.pc.Finishing? || y.pc.Emitting?);
    var success := if y.pc.Finishing? then y.pc.success else y.outcome == Some(Completed);
    assert CancelRequested(s.active, x.key) == s.active[x.key].cancelRequested;
    assert CallsFor(step, CancelRequested(s.active, x.key), x.lines, t.workers[w].pc.code, success);
  }

  lemma SettledByOwner(s: State, step: Step, t: State, w: nat)
    requires Next(s, step) == Some(t) && w in t.workers
    requires w in s.workers ==> s.workers[w].Alive() && !s.workers[w].pc.Finishing?
    requires t.workers[w].pc.Finishing? || !t.workers[w].Alive()
    ensures IsWorkerStep(step) && step.w == w && w in s.workers && s.workers[w].key in s.active
  {
    if t.workers[w].pc.Finishing? {
      BeforeFinishing(s, step, w);
    } else {
      BeforeFinished(s, step, w);
    }
  }

  lemma EndingPcs(s: State, step: Step, x: Worker, r: JobRecord)
    requires IsWorkerStep(step) && WorkerStep(s, step, x, r).Some?
    ensures !WorkerStep(s, step, x, r).value.x.pc.Done?
  {
  }

  lemma NothingInHand(s: State, step: Step, x: Worker, r: JobRecord)
    requires IsWorkerStep(step) && WorkerStep(s, step, x, r).Some?
    requires var y := WorkerStep(s, step, x, r).value.x; y.pc.Finishing? || !y.Alive()
    ensures InHand(x.pc) == []
  {
  }

  // ---------- starting ----------

  /** Operations that go through the initializer first are beyond it. */
  predicate Started(x: Worker) {
    FreshKey(x.key) && (x.pc.CheckCancel? || x.pc.Spawning? || x.pc.Spawned? || x.pc.Terminating? || x.pc.Streaming?
                        || x.pc.Forwarding? || x.pc.ReadingFlag?)
  }

  lemma StartsOnlyWhenReady(s: State, step: Step, x: Worker, r: JobRecord)
    requires IsWorkerStep(step) && WorkerStep(s, step, x, r).Some? && IC.Inv(s.coord)
    requires Started(x) ==> s.coord.ready
    ensures var e := WorkerStep(s, step, x, r).value;
      && (s.coord.ready ==> e.coord.ready)
      && (Started(e.x) ==> e.coord.ready)
  {
    match step
    case InitEnter(w) => IC.StepKeepsInv(s.coord, IC.Enter(w));
    case InitEnd(w, result) => IC.StepKeepsInv(s.coord, IC.End(w, result));
    case _ =>
  }

  /** No run or setup operation spawns its child before the pipeline has been initialized. */
  lemma {:induction false} InitializedFirst(run: seq<State>, steps: seq<Step>, i: nat, w: nat)
    requires IsRun(run, steps) && i < |run|
    ensures w in run[i].workers && Started(run[i].workers[w]) ==> run[i].coord.ready
  {
    if i > 0 {
      var s, step := run[i - 1], steps[i - 1];
      assert Next(s, step) == Some(run[i]);
      RunKeepsInv(run, steps, i - 1);
      InitializedFirst(run, steps, i - 1, w);
      if IsWorkerStep(step) {
        var x := s.workers[step.w];
        InitializedFirst(run, steps, i - 1, step.w);
        StartsOnlyWhenReady(s, step, x, s.active[x.key]);
      } else {
        TableStepStartsNothing(s, step, w);
      }
    }
  }

  lemma TableStepStartsNothing(s: State, step: Step, w: nat)
    requires Inv(s) && !IsWorkerStep(step) && NextOfTable(s, step).Some?
    ensures var t := NextOfTable(s, step).value;
      && (s.coord.ready ==> t.coord.ready)
      && (w in t.workers && Started(t.workers[w]) ==> w in s.workers && Started(s.workers[w]))
  {
    if step.OtherInit? {
      IC.StepKeepsInv(s.coord, step.coordStep);
    }
  }

  /** The operation has a child that has been spawned, or reports what became of one. */
  predicate HadChild(x: Worker) {
    match x.pc
    case Spawned(_) => true
    case Terminating(_) => true
    case Streaming(_) => true
    case Forwarding(_, _) => true
    case ReadingFlag => true
    case Finishing(_, code) => TellsOfChild(code)
    case Emitting(code) => TellsOfChild(code)
    case Done(code) => TellsOfChild(code)
    case _ => false
  }

  predicate TellsOfChild(code: Code) {
    code.PayloadCode? || code.NativeExitCode? || code.SetupTimedOutCode? || code.SetupOkCode? || code.SetupFailedCode?
  }

  lemma OnlySpawnGivesChild(s: State, step: Step, x: Worker, r: JobRecord)
    requires IsWorkerStep(step) && WorkerStep(s, step, x, r).Some? && !HadChild(x)
    ensures HadChild(WorkerStep(s, step, x, r).value.x) ==> step.Spawn? && x.pc.Spawning?
  {
  }

  /** No operation reports what a child did, or that one exited, without having spawned it. */
  lemma {:induction false} ChildWasSpawned(run: seq<State>, steps: seq<Step>, n: nat, w: nat) returns (i: nat)
    requires IsRun(run, steps) && n < |run| && w in run[n].workers && HadChild(run[n].workers[w])
    ensures i < n && steps[i].Spawn? && steps[i].w == w
    ensures w in run[i].workers && run[i].workers[w].pc.Spawning?
  {
    assert n > 0;
    assert Next(run[n - 1], steps[n - 1]) == Some(run[n]);
    var s, step := run[n - 1], steps[n - 1];
    if w in s.workers && HadChild(s.workers[w]) {
      i := ChildWasSpawned(run, steps, n - 1, w);
    } else {
      i := n - 1;
      if IsWorkerStep(step) {
        var x := s.workers[step.w];
        OnlySpawnGivesChild(s, step, x, s.active[x.key]);
      } else {
        assert Next(s, step) == NextOfTable(s, step);
      }
    }
  }

  /** After initialization a run operation, and after the check a setup operation that is not
      flagged, can only try to start its child. */
  lemma InitializedStartsChild(s: State, step: Step, x: Worker, r: JobRecord)
    requires IsWorkerStep(step) && WorkerStep(s, step, x, r).Some?
    ensures var y := WorkerStep(s, step, x, r).value.x;
      && (step.InitEnter? || step.InitEnd? ==>
          y.pc.EnterInit? || y.pc.RunInit? || y.pc.InitFailed? || y.pc == Finishing(false, InitFailedCode)
          || y.pc == (if x.key.SetupKey? then CheckCancel else Spawning))
      && (step.InitEnd? ==> (step.result.Succeeded? <==> y.pc.CheckCancel? || y.pc.Spawning?))
      && (step.CheckAfterInit? && !r.cancelRequested ==> y.pc.Spawning?)
      && (x.pc.Spawning? ==> step.Spawn? || (step.SpawnFail? && y.pc == Finishing(false, StartFailedCode)))
  {
  }

  // ---------- progress ----------

  /** How far a worker has come. */
  function Rank(pc: Pc): nat {
    match pc
    case Adopting => 0
    case EnterInit => 1
    case RunInit => 2
    case InitSpawned(_) => 3
    case InitRegistered(_) => 4
    case InitFailed => 5
    case CheckCancel => 5
    case Spawning => 6
    case Spawned(_) => 7
    case Terminating(_) => 8
    case Streaming(_) => 9
    case Forwarding(_, _) => 9
    case ReadingFlag => 10
    case Finishing(_, _) => 11
    case Emitting(_) => 12
    case Done(_) => 13
  }

  /** Every step of a worker leads on: to a later point, or by a line of its child's output,
      or, having had to wait, to the point where it is parked. So an operation whose child
      stops printing ends. */
  lemma StepsLeadOn(s: State, step: Step, x: Worker, r: JobRecord)
    requires IsWorkerStep(step) && WorkerStep(s, step, x, r).Some?
    ensures var e := WorkerStep(s, step, x, r).value;
      || Rank(x.pc) < Rank(e.x.pc)
      || (step.ReadLine? && Rank(x.pc) == Rank(e.x.pc)
          && |e.x.lines| + |InHand(e.x.pc)| == |x.lines| + |InHand(x.pc)| + 1)
      || (step.ForwardLine? && Rank(x.pc) == Rank(e.x.pc) && |e.x.lines| == |x.lines| + 1 && !e.x.pc.Forwarding?)
      || (step.InitEnter? && e.x.pc.EnterInit? && step.w in e.coord.phase && e.coord.phase[step.w].Parked?)
  {
  }

  /** The environment is free: at every point where it decides, each of its decisions is
      possible. */
  lemma EnvironmentIsFree(s: State, w: nat, pid: nat, line: Line, result: IC.InitResult, ok: bool, late: bool, now: nat)
    requires Inv(s) && w in s.workers && s.workers[w].Alive() && pid !in s.pids && !(ok && late)
    ensures var x := s.workers[w];
      && (x.pc.RunInit? ==> Next(s, InitSpawn(w, pid)).Some?)
      && (x.pc.RunInit? && !result.Succeeded? ==> Next(s, InitEnd(w, result)).Some?)
      && (x.pc.InitRegistered? ==> Next(s, InitEnd(w, result)).Some?)
      && (x.pc.Spawning? ==> Next(s, Spawn(w, pid)).Some? && Next(s, SpawnFail(w)).Some?)
      && (x.pc.Streaming? ==> Next(s, ReadLine(w, line, now)).Some?)
      && (x.pc.Streaming? && !IsSetup(x) ==> Next(s, EndOfStream(w)).Some?)
      && (x.pc.Streaming? && IsSetup(x) ==> Next(s, SetupFinish(w, ok, late, now)).Some?)
  {
    var x := s.workers[w];
    assert WorkerOk(s, w);
    assert x.key in s.active;
    FreeWorker(s, w, x, s.active[x.key], pid, line, result, ok, late, now);
    WorkerCan(s, InitSpawn(w, pid));
    WorkerCan(s, InitEnd(w, result));
    WorkerCan(s, Spawn(w, pid));
    WorkerCan(s, SpawnFail(w));
    WorkerCan(s, ReadLine(w, line, now));
    WorkerCan(s, EndOfStream(w));
    WorkerCan(s, SetupFinish(w, ok, late, now));
  }

  lemma WorkerCan(s: State, step: Step)
    requires IsWorkerStep(step) && step.w in s.workers && s.workers[step.w].key in s.active
    ensures Next(s, step).Some? <==>
      WorkerStep(s, step, s.workers[step.w], s.active[s.workers[step.w].key]).Some?
  {
  }

  /** What is not up to a live worker is possible too: a reservation is granted or refused as
      the table says, threads outside the workers use the coordinator, and an operation that
      has finished emits its event. */
  lemma OthersAreFree(s: State, w: nat, key: OpKey, now: nat, c: IC.Step)
    ensures KeyUnused(s, key) && w !in s.workers && w !in s.coord.phase ==>
      var reserved := ReserveOutcome(s.active, s.maxHeavy, key).Ok?;
      var t := Next(s, if reserved then Reserve(w, key, now) else Refused(key, now));
      && t.Some? && t.value.active == AfterReserve(s.active, s.maxHeavy, key, now)
      && (w in t.value.workers <==> reserved)
      && (reserved ==> t.value.workers[w] == Worker(key, StartPc(key), [], None))
    ensures IC.Enabled(s.coord, c) && c.thread !in s.workers ==>
      Next(s, OtherInit(c)) == Some(s.(coord := IC.Apply(s.coord, c)))
    ensures w in s.workers && s.workers[w].pc.Emitting? ==>
      var t := Next(s, Emit(w));
      && t.Some? && t.value.log == s.log + [Completion(w, s.workers[w].pc.code)]
      && t.value.workers == s.workers[w := s.workers[w].(pc := Done(s.workers[w].pc.code))]
  {
  }

  lemma FreeWorker(s: State, w: nat, x: Worker, r: JobRecord, pid: nat, line: Line, result: IC.InitResult, ok: bool,
                   late: bool, now: nat)
    requires pid !in s.pids && !(ok && late) && (InInitializer(x.pc) ==> IC.IsInitializing(s.coord, w))
    ensures x.pc.RunInit? ==> WorkerStep(s, InitSpawn(w, pid), x, r).Some?
    ensures x.pc.RunInit? && !result.Succeeded? ==> WorkerStep(s, InitEnd(w, result), x, r).Some?
    ensures x.pc.InitRegistered? ==> WorkerStep(s, InitEnd(w, result), x, r).Some?
    ensures x.pc.Spawning? ==> WorkerStep(s, Spawn(w, pid), x, r).Some? && WorkerStep(s, SpawnFail(w), x, r).Some?
    ensures x.pc.Streaming? ==> WorkerStep(s, ReadLine(w, line, now), x, r).Some?
    ensures x.pc.Streaming? && !IsSetup(x) ==> WorkerStep(s, EndOfStream(w), x, r).Some?
    ensures x.pc.Streaming? && IsSetup(x) ==> WorkerStep(s, SetupFinish(w, ok, late, now), x, r).Some?
  {
  }

  lemma OwnStep(s: State, w: nat, x: Worker, r: JobRecord, pid: nat, now: nat) returns (step: Step)
    requires x.Alive() && PcFits(x.key, x.pc) && pid !in s.pids
    requires InInitializer(x.pc) ==> IC.IsInitializing(s.coord, w)
    ensures IsWorkerStep(step) && step.w == w
    ensures WorkerStep(s, step, x, r).Some? || (x.pc.EnterInit? && !IC.Enabled(s.coord, IC.Enter(w)))
  {
    step := match x.pc
      case Adopting => AdoptSetup(w)
      case EnterInit => InitEnter(w)
      case RunInit => InitSpawn(w, pid)
      case InitSpawned(_) => InitRegister(w, now)
      case InitRegistered(_) => InitEnd(w, IC.Succeeded)
      case InitFailed => ReadInitFailed(w)
      case CheckCancel => CheckAfterInit(w)
      case Spawning => Spawn(w, pid)
      case Spawned(_) => Register(w, now)
      case Terminating(_) => Terminate(w)
      case Streaming(_) => if IsSetup(x) then SetupFinish(w, true, false, now) else EndOfStream(w)
      case Forwarding(_, _) => ForwardLine(w)
      case ReadingFlag => ReadFlag(w)
      case _ => Finish(w, now);
  }

  /** No operation is stuck: a live worker can always take a step of its own, unless it is
      parked in the coordinator while some other thread executes the initializer. */
  lemma NoWorkerIsStuck(s: State, w: nat, pid: nat, now: nat) returns (step: Step)
    requires Inv(s) && w in s.workers && s.workers[w].Alive() && pid !in s.pids
    ensures IsWorkerStep(step) && step.w == w
    ensures Next(s, step).Some? ||
      (s.workers[w].pc.EnterInit? && w in s.coord.phase && s.coord.phase[w].Parked?
       && exists v :: v != w && IC.IsInitializing(s.coord, v))
  {
    var x := s.workers[w];
    assert WorkerOk(s, w);
    step := OwnStep(s, w, x, s.active[x.key], pid, now);
    if WorkerStep(s, step, x, s.active[x.key]).Some? {
      assert NextOfWorker(s, step).Some?;
    } else {
      assert !IC.IsInitializing(s.coord, w) && s.coord.running;
    }
  }
}
