/** The mutex-and-condvar protocol that lets one thread at a time run the
    pipeline initializer (app/src-tauri/src/sidecar.rs,
    InitializationCoordinator). Each locked section is one atomic step. */
module InitializationCoordinator {

  datatype Phase =
    | Parked        // inside changed.wait
    | Woken         // notified, or woken spuriously, and not yet holding the lock again
    | Initializing  // executing the initializer, lock released
    | ReturnedOk
    | ReturnedErr

  /** `successes` counts the initializer runs that succeeded; the code has no such
      field, the properties below need it. */
  datatype Coord = Coord(running: bool, ready: bool, phase: map<nat, Phase>, successes: nat)

  /** A panic is caught and becomes an error. */
  datatype InitResult = Succeeded | FailedInit | Panicked

  datatype Step =
    | Enter(thread: nat)             // the body of the wait loop, under the lock
    | SpuriousWake(thread: nat)
    | End(thread: nat, result: InitResult)

  const START := Coord(false, false, map[], 0)

  predicate Enabled(c: Coord, step: Step) {
    match step
    case Enter(t) => t in c.phase ==> !c.phase[t].Parked? && !c.phase[t].Initializing?
    case SpuriousWake(t) => t in c.phase && c.phase[t].Parked?
    case End(t, _) => t in c.phase && c.phase[t].Initializing?
  }

  function EnterLocked(c: Coord, t: nat): Coord {
    if c.ready then c.(phase := c.phase[t := ReturnedOk])
    else if !c.running then c.(running := true, phase := c.phase[t := Initializing])
    else c.(phase := c.phase[t := Parked])
  }

  function NotifyAll(phase: map<nat, Phase>): map<nat, Phase> {
    map t | t in phase :: if phase[t].Parked? then Woken else phase[t]
  }

  function EndLocked(c: Coord, t: nat, result: InitResult): Coord {
    Coord(
      false,
      result.Succeeded?,
      NotifyAll(c.phase)[t := if result.Succeeded? then ReturnedOk else ReturnedErr],
      if result.Succeeded? then c.successes + 1 else c.successes)
  }

  function Apply(c: Coord, step: Step): Coord
    requires Enabled(c, step)
  {
    match step
    case Enter(t) => EnterLocked(c, t)
    case SpuriousWake(t) => c.(phase := c.phase[t := Woken])
    case End(t, result) => EndLocked(c, t, result)
  }

  predicate IsInitializing(c: Coord, t: nat) {
    t in c.phase && c.phase[t].Initializing?
  }

  ghost predicate Inv(c: Coord) {
    && (forall t :: IsInitializing(c, t) ==> c.running)
    && (forall t, u :: IsInitializing(c, t) && IsInitializing(c, u) ==> t == u)
    && (c.running ==> exists t :: IsInitializing(c, t))
    && (forall t :: t in c.phase && c.phase[t].Parked? ==> c.running)
    && (c.ready ==> !c.running && c.successes == 1)
    && (!c.ready ==> c.successes == 0)
    && (forall t :: t in c.phase && c.phase[t].ReturnedOk? ==> c.ready)
  }

  lemma StepKeepsInv(c: Coord, step: Step)
    requires Inv(c) && Enabled(c, step)
    ensures Inv(Apply(c, step))
    ensures c.ready ==> Apply(c, step).ready
  {
    var d := Apply(c, step);
    match step
    case Enter(t) =>
      assert forall u :: u != t && IsInitializing(d, u) ==> IsInitializing(c, u);
      if c.running {
        var r :| IsInitializing(c, r);
        assert IsInitializing(d, r);
      } else if !c.ready {
        assert IsInitializing(d, t);
      }
    case SpuriousWake(t) =>
      assert forall u :: IsInitializing(d, u) ==> IsInitializing(c, u);
      var r :| IsInitializing(c, r);
      assert IsInitializing(d, r);
    case End(t, result) =>
      assert IsInitializing(c, t);
      forall u | IsInitializing(d, u) ensures false {
        assert IsInitializing(c, u);
      }
  }

  /** Only the thread that takes the step starts or stops initializing. */
  lemma OthersUnaffected(c: Coord, step: Step)
    requires Enabled(c, step)
    ensures forall t :: t != step.thread || step.SpuriousWake? ==>
      (IsInitializing(Apply(c, step), t) <==> IsInitializing(c, t))
  {
  }

  ghost predicate IsRun(run: seq<Coord>, steps: seq<Step>) {
    && |run| == |steps| + 1
    && run[0] == START
    && forall i {:trigger steps[i]} :: 0 <= i < |steps| ==>
        Enabled(run[i], steps[i]) && run[i + 1] == Apply(run[i], steps[i])
  }

  lemma {:induction false} RunKeepsInv(run: seq<Coord>, steps: seq<Step>, i: nat)
    requires IsRun(run, steps) && i < |run|
    ensures Inv(run[i])
  {
    if i > 0 {
      RunKeepsInv(run, steps, i - 1);
      assert steps[i - 1] == steps[i - 1];
      StepKeepsInv(run[i - 1], steps[i - 1]);
    }
  }

  /** In every run, at every point: at most one thread executes the initializer,
      it has succeeded at most once, Ok is only returned after that success, and
      nobody executes it after that success. */
  lemma MutualExclusion(run: seq<Coord>, steps: seq<Step>, i: nat)
    requires IsRun(run, steps) && i < |run|
    ensures forall t, u :: IsInitializing(run[i], t) && IsInitializing(run[i], u) ==> t == u
    ensures run[i].successes <= 1
    ensures forall t :: t in run[i].phase && run[i].phase[t].ReturnedOk? ==> run[i].successes == 1
    ensures forall t :: IsInitializing(run[i], t) ==> run[i].successes == 0
  {
    RunKeepsInv(run, steps, i);
  }

  /** Once ready, always ready, whatever fails or panics afterwards. */
  lemma {:induction false} ReadyIsStable(run: seq<Coord>, steps: seq<Step>, i: nat, j: nat)
    requires IsRun(run, steps) && i <= j < |run| && run[i].ready
    ensures run[j].ready
  {
    if i < j {
      ReadyIsStable(run, steps, i, j - 1);
      RunKeepsInv(run, steps, j - 1);
      assert steps[j - 1] == steps[j - 1];
      StepKeepsInv(run[j - 1], steps[j - 1]);
    }
  }

  /** No lost wakeup, first half: a parked thread always has a thread executing the
      initializer, and however that execution ends the parked thread is woken; if it then is
      the first to take the lock, it returns Ok or becomes the initializer. */
  lemma NoLostWakeup(run: seq<Coord>, steps: seq<Step>, i: nat, t: nat)
    requires IsRun(run, steps) && i < |run|
    requires t in run[i].phase && run[i].phase[t].Parked?
    ensures run[i].running
    ensures exists r :: IsInitializing(run[i], r)
    ensures forall r, result :: IsInitializing(run[i], r) ==>
      var after := EndLocked(run[i], r, result);
      && after.phase[t].Woken?
      && !after.running
      && EnterLocked(after, t).phase[t] == (if result.Succeeded? then ReturnedOk else Initializing)
  {
    RunKeepsInv(run, steps, i);
  }

  /** A thread that waits and has not taken the lock again is still parked, and only while
      no initializer has ended, or woken. */
  lemma {:induction false} WaitsUntilWoken(run: seq<Coord>, steps: seq<Step>, i: nat, j: nat, t: nat)
    requires IsRun(run, steps) && i <= j < |run| && t in run[i].phase && run[i].phase[t].Parked?
    requires forall m :: i <= m < j ==> steps[m] != Enter(t)
    ensures t in run[j].phase && (run[j].phase[t].Parked? || run[j].phase[t].Woken?)
    ensures (exists m :: i <= m < j && steps[m].End?) ==> run[j].phase[t].Woken?
    decreases j - i
  {
    if i < j {
      WaitsUntilWoken(run, steps, i, j - 1, t);
      assert steps[j - 1] != Enter(t);
    }
  }

  /** No lost wakeup, second half, over runs: once some initializer has ended, a thread that
      was parked before can take the lock at any point until it does, whoever comes in
      between; and then it returns Ok exactly when some initializer has succeeded, becomes
      the initializer exactly when none has and none runs, and parks again exactly when
      another thread is executing the initializer. */
  lemma WokenThreadProceeds(run: seq<Coord>, steps: seq<Step>, i: nat, k: nat, j: nat, t: nat)
    requires IsRun(run, steps) && i <= k < j < |run|
    requires t in run[i].phase && run[i].phase[t].Parked? && steps[k].End?
    requires forall m :: i <= m < j ==> steps[m] != Enter(t)
    ensures Enabled(run[j], Enter(t))
    ensures var after := Apply(run[j], Enter(t));
      && (after.phase[t].ReturnedOk? <==> run[j].successes == 1)
      && (after.phase[t].Initializing? <==> run[j].successes == 0 && forall r :: !IsInitializing(run[j], r))
      && (after.phase[t].Parked? <==> exists r :: IsInitializing(run[j], r))
      && (after.phase[t].Parked? ==> after.running && exists r :: IsInitializing(after, r))
      && (after.phase[t].ReturnedOk? || after.phase[t].Initializing? || after.phase[t].Parked?)
  {
    WaitsUntilWoken(run, steps, i, j, t);
    RunKeepsInv(run, steps, j);
    StepKeepsInv(run[j], Enter(t));
    if exists r :: IsInitializing(run[j], r) {
      var r :| IsInitializing(run[j], r);
      assert run[j].running;
      assert IsInitializing(Apply(run[j], Enter(t)), r);
    }
  }

  /** However an initializer ends, its caller returns, with Ok exactly when it succeeded; the
      coordinator is ready exactly then and free again; all parked threads and no others are
      woken. */
  lemma EndIsExact(c: Coord, t: nat, result: InitResult)
    requires Enabled(c, End(t, result))
    ensures var after := Apply(c, End(t, result));
      && after.phase.Keys == c.phase.Keys && !after.running && (after.ready <==> result.Succeeded?)
      && after.phase[t] == (if result.Succeeded? then ReturnedOk else ReturnedErr)
      && forall u :: u in c.phase && u != t ==>
          after.phase[u] == if c.phase[u].Parked? then Woken else c.phase[u]
  {
  }

  /** A caller gets an error only from the initializer it ran itself. */
  lemma {:induction false} ErrorIsOwn(run: seq<Coord>, steps: seq<Step>, n: nat, t: nat) returns (i: nat)
    requires IsRun(run, steps) && n < |run| && t in run[n].phase && run[n].phase[t].ReturnedErr?
    ensures i < n && steps[i].End? && steps[i].thread == t && !steps[i].result.Succeeded?
    ensures IsInitializing(run[i], t)
  {
    assert n > 0;
    assert steps[n - 1] == steps[n - 1];
    if t in run[n - 1].phase && run[n - 1].phase[t].ReturnedErr? {
      i := ErrorIsOwn(run, steps, n - 1, t);
    } else {
      i := n - 1;
    }
  }
}
