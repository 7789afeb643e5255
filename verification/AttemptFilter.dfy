/** Which pipeline events the application shell applies while attempts are started,
    resumed and cancelled (app/src/App.tsx). */
module AttemptFilter {
  import opened Wrappers

  type Id = s: string | |s| > 0 witness "-"

  datatype Kind = Job | Progress | Terminal | Results | Exited

  datatype Event = Event(kind: Kind, jobId: Option<Id>, attemptId: Option<Id>)

  datatype Expectation = Expectation(jobId: Option<Id>, attemptId: Option<Id>, previousAttemptId: Option<Id>,
                                     awaitingJob: bool)

  /** The three refs that the handlers assign. */
  datatype State = State(expectation: Option<Expectation>, activeJob: Option<Id>, activeAttempt: Option<Id>)

  /** What can happen to the refs, in the order it happens. */
  datatype Action =
    | Prepare(jobId: Option<Id>)
    | ResumeFails(failedJob: Id)
    | OpenJob(session: Id)
    | Render(rendered: Option<Id>)
    | Receive(event: Event)

  /** Whether the listener gets past its guards. */
  function Accepts(s: State, e: Event): bool {
    match s.expectation
    case None =>
      && (e.jobId.Some? && s.activeJob.Some? ==> e.jobId == s.activeJob)
      && (e.attemptId.Some? && s.activeAttempt.Some? ==> e.attemptId == s.activeAttempt)
    case Some(x) =>
      if e.kind == Job && e.jobId.Some? then
        && (x.jobId.Some? ==> e.jobId == x.jobId)
        && (x.previousAttemptId.Some? ==> e.attemptId != x.previousAttemptId)
        && (x.attemptId.Some? ==> e.attemptId == x.attemptId)
      else
        && (x.awaitingJob ==> x.jobId.None? && e.kind == Terminal)
        && (e.jobId.Some? ==> e.jobId == x.jobId)
        && (e.attemptId.Some? ==> e.attemptId == x.attemptId)
  }

  function Apply(s: State, a: Action): State {
    match a
    case Prepare(jobId) => State(Some(Expectation(jobId, None, s.activeAttempt, true)), jobId, None)
    case ResumeFails(jobId) =>
      s.(expectation := Some(Expectation(Some(jobId), s.activeAttempt, s.activeAttempt, false)))
    case OpenJob(jobId) => s.(activeJob := Some(jobId))
    case Render(jobId) => s.(activeJob := jobId)
    case Receive(e) =>
      if Accepts(s, e) && e.kind == Job && e.jobId.Some? then
        State(if s.expectation.Some? && s.expectation.value.awaitingJob
              then Some(Expectation(e.jobId, e.attemptId, s.expectation.value.previousAttemptId, false))
              else s.expectation,
              e.jobId, e.attemptId)
      else s
  }

  class Shell {
    var state: State

    constructor ()
      ensures state == State(None, None, None)
    {
      state := State(None, None, None);
    }

    /** From then on only a job event of the prepared job is accepted, and not that of the
        attempt just left; before a job is known, also an end that names nothing. */
    method PrepareAttempt(jobId: Option<Id>)
      modifies this
      ensures state == Apply(old(state), Prepare(jobId))
      ensures forall e :: Accepts(state, e) <==>
        if e.kind == Job && e.jobId.Some? then
          && (jobId.Some? ==> e.jobId == jobId)
          && (old(state.activeAttempt).Some? ==> e.attemptId != old(state.activeAttempt))
        else e.kind == Terminal && jobId.None? && e.jobId.None? && e.attemptId.None?
    {
      var previousAttemptId := state.activeAttempt;
      state := state.(expectation := Some(Expectation(jobId, None, previousAttemptId, true)));
      state := state.(activeJob := jobId, activeAttempt := None);
    }

    /** From then on events of the job's current attempt are accepted, and a job event only
        when there is no current attempt. */
    method ResumeFailed(jobId: Id)
      modifies this
      ensures state == Apply(old(state), ResumeFails(jobId))
      ensures forall e :: Accepts(state, e) <==>
        if e.kind == Job && e.jobId.Some? then e.jobId == Some(jobId) && old(state.activeAttempt).None?
        else
          && (e.jobId.Some? ==> e.jobId == Some(jobId))
          && (e.attemptId.Some? ==> e.attemptId == old(state.activeAttempt))
    {
      state := state.(expectation := Some(Expectation(Some(jobId), state.activeAttempt, state.activeAttempt, false)));
    }

    /** The listener; `applied` tells whether the event reached the user interface. */
    method OnEvent(e: Event) returns (applied: bool)
      modifies this
      ensures applied == Accepts(old(state), e) && state == Apply(old(state), Receive(e))
    {
      if state.expectation.Some? {
        var expected := state.expectation.value;
        if e.kind == Job && e.jobId.Some? {
          if expected.jobId.Some? && e.jobId != expected.jobId {
            return false;
          }
          if expected.previousAttemptId.Some? && e.attemptId == expected.previousAttemptId {
            return false;
          }
          if expected.attemptId.Some? && e.attemptId != expected.attemptId {
            return false;
          }
          if expected.awaitingJob {
            state := state.(expectation := Some(Expectation(e.jobId, e.attemptId, expected.previousAttemptId, false)));
          }
        } else if expected.awaitingJob && !(expected.jobId.None? && e.kind == Terminal) {
          return false;
        } else if e.jobId.Some? && e.jobId != expected.jobId {
          return false;
        } else if e.attemptId.Some? && e.attemptId != expected.attemptId {
          return false;
        }
      } else {
        if e.jobId.Some? && state.activeJob.Some? && e.jobId != state.activeJob {
          return false;
        }
        if e.attemptId.Some? && state.activeAttempt.Some? && e.attemptId != state.activeAttempt {
          return false;
        }
      }
      if e.kind == Job && e.jobId.Some? {
        state := state.(activeJob := e.jobId, activeAttempt := e.attemptId);
      }
      return true;
    }
  }

  /** A label that an event has says what is wanted; a missing one says nothing. */
  predicate Fits(named: Option<Id>, wanted: Id) {
    named.None? || named.value == wanted
  }

  /** Once an attempt is adopted exactly those events are accepted whose labels name nothing
      but its job and itself; a job event must name it, and it must not be the attempt left. */
  lemma AcceptedOnceAdopted(s: State, job: Id, attempt: Id, e: Event)
    requires s.expectation.Some? && !s.expectation.value.awaitingJob
    requires s.expectation.value.jobId == Some(job) && s.expectation.value.attemptId == Some(attempt)
    ensures Accepts(s, e) <==>
      && Fits(e.jobId, job) && Fits(e.attemptId, attempt)
      && (e.kind == Job && e.jobId.Some? ==>
          e.attemptId.Some? && s.expectation.value.previousAttemptId != Some(attempt))
  {
  }

  /** Where nothing is expected an event is accepted exactly when its labels name nothing but
      the session and the attempt shown, as far as these are known. */
  lemma AcceptedUnexpectedly(s: State, e: Event)
    requires s.expectation.None?
    ensures Accepts(s, e) <==>
      && (s.activeJob.Some? ==> Fits(e.jobId, s.activeJob.value))
      && (s.activeAttempt.Some? ==> Fits(e.attemptId, s.activeAttempt.value))
  {
  }

  // ---------------------------------------------------------------- histories

  function Run(s: State, actions: seq<Action>): State
    decreases |actions|
  {
    if actions == [] then s else Run(Apply(s, actions[0]), actions[1..])
  }

  predicate IsJobEvent(a: Action, attempt: Id) {
    a.Receive? && a.event.kind == Job && a.event.jobId.Some? && a.event.attemptId == Some(attempt)
  }

  /** Every attempt emits its job event at most once. */
  ghost predicate JobEventsOnce(actions: seq<Action>) {
    forall i, j, attempt ::
      0 <= i < j < |actions| && IsJobEvent(actions[i], attempt) ==> !IsJobEvent(actions[j], attempt)
  }

  /** The attempt's job event was applied during the actions. */
  predicate Adopted(s: State, actions: seq<Action>, attempt: Id)
    decreases |actions|
  {
    actions != [] &&
      ((IsJobEvent(actions[0], attempt) && Accepts(s, actions[0].event))
       || Adopted(Apply(s, actions[0]), actions[1..], attempt))
  }

  /** The events applied, in order. */
  function Applied(s: State, actions: seq<Action>): seq<Event>
    decreases |actions|
  {
    if actions == [] then []
    else (if actions[0].Receive? && Accepts(s, actions[0].event) then [actions[0].event] else [])
         + Applied(Apply(s, actions[0]), actions[1..])
  }

  /** No ref names the attempt, and something is expected. */
  predicate Forgotten(s: State, attempt: Id) {
    && s.expectation.Some?
    && s.expectation.value.attemptId != Some(attempt)
    && s.activeAttempt != Some(attempt)
  }

  lemma StaysForgotten(s: State, a: Action, attempt: Id)
    requires Forgotten(s, attempt) && !IsJobEvent(a, attempt)
    ensures Forgotten(Apply(s, a), attempt)
    ensures a.Receive? && a.event.attemptId == Some(attempt) ==> !Accepts(s, a.event)
  {
  }

  lemma {:induction false} ForgottenForEver(s: State, actions: seq<Action>, attempt: Id)
    requires Forgotten(s, attempt) && forall i :: 0 <= i < |actions| ==> !IsJobEvent(actions[i], attempt)
    ensures forall e :: e in Applied(s, actions) ==> e.attemptId != Some(attempt)
    decreases |actions|
  {
    if actions != [] {
      StaysForgotten(s, actions[0], attempt);
      ForgottenForEver(Apply(s, actions[0]), actions[1..], attempt);
    }
  }

  lemma {:induction false} AdoptedHadJobEvent(s: State, actions: seq<Action>, attempt: Id) returns (i: nat)
    requires Adopted(s, actions, attempt)
    ensures i < |actions| && IsJobEvent(actions[i], attempt)
    decreases |actions|
  {
    if IsJobEvent(actions[0], attempt) {
      i := 0;
    } else {
      i := AdoptedHadJobEvent(Apply(s, actions[0]), actions[1..], attempt);
      i := i + 1;
    }
  }

  /** Once an attempt is prepared, no event labelled with an attempt adopted earlier is ever
      applied, whatever is prepared, fails, is opened or arrives later. */
  lemma StaleEventsAreNeverApplied(s: State, before: seq<Action>, jobId: Option<Id>, after: seq<Action>, attempt: Id)
    requires JobEventsOnce(before + [Prepare(jobId)] + after) && Adopted(s, before, attempt)
    ensures forall e :: e in Applied(Apply(Run(s, before), Prepare(jobId)), after) ==> e.attemptId != Some(attempt)
  {
    var all := before + [Prepare(jobId)] + after;
    var i := AdoptedHadJobEvent(s, before, attempt);
    assert all[i] == before[i];
    forall j | 0 <= j < |after| ensures !IsJobEvent(after[j], attempt) {
      assert all[|before| + 1 + j] == after[j];
    }
    ForgottenForEver(Apply(Run(s, before), Prepare(jobId)), after, attempt);
  }

  /** Nothing of the current attempt is lost: after its job event is accepted, its labelled
      events are applied, all and in order, until another attempt is prepared. */
  lemma {:induction false} CurrentAttemptIsFollowed(s: State, actions: seq<Action>, job: Id, attempt: Id)
    requires s.expectation.Some? && !s.expectation.value.awaitingJob
    requires s.expectation.value.jobId == Some(job) && s.expectation.value.attemptId == Some(attempt)
    requires s.expectation.value.previousAttemptId != Some(attempt)
    requires forall i :: 0 <= i < |actions| ==>
      match actions[i]
      case Prepare(_) => false
      case ResumeFails(_) => false
      case Receive(e) => e.jobId == Some(job) && e.attemptId == Some(attempt)
      case _ => true
    ensures Applied(s, actions) == Received(actions)
    decreases |actions|
  {
    if actions != [] {
      CurrentAttemptIsFollowed(Apply(s, actions[0]), actions[1..], job, attempt);
    }
  }

  function Received(actions: seq<Action>): seq<Event>
    decreases |actions|
  {
    if actions == [] then []
    else (if actions[0].Receive? then [actions[0].event] else []) + Received(actions[1..])
  }

  /** A fresh attempt of the prepared job is adopted by its job event. */
  lemma PreparedAttemptIsAdopted(s: State, jobId: Option<Id>, job: Id, attempt: Id)
    requires (jobId.Some? ==> jobId == Some(job)) && s.activeAttempt != Some(attempt)
    ensures var prepared := Apply(s, Prepare(jobId));
      var e := Event(Job, Some(job), Some(attempt));
      var adopted := Apply(prepared, Receive(e));
      && Accepts(prepared, e) && adopted.activeJob == Some(job) && adopted.activeAttempt == Some(attempt)
      && adopted.expectation == Some(Expectation(Some(job), Some(attempt), s.activeAttempt, false))
  {
  }

  /** A repeated job event is why each attempt must emit it once: only the attempt before
      the last one is remembered. */
  lemma RepeatedJobEventIsAdopted(job: Id, one: Id, two: Id)
    requires one != two
    ensures var first, second := Event(Job, Some(job), Some(one)), Event(Job, Some(job), Some(two));
      var actions := [Prepare(Some(job)), Receive(first), Prepare(Some(job)), Receive(second), Prepare(Some(job))];
      Accepts(Run(State(None, None, None), actions), first) && !Accepts(Run(State(None, None, None), actions), second)
  {
    var first, second := Event(Job, Some(job), Some(one)), Event(Job, Some(job), Some(two));
    var s1 := Apply(State(None, None, None), Prepare(Some(job)));
    var s3 := Apply(Apply(s1, Receive(first)), Prepare(Some(job)));
    var s5 := Apply(Apply(s3, Receive(second)), Prepare(Some(job)));
    var actions := [Prepare(Some(job)), Receive(first), Prepare(Some(job)), Receive(second), Prepare(Some(job))];
    assert Run(s5, []) == s5;
    assert actions[4..][1..] == [] && actions[3..][1..] == actions[4..] && actions[2..][1..] == actions[3..];
    assert actions[1..][1..] == actions[2..];
    assert Run(Apply(s3, Receive(second)), actions[4..]) == s5;
    assert Run(s3, actions[3..]) == s5;
    assert Run(s1, actions[1..]) == s5;
  }

  // ---------------------------------------------------------------- which attempts are followed

  function JobEvent(job: Id, attempt: Id): Event {
    Event(Job, Some(job), Some(attempt))
  }

  /** The attempt of an accepted job event is followed: nothing was expected, or its job
      event was awaited, or just this attempt of this job was expected already. */
  predicate Followed(s: State, job: Id, attempt: Id) {
    match s.expectation
    case None => true
    case Some(x) => x.awaitingJob || (x.jobId == Some(job) && x.attemptId == Some(attempt))
  }

  /** After an accepted job event, another event of its attempt is accepted exactly when the
      attempt is followed. */
  lemma AcceptedIffFollowed(s: State, job: Id, attempt: Id, kind: Kind)
    requires kind != Job && Accepts(s, JobEvent(job, attempt))
    ensures Accepts(Apply(s, Receive(JobEvent(job, attempt))), Event(kind, Some(job), Some(attempt))) <==>
            Followed(s, job, attempt)
  {
  }

  /** Nothing starts or gives up an attempt; where nothing is expected, nothing else points
      the shell at another session or at an attempt without a name. */
  predicate Undisturbed(expecting: bool, a: Action, job: Id) {
    match a
    case Prepare(_) => false
    case ResumeFails(_) => false
    case OpenJob(session) => expecting || session == job
    case Render(rendered) => expecting || rendered == Some(job)
    case Receive(e) => expecting || (e.kind == Job && e.jobId.Some? ==> e.attemptId.Some?)
  }

  predicate IsOf(e: Event, job: Id, attempt: Id) {
    e.kind != Job && e.jobId == Some(job) && e.attemptId == Some(attempt)
  }

  /** The events of one attempt other than its job event. */
  function OfAttempt(events: seq<Event>, job: Id, attempt: Id): seq<Event> {
    if events == [] then []
    else (if IsOf(events[0], job, attempt) then [events[0]] else []) + OfAttempt(events[1..], job, attempt)
  }

  /** The refs name the attempt. */
  predicate Tracks(s: State, job: Id, attempt: Id) {
    match s.expectation
    case None => s.activeJob == Some(job) && s.activeAttempt == Some(attempt)
    case Some(x) => !x.awaitingJob && x.jobId == Some(job) && x.attemptId == Some(attempt)
  }

  /** The expectation names something else. */
  predicate Misses(s: State, job: Id, attempt: Id) {
    s.expectation.Some? && !s.expectation.value.awaitingJob
    && !(s.expectation.value.jobId == Some(job) && s.expectation.value.attemptId == Some(attempt))
  }

  lemma OfAttemptFirst(e: Event, events: seq<Event>, job: Id, attempt: Id)
    ensures OfAttempt([e] + events, job, attempt) ==
      (if IsOf(e, job, attempt) then [e] else []) + OfAttempt(events, job, attempt)
  {
    assert ([e] + events)[1..] == events;
  }

  lemma UndisturbedStep(s: State, a: Action, job: Id, attempt: Id)
    requires Undisturbed(s.expectation.Some?, a, job)
    ensures Tracks(s, job, attempt) ==> Tracks(Apply(s, a), job, attempt)
    ensures Misses(s, job, attempt) ==> Misses(Apply(s, a), job, attempt)
    ensures Tracks(s, job, attempt) || Misses(s, job, attempt) ==> Apply(s, a).expectation.Some? == s.expectation.Some?
    ensures a.Receive? && IsOf(a.event, job, attempt) ==>
      && (Tracks(s, job, attempt) ==> Accepts(s, a.event))
      && (Misses(s, job, attempt) ==> !Accepts(s, a.event))
  {
  }

  lemma {:induction false} TrackedOrMissed(s: State, actions: seq<Action>, job: Id, attempt: Id)
    requires Tracks(s, job, attempt) || Misses(s, job, attempt)
    requires forall i :: 0 <= i < |actions| ==> Undisturbed(s.expectation.Some?, actions[i], job)
    ensures OfAttempt(Applied(s, actions), job, attempt) ==
      if Tracks(s, job, attempt) then OfAttempt(Received(actions), job, attempt) else []
    decreases |actions|
  {
    if actions != [] {
      var a, rest := actions[0], actions[1..];
      UndisturbedStep(s, a, job, attempt);
      TrackedOrMissed(Apply(s, a), rest, job, attempt);
      if a.Receive? {
        OfAttemptFirst(a.event, Applied(Apply(s, a), rest), job, attempt);
        OfAttemptFirst(a.event, Received(rest), job, attempt);
      } else {
        assert [] + Received(rest) == Received(rest);
      }
      if !(a.Receive? && Accepts(s, a.event)) {
        assert [] + Applied(Apply(s, a), rest) == Applied(Apply(s, a), rest);
      }
    }
  }

  /** Over histories: after an accepted job event, until the next attempt is prepared or a
      resume fails, all labelled events of its attempt are applied, in order, when it is
      followed, and none is when it is not. */
  lemma FollowedAttemptIsApplied(s: State, job: Id, attempt: Id, actions: seq<Action>)
    requires Accepts(s, JobEvent(job, attempt))
    requires forall i :: 0 <= i < |actions| ==> Undisturbed(s.expectation.Some?, actions[i], job)
    ensures var adopted := Apply(s, Receive(JobEvent(job, attempt)));
      OfAttempt(Applied(adopted, actions), job, attempt) ==
        if Followed(s, job, attempt) then OfAttempt(Received(actions), job, attempt) else []
  {
    TrackedOrMissed(Apply(s, Receive(JobEvent(job, attempt))), actions, job, attempt);
  }

  /** Where nothing is expected, a labelled event is applied exactly while the shell points
      at its session or none: opening or rendering another session ends it. */
  lemma UnexpectedIff(s: State, job: Id, attempt: Id, kind: Kind, session: Id)
    requires s.expectation.None? && kind != Job && Accepts(s, JobEvent(job, attempt))
    ensures var adopted, e := Apply(s, Receive(JobEvent(job, attempt))), Event(kind, Some(job), Some(attempt));
      && (Accepts(Apply(adopted, OpenJob(session)), e) <==> session == job)
      && (Accepts(Apply(adopted, Render(Some(session))), e) <==> session == job)
      && Accepts(Apply(adopted, Render(None)), e)
  {
  }

  /** After a failed resume a late job event is applied, but no event of its attempt is, up
      to the next attempt: the expectation keeps no attempt id, and any id differs from none. */
  lemma LateAttemptIsNotFollowed(s: State, job: Id, attempt: Id, kind: Kind, actions: seq<Action>)
    requires s.activeAttempt != Some(attempt) && kind != Job
    requires forall i :: 0 <= i < |actions| ==> !actions[i].Prepare? && !actions[i].ResumeFails?
    ensures var failed := Apply(Apply(s, Prepare(Some(job))), ResumeFails(job));
      var late := Event(Job, Some(job), Some(attempt));
      && Accepts(failed, late) && !Accepts(Apply(failed, Receive(late)), Event(kind, Some(job), Some(attempt)))
      && OfAttempt(Applied(Apply(failed, Receive(late)), actions), job, attempt) == []
  {
    var failed := Apply(Apply(s, Prepare(Some(job))), ResumeFails(job));
    FollowedAttemptIsApplied(failed, job, attempt, actions);
  }
}
