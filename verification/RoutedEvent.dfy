/** The in-memory event and the operations that change it in place, proved against module Routing. */
module RoutedEvent {
  import opened Common
  import opened Routing

  class RoutingStep {
    var id: string
    var status: Status
    var attempt: Option<int>
    var nextTopic: string
    var startedAt: Option<Time>
    var endedAt: Option<Time>
    var error: Option<Option<StepError>>
    var notes: Option<string>

    function View(): Step
      reads this
    {
      Step(id, status, attempt, nextTopic, startedAt, endedAt, error, notes)
    }

    constructor Copy(step: RoutingStep)
      ensures View() == step.View()
    {
      id, status, attempt, nextTopic := step.id, step.status, step.attempt, step.nextTopic;
      startedAt, endedAt, error, notes := step.startedAt, step.endedAt, step.error, step.notes;
    }

    /** The field changes of `updateCurrentStep`. */
    method Apply(u: Update, now: Time)
      modifies this
      ensures View() == Updated(old(View()), u, now)
    {
      if u.notes.Some? {
        notes := u.notes;
      } else if u.appendNote != "" {
        notes := Some(Joined(notes, u.appendNote));
      }
      if u.error.Some? {
        error := u.error;
      }
      if u.status.Some? {
        status := u.status.value;
        if (status == OK || status == SKIP || status == ERROR) && endedAt.None? {
          endedAt := Some(now);
        }
      }
    }

    /** The field changes of `next` on the step it dispatches to. */
    method Start(now: Time)
      modifies this
      ensures View() == Dispatched(old(View()), now)
    {
      if startedAt.None? {
        startedAt := Some(now);
      }
      attempt := Some((if attempt.Some? then attempt.value else -1) + 1);
    }
  }

  predicate Distinct<T(==)>(steps: seq<T>) {
    forall i, j | 0 <= i < j < |steps| :: steps[i] != steps[j]
  }

  function Views(steps: seq<RoutingStep>): (views: seq<Step>)
    reads steps
    ensures |views| == |steps|
    ensures forall i | 0 <= i < |steps| :: views[i] == steps[i].View()
  {
    seq(|steps|, i requires 0 <= i < |steps| reads steps => steps[i].View())
  }

  twostate lemma ViewsUnchanged(steps: seq<RoutingStep>)
    requires forall i | 0 <= i < |steps| :: steps[i].View() == old(steps[i].View())
    ensures Views(steps) == old(Views(steps))
  {
  }

  method CopySteps(steps: seq<RoutingStep>) returns (copies: seq<RoutingStep>)
    ensures fresh(copies) && Distinct(copies)
    ensures Views(copies) == Views(steps)
  {
    copies := [];
    for i := 0 to |steps|
      invariant |copies| == i && fresh(copies) && Distinct(copies)
      invariant forall k | 0 <= k < i :: copies[k].View() == steps[k].View()
    {
      var copy := new RoutingStep.Copy(steps[i]);
      copies := copies + [copy];
    }
  }

  /** `slip.findIndex(...)` with the predicate of `updateCurrentStep`. */
  method FindUnfinished(slip: seq<RoutingStep>) returns (index: nat)
    ensures index == FirstUnfinished(Views(slip))
  {
    index := 0;
    while index < |slip| && Finished(slip[index].status)
      invariant index <= |slip|
      invariant forall j | 0 <= j < index :: Finished(slip[j].status)
    {
      index := index + 1;
    }
    FirstUnfinishedIs(Views(slip), index);
  }

  /** `slip.findIndex(...)` with the predicate of `next`. */
  method FindPending(slip: seq<RoutingStep>) returns (index: nat)
    ensures index == FirstPending(Views(slip))
  {
    index := 0;
    while index < |slip| && slip[index].status != PENDING
      invariant index <= |slip|
      invariant forall j | 0 <= j < index :: slip[j].status != PENDING
    {
      index := index + 1;
    }
    FirstPendingIs(Views(slip), index);
  }

  class PendingRoute {
    const stage: Option<string>
    const slip: seq<RoutingStep>

    constructor (stage: Option<string>, slip: seq<RoutingStep>)
      ensures this.stage == stage && this.slip == slip
    {
      this.stage, this.slip := stage, slip;
    }
  }

  class InternalEvent {
    var stage: Option<string>
    var slip: seq<RoutingStep>
    var history: seq<RoutingStep>
    var route: PendingRoute?
    var egress: string
    var nextMark: bool
    var completeMark: bool

    /** No two places of the event share a step object, as in anything parsed from JSON. */
    ghost predicate Valid()
      reads this
    {
      && Distinct(slip)
      && (forall i, j | 0 <= i < |slip| && 0 <= j < |history| :: slip[i] != history[j])
      && (route != null ==> forall i, j | 0 <= i < |slip| && 0 <= j < |route.slip| :: slip[i] != route.slip[j])
    }

    ghost function View(): Event
      reads this, slip, history, if route == null then [] else route.slip
    {
      Event(stage, Views(slip), Views(history),
            if route == null then None else Some(Route(route.stage, Views(route.slip))),
            egress, nextMark, completeMark)
    }

    /** Applies the update to the current step and says which one that was, if any. */
    method UpdateCurrentStep(u: Update, now: Time) returns (index: Option<nat>)
      requires Valid()
      modifies slip
      ensures Valid()
      ensures View() == old(View()).(slip := UpdateCurrent(old(Views(slip)), u, now))
      ensures index == if FirstUnfinished(old(Views(slip))) < |slip| then Some(FirstUnfinished(old(Views(slip)))) else None
    {
      var idx := FindUnfinished(slip);
      index := None;
      if idx < |slip| {
        slip[idx].Apply(u, now);
        assert Views(slip) == old(Views(slip))[idx := slip[idx].View()];
        ViewsUnchanged(history);
        if route != null {
          ViewsUnchanged(route.slip);
        }
        index := Some(idx);
      }
    }

    method SetNextMark(mark: bool)
      requires Valid()
      modifies this`nextMark
      ensures Valid()
      ensures View() == old(View()).(nextMark := mark)
    {
      nextMark := mark;
      ViewsUnchanged(slip);
      ViewsUnchanged(history);
      if route != null {
        ViewsUnchanged(route.slip);
      }
    }

    method SetCompleteMark(mark: bool)
      requires Valid()
      modifies this`completeMark
      ensures Valid()
      ensures View() == old(View()).(completeMark := mark)
    {
      completeMark := mark;
      ViewsUnchanged(slip);
      ViewsUnchanged(history);
      if route != null {
        ViewsUnchanged(route.slip);
      }
    }

    method Report(report: Option<Status>, now: Time)
      requires Valid()
      modifies slip
      ensures Valid()
      ensures View() == old(View()).(slip := Reported(old(Views(slip)), report, now))
    {
      if report.Some? {
        var _ := UpdateCurrentStep(StatusOnly(report.value), now);
      }
    }

    /** Bumps the step `next` dispatches to; its index is the length when no step is PENDING. */
    method ChooseStep(now: Time) returns (index: nat)
      requires Valid()
      modifies slip
      ensures Valid()
      ensures index == FirstPending(old(Views(slip)))
      ensures View() == old(View()).(slip := Chosen(old(Views(slip)), now))
    {
      index := FindPending(slip);
      if index < |slip| {
        slip[index].Start(now);
        assert Views(slip) == old(Views(slip))[index := slip[index].View()];
        ViewsUnchanged(history);
        if route != null {
          ViewsUnchanged(route.slip);
        }
      }
    }

    /** One call of `next` during which nothing else touches the event; `publishes` is the fate of its publish. */
    method NextHop(report: Option<Status>, prefix: string, now: Time, publishes: bool) returns (out: Outcome)
      requires Valid()
      modifies this, slip
      ensures Valid()
      ensures (View(), out) == Next(old(View()), report, prefix, now, publishes)
    {
      Report(report, now);
      if nextMark {
        return AlreadyDispatched;
      }
      SetNextMark(true);
      out := DispatchStep(prefix, now, publishes);
    }

    method DispatchStep(prefix: string, now: Time, publishes: bool) returns (out: Outcome)
      requires Valid() && nextMark
      modifies this, slip
      ensures Valid()
      ensures (View(), out) == Dispatch(old(View()), prefix, now, publishes)
    {
      var idx := ChooseStep(now);
      var toEgress := idx == |slip|;
      var subject := Prefixed(prefix, if toEgress then egress else slip[idx].nextTopic);
      if subject == "" {
        return if toEgress then NoTarget else NoSubject(idx);
      }
      if !publishes {
        SetNextMark(false);
        return Failed(subject);
      }
      return if toEgress then SentToEgress(subject) else SentToStep(idx, subject);
    }

    method CompleteEvent(report: Option<Status>, prefix: string, now: Time, publishes: bool) returns (out: Outcome)
      requires Valid()
      modifies this, slip
      ensures Valid()
      ensures (View(), out) == Complete(old(View()), report, prefix, now, publishes)
    {
      Report(report, now);
      if completeMark {
        return AlreadyDispatched;
      }
      SetCompleteMark(true);
      var dest := Prefixed(prefix, egress);
      if dest == "" {
        return NoTarget;
      }
      if !publishes {
        SetCompleteMark(false);
        return Failed(dest);
      }
      return SentToEgress(dest);
    }

    /** The copies `applyPendingRoute` makes: the new slip and the new history. */
    method CopyPlans(plan: seq<RoutingStep>) returns (newSlip: seq<RoutingStep>, newHistory: seq<RoutingStep>)
      ensures Distinct(newSlip)
      ensures forall i, j | 0 <= i < |newSlip| && 0 <= j < |newHistory| :: newSlip[i] != newHistory[j]
      ensures Views(newSlip) == Views(plan)
      ensures Views(newHistory) == Views(history) + Views(slip)
    {
      var previousHistory := CopySteps(history);
      var previousSlip := CopySteps(slip);
      newHistory := previousHistory + previousSlip;
      ghost var known := newHistory;
      assert Views(newHistory) == Views(previousHistory) + Views(previousSlip);
      newSlip := CopySteps(plan);
      assert newHistory == known;
    }

    /** History takes copies of the whole slip and the slip becomes a copy of the route's. */
    method InstallRoute()
      requires Valid() && route != null
      modifies this
      ensures Valid()
      ensures stage == old(StageAfter(stage, route.stage))
      ensures Views(slip) == old(Views(route.slip))
      ensures Views(history) == old(Views(history)) + old(Views(slip))
      ensures route == null
      ensures egress == old(egress) && nextMark == old(nextMark) && completeMark == old(completeMark)
    {
      var newSlip, newHistory := CopyPlans(route.slip);
      label copied:
      if route.stage.Some? {
        stage := route.stage;
      } else if stage.None? {
        stage := Some("contextualization");
      }
      slip, history, route := newSlip, newHistory, null;
      ViewsUnchanged@copied(newSlip);
      ViewsUnchanged@copied(newHistory);
    }

    /** Returns false, and changes nothing, when no route is pending. */
    method ApplyPendingRoute(completed: Status, now: Time) returns (applied: bool)
      requires Valid()
      modifies this, slip
      ensures Valid()
      ensures View() == Replan(old(View()), completed, now)
      ensures applied == (old(View()).route.Some?)
    {
      applied := route != null;
      if applied {
        var _ := UpdateCurrentStep(StatusOnly(completed), now);
        InstallRoute();
      }
    }
  }
}
