/**
 The routing slip of an event: which step a service's report lands on, which step is dispatched
 next, and what that means over whole runs of hops and replans.
 */
module Routing {
  import opened Common

  type Time = nat

  datatype Status = PENDING | OK | ERROR | SKIP

  datatype StepError = StepError(code: string, message: string)

  /** `error` is None when the field is absent and Some(None) when it holds null. */
  datatype Step = Step(
    id: string,
    status: Status,
    attempt: Option<int>,
    nextTopic: string,
    startedAt: Option<Time>,
    endedAt: Option<Time>,
    error: Option<Option<StepError>>,
    notes: Option<string>)

  /** A replacement plan left on the event for `applyPendingRoute`. */
  datatype Route = Route(stage: Option<string>, slip: seq<Step>)

  datatype Event = Event(
    stage: Option<string>,
    slip: seq<Step>,
    history: seq<Step>,
    route: Option<Route>,
    egress: string,
    nextMark: bool,
    completeMark: bool)

  datatype Update = Update(
    status: Option<Status>,
    error: Option<Option<StepError>>,
    notes: Option<string>,
    appendNote: string)

  /** What one call of `next` or `complete` did. */
  datatype Outcome =
    | AlreadyDispatched
    | NoTarget
    | NoSubject(index: nat)
    | SentToStep(index: nat, subject: string)
    | SentToEgress(subject: string)
    | Failed(subject: string)

  // ---------------------------------------------------------------- single operations

  predicate Finished(s: Status) {
    s == OK || s == SKIP
  }

  /** Where `updateCurrentStep` looks: the first step that is neither OK nor SKIP, or the length. */
  function FirstUnfinished(slip: seq<Step>): (i: nat)
    ensures i <= |slip|
    ensures forall j | 0 <= j < i :: Finished(slip[j].status)
    ensures i < |slip| ==> !Finished(slip[i].status)
  {
    if slip == [] || !Finished(slip[0].status) then 0 else 1 + FirstUnfinished(slip[1..])
  }

  /** Where `next` looks: the first PENDING step, or the length. */
  function FirstPending(slip: seq<Step>): (i: nat)
    ensures i <= |slip|
    ensures forall j | 0 <= j < i :: slip[j].status != PENDING
    ensures i < |slip| ==> slip[i].status == PENDING
  {
    if slip == [] || slip[0].status == PENDING then 0 else 1 + FirstPending(slip[1..])
  }

  /** What pins the two searches down. */
  lemma FirstUnfinishedIs(slip: seq<Step>, i: nat)
    requires i <= |slip|
    requires forall j | 0 <= j < i :: Finished(slip[j].status)
    requires i < |slip| ==> !Finished(slip[i].status)
    ensures FirstUnfinished(slip) == i
  {
  }

  lemma FirstPendingIs(slip: seq<Step>, i: nat)
    requires i <= |slip|
    requires forall j | 0 <= j < i :: slip[j].status != PENDING
    requires i < |slip| ==> slip[i].status == PENDING
    ensures FirstPending(slip) == i
  {
  }

  function Joined(notes: Option<string>, note: string): string {
    if notes.Some? && notes.value != "" then notes.value + "\n" + note else note
  }

  function Updated(step: Step, u: Update, now: Time): Step {
    var notes := if u.notes.Some? then u.notes
                 else if u.appendNote != "" then Some(Joined(step.notes, u.appendNote))
                 else step.notes;
    var error := if u.error.Some? then u.error else step.error;
    var status := if u.status.Some? then u.status.value else step.status;
    var endedAt := if u.status.Some? && u.status.value != PENDING && step.endedAt.None? then Some(now) else step.endedAt;
    step.(notes := notes, error := error, status := status, endedAt := endedAt)
  }

  /** `updateCurrentStep`: the update lands on the first step that is neither OK nor SKIP. */
  function UpdateCurrent(slip: seq<Step>, u: Update, now: Time): seq<Step> {
    var i := FirstUnfinished(slip);
    if i < |slip| then slip[i := Updated(slip[i], u, now)] else slip
  }

  function StatusOnly(s: Status): Update {
    Update(Some(s), None, None, "")
  }

  function Reported(slip: seq<Step>, report: Option<Status>, now: Time): seq<Step> {
    if report.Some? then UpdateCurrent(slip, StatusOnly(report.value), now) else slip
  }

  function Dispatched(step: Step, now: Time): Step {
    step.(startedAt := if step.startedAt.Some? then step.startedAt else Some(now),
          attempt := Some((if step.attempt.Some? then step.attempt.value else -1) + 1))
  }

  /** `next` bumps the first PENDING step, which need not be the step that was just updated. */
  function Chosen(slip: seq<Step>, now: Time): seq<Step> {
    var i := FirstPending(slip);
    if i < |slip| then slip[i := Dispatched(slip[i], now)] else slip
  }

  /** Empty topics stay empty: the code tests them for truthiness first. */
  function Prefixed(prefix: string, topic: string): string {
    if topic != "" && prefix != "" && !StartsWith(topic, prefix) then prefix + topic else topic
  }

  /** The part of `next` after the mark is taken; `publishes` is the fate of the publish. */
  function Dispatch(ev: Event, prefix: string, now: Time, publishes: bool): (Event, Outcome) {
    var i := FirstPending(ev.slip);
    if i == |ev.slip| then
      var subject := Prefixed(prefix, ev.egress);
      if subject == "" then (ev, NoTarget)
      else if publishes then (ev, SentToEgress(subject))
      else (ev.(nextMark := false), Failed(subject))
    else
      var subject := Prefixed(prefix, ev.slip[i].nextTopic);
      var ev' := ev.(slip := Chosen(ev.slip, now));
      if subject == "" then (ev', NoSubject(i))
      else if publishes then (ev', SentToStep(i, subject))
      else (ev'.(nextMark := false), Failed(subject))
  }

  function Next(ev: Event, report: Option<Status>, prefix: string, now: Time, publishes: bool): (Event, Outcome) {
    var ev' := ev.(slip := Reported(ev.slip, report, now));
    if ev'.nextMark then (ev', AlreadyDispatched)
    else Dispatch(ev'.(nextMark := true), prefix, now, publishes)
  }

  /** `complete` goes straight to egress and has a mark of its own. */
  function Complete(ev: Event, report: Option<Status>, prefix: string, now: Time, publishes: bool): (Event, Outcome) {
    var ev' := ev.(slip := Reported(ev.slip, report, now));
    var subject := Prefixed(prefix, ev.egress);
    if ev'.completeMark then (ev', AlreadyDispatched)
    else if subject == "" then (ev'.(completeMark := true), NoTarget)
    else if publishes then (ev'.(completeMark := true), SentToEgress(subject))
    else (ev', Failed(subject))
  }

  /** The route's stage, else the event's, else the stage replans start in. */
  function StageAfter(current: Option<string>, planned: Option<string>): Option<string> {
    if planned.Some? then planned else if current.Some? then current else Some("contextualization")
  }

  /** `applyPendingRoute`: the old slip moves to history and the route becomes the slip. */
  function Replan(ev: Event, report: Status, now: Time): Event {
    if ev.route.None? then ev
    else
      var route := ev.route.value;
      ev.(stage := StageAfter(ev.stage, route.stage),
          slip := route.slip,
          history := ev.history + Reported(ev.slip, Some(report), now),
          route := None)
  }

  /** The marks are symbol-keyed, so they do not survive serialisation. */
  function Delivered(ev: Event): Event {
    ev.(nextMark := false, completeMark := false)
  }

  // ---------------------------------------------------------------- subjects

  /** The subject `onMessage` subscribes a destination under: the prefix is always added. */
  function SubscribedSubject(prefix: string, destination: string): string {
    prefix + destination
  }

  /** Adding the prefix twice is adding it once, and a foreign topic gets it exactly once. */
  lemma PrefixedOnce(prefix: string, topic: string)
    ensures Prefixed(prefix, Prefixed(prefix, topic)) == Prefixed(prefix, topic)
    ensures topic != "" ==> StartsWith(Prefixed(prefix, topic), prefix)
    ensures topic != "" && !StartsWith(topic, prefix) ==>
              Prefixed(prefix, topic)[|prefix|..] == topic
    ensures topic == "" || StartsWith(topic, prefix) ==> Prefixed(prefix, topic) == topic
  {
    assert topic != "" && prefix != "" && !StartsWith(topic, prefix) ==> (prefix + topic)[..|prefix|] == prefix;
  }

  /** A dispatched step reaches the subscriber of its topic unless the topic already begins with the prefix. */
  lemma ReachesSubscriberIff(prefix: string, topic: string)
    requires topic != ""
    ensures Prefixed(prefix, topic) == SubscribedSubject(prefix, topic) <==> (prefix == "" || !StartsWith(topic, prefix))
  {
    if prefix == "" {
      assert prefix + topic == topic;
    } else if StartsWith(topic, prefix) {
      assert |prefix + topic| > |topic|;
    }
  }

  // ---------------------------------------------------------------- one hop: shape and progress

  /** (OK or SKIP)*, then at most one ERROR, then PENDING*. */
  predicate Shape(slip: seq<Step>) {
    forall j | FirstUnfinished(slip) < j < |slip| :: slip[j].status == PENDING
  }

  predicate AllPending(slip: seq<Step>) {
    forall s | s in slip :: s.status == PENDING
  }

  function Weight(s: Status): nat {
    match s
    case PENDING => 2
    case ERROR => 1
    case OK => 0
    case SKIP => 0
  }

  /** (steps not OK or SKIP) + (PENDING steps). */
  function Measure(slip: seq<Step>): nat {
    if slip == [] then 0 else Weight(slip[0].status) + Measure(slip[1..])
  }

  function Unfinished(slip: seq<Step>): nat {
    if slip == [] then 0 else (if Finished(slip[0].status) then 0 else 1) + Unfinished(slip[1..])
  }

  function Pending(slip: seq<Step>): nat {
    if slip == [] then 0 else (if slip[0].status == PENDING then 1 else 0) + Pending(slip[1..])
  }

  lemma {:induction false} MeasureIsSum(slip: seq<Step>)
    ensures Measure(slip) == Unfinished(slip) + Pending(slip)
  {
    if slip != [] {
      MeasureIsSum(slip[1..]);
    }
  }

  lemma {:induction false} MeasureUpdate(slip: seq<Step>, i: nat, s: Step)
    requires i < |slip|
    ensures Measure(slip[i := s]) == Measure(slip) - Weight(slip[i].status) + Weight(s.status)
  {
    if i == 0 {
      assert slip[0 := s][1..] == slip[1..];
    } else {
      assert slip[i := s][1..] == slip[1..][i - 1 := s];
      MeasureUpdate(slip[1..], i - 1, s);
    }
  }

  lemma {:induction false} MeasureAllPending(slip: seq<Step>)
    requires AllPending(slip)
    ensures Measure(slip) == 2 * |slip|
  {
    if slip != [] {
      assert slip[0] in slip;
      assert AllPending(slip[1..]);
      MeasureAllPending(slip[1..]);
    }
  }

  lemma {:induction false} MeasureOfElement(slip: seq<Step>, i: nat)
    requires i < |slip|
    ensures Measure(slip) >= Weight(slip[i].status)
  {
    if i > 0 {
      MeasureOfElement(slip[1..], i - 1);
    }
  }

  /** The slip a hop leaves behind: the report, then the dispatch bookkeeping. */
  function HopSlip(slip: seq<Step>, report: Option<Status>, now: Time): seq<Step> {
    Chosen(Reported(slip, report, now), now)
  }

  /** The hop that makes no progress: ERROR reported while the first unfinished step is already ERROR. */
  predicate Stalls(slip: seq<Step>, report: Option<Status>) {
    && report == Some(ERROR)
    && FirstUnfinished(slip) < |slip|
    && slip[FirstUnfinished(slip)].status == ERROR
  }

  /** Choosing a step touches no status. */
  lemma ChosenKeepsStatuses(slip: seq<Step>, now: Time)
    ensures |Chosen(slip, now)| == |slip|
    ensures forall j | 0 <= j < |slip| :: Chosen(slip, now)[j].status == slip[j].status
    ensures forall j | 0 <= j < |slip| :: Chosen(slip, now)[j].nextTopic == slip[j].nextTopic
    ensures Measure(Chosen(slip, now)) == Measure(slip)
    ensures FirstPending(Chosen(slip, now)) == FirstPending(slip)
    ensures FirstUnfinished(Chosen(slip, now)) == FirstUnfinished(slip)
  {
    var i := FirstPending(slip);
    var slip' := Chosen(slip, now);
    if i < |slip| {
      MeasureUpdate(slip, i, Dispatched(slip[i], now));
    }
    FirstPendingIs(slip', i);
    FirstUnfinishedIs(slip', FirstUnfinished(slip));
  }

  /** Any report at all keeps the shape of a slip. */
  lemma HopKeepsShape(slip: seq<Step>, report: Option<Status>, now: Time)
    requires Shape(slip)
    ensures Shape(HopSlip(slip, report, now))
  {
    var mid := Reported(slip, report, now);
    var i := FirstUnfinished(slip);
    assert forall j | 0 <= j < i :: mid[j] == slip[j];
    assert FirstUnfinished(mid) >= i;
    ChosenKeepsStatuses(mid, now);
  }

  /** Exactly when a reporting hop makes progress. */
  lemma HopProgressIff(slip: seq<Step>, report: Status, now: Time)
    requires report != PENDING
    ensures Measure(HopSlip(slip, Some(report), now)) <= Measure(slip)
    ensures Measure(HopSlip(slip, Some(report), now)) < Measure(slip) <==>
            (FirstUnfinished(slip) < |slip| && !Stalls(slip, Some(report)))
  {
    var mid := Reported(slip, Some(report), now);
    var i := FirstUnfinished(slip);
    ChosenKeepsStatuses(mid, now);
    if i < |slip| {
      MeasureUpdate(slip, i, Updated(slip[i], StatusOnly(report), now));
    }
  }

  /**
   The two searches agree exactly while no ERROR blocks the slip: otherwise the report of the
   service that was dispatched lands on another step.
   */
  lemma ReportLandsOnDispatchedIff(slip: seq<Step>)
    requires FirstPending(slip) < |slip|
    ensures FirstUnfinished(slip) <= FirstPending(slip)
    ensures FirstUnfinished(slip) == FirstPending(slip) <==> slip[FirstUnfinished(slip)].status != ERROR
  {
    var u, p := FirstUnfinished(slip), FirstPending(slip);
    assert !Finished(slip[p].status);
    if u < p {
      assert slip[u].status != PENDING;
    }
  }

  // ---------------------------------------------------------------- what a report and a dispatch write

  /** An error and an end time belong to the service's own report; the rest of a step is out of its reach. */
  lemma UpdateWrites(slip: seq<Step>, u: Update, now: Time)
    ensures var i := FirstUnfinished(slip);
            var slip' := UpdateCurrent(slip, u, now);
            && |slip'| == |slip|
            && (forall j | 0 <= j < |slip| && j != i :: slip'[j] == slip[j])
            && (i < |slip| ==>
                var a, b := slip[i], slip'[i];
                && b.id == a.id && b.attempt == a.attempt && b.nextTopic == a.nextTopic && b.startedAt == a.startedAt
                && (u.status == None ==> b.status == a.status && b.endedAt == a.endedAt)
                && (u.status.Some? ==> u.status == Some(b.status))
                && (b.endedAt != a.endedAt <==> a.endedAt.None? && u.status in {Some(OK), Some(SKIP), Some(ERROR)})
                && (b.endedAt != a.endedAt ==> b.endedAt == Some(now)))
  {
  }

  /** An error given replaces the step's error, a null included; an update without one keeps it. */
  lemma UpdateError(slip: seq<Step>, u: Update, now: Time)
    requires FirstUnfinished(slip) < |slip|
    ensures var i := FirstUnfinished(slip);
            var b := UpdateCurrent(slip, u, now)[i];
            && (forall e :: u.error == Some(e) ==> b.error == Some(e))
            && (u.error == None ==> b.error == slip[i].error)
  {
  }

  /** Notes given replace the old ones and win over a note to append; an appended note goes on a line of its own. */
  lemma UpdateNotes(slip: seq<Step>, u: Update, now: Time)
    requires FirstUnfinished(slip) < |slip|
    ensures var i := FirstUnfinished(slip);
            var a, b := slip[i], UpdateCurrent(slip, u, now)[i];
            && (forall text :: u.notes == Some(text) ==> b.notes == Some(text))
            && (u.notes == None && u.appendNote == "" ==> b.notes == a.notes)
            && (u.notes == None && u.appendNote != "" ==>
                b.notes == Some(if a.notes in {None, Some("")} then u.appendNote else a.notes.value + "\n" + u.appendNote))
  {
  }

  function NoteOnly(note: string): Update {
    Update(None, None, None, note)
  }

  /** The notes appended one after another. */
  function AppendAll(slip: seq<Step>, notes: seq<string>, now: Time): seq<Step> {
    if notes == [] then slip
    else UpdateCurrent(AppendAll(slip, notes[..|notes| - 1], now), NoteOnly(notes[|notes| - 1]), now)
  }

  /** Notes as lines. */
  function LinesOf(notes: seq<string>): (text: string)
    requires notes != [] && forall i | 0 <= i < |notes| :: notes[i] != ""
    ensures text != ""
  {
    if |notes| == 1 then notes[0] else LinesOf(notes[..|notes| - 1]) + "\n" + notes[|notes| - 1]
  }

  function LinesIn(notes: Option<string>): (lines: seq<string>)
    ensures forall i | 0 <= i < |lines| :: lines[i] != ""
  {
    if notes in {None, Some("")} then [] else [notes.value]
  }

  /** These notes are those lines. */
  predicate NotesAre(notes: Option<string>, lines: seq<string>)
    requires forall i | 0 <= i < |lines| :: lines[i] != ""
  {
    if lines == [] then notes in {None, Some("")} else notes == Some(LinesOf(lines))
  }

  lemma OneMoreNote(notes: Option<string>, lines: seq<string>, note: string)
    requires forall i | 0 <= i < |lines| :: lines[i] != ""
    requires note != "" && NotesAre(notes, lines)
    ensures NotesAre(Some(Joined(notes, note)), lines + [note])
  {
    assert (lines + [note])[..|lines|] == lines;
  }

  lemma {:induction false} AppendAllStays(slip: seq<Step>, notes: seq<string>, now: Time)
    ensures |AppendAll(slip, notes, now)| == |slip|
    ensures FirstUnfinished(AppendAll(slip, notes, now)) == FirstUnfinished(slip)
  {
    if notes != [] {
      var before := AppendAll(slip, notes[..|notes| - 1], now);
      AppendAllStays(slip, notes[..|notes| - 1], now);
      UpdateWrites(before, NoteOnly(notes[|notes| - 1]), now);
      FirstUnfinishedIs(AppendAll(slip, notes, now), FirstUnfinished(slip));
    }
  }

  /** However many notes are appended to the current step, they end up as its lines, oldest first. */
  lemma {:induction false} NotesAccumulate(slip: seq<Step>, notes: seq<string>, now: Time)
    requires FirstUnfinished(slip) < |slip| && forall i | 0 <= i < |notes| :: notes[i] != ""
    ensures |AppendAll(slip, notes, now)| == |slip|
    ensures var i := FirstUnfinished(slip);
            NotesAre(AppendAll(slip, notes, now)[i].notes, LinesIn(slip[i].notes) + notes)
  {
    var i := FirstUnfinished(slip);
    AppendAllStays(slip, notes, now);
    if notes == [] {
      assert LinesIn(slip[i].notes) + notes == LinesIn(slip[i].notes);
    } else {
      var init, last := notes[..|notes| - 1], notes[|notes| - 1];
      var before := AppendAll(slip, init, now);
      NotesAccumulate(slip, init, now);
      AppendAllStays(slip, init, now);
      UpdateNotes(before, NoteOnly(last), now);
      OneMoreNote(before[i].notes, LinesIn(slip[i].notes) + init, last);
      assert LinesIn(slip[i].notes) + notes == LinesIn(slip[i].notes) + init + [last];
    }
  }

  /** A dispatch stamps the first PENDING step, numbering attempts from 0, and nothing else. */
  lemma ChosenWrites(slip: seq<Step>, now: Time)
    ensures var i := FirstPending(slip);
            var slip' := Chosen(slip, now);
            && |slip'| == |slip|
            && (forall j | 0 <= j < |slip| && j != i :: slip'[j] == slip[j])
            && (i < |slip| ==>
                var a, b := slip[i], slip'[i];
                && b == a.(startedAt := b.startedAt, attempt := b.attempt)
                && (a.startedAt.Some? ==> b.startedAt == a.startedAt)
                && (a.startedAt.None? ==> b.startedAt == Some(now))
                && (a.attempt == None ==> b.attempt == Some(0))
                && (forall n :: a.attempt == Some(n) ==> b.attempt == Some(n + 1)))
  {
  }

  // ---------------------------------------------------------------- what a call does

  predicate NoStepPending(slip: seq<Step>) {
    forall s | s in slip :: s.status != PENDING
  }

  /** The destination of a call that holds the mark: the first PENDING step's topic, else egress. */
  ghost predicate Destination(slip: seq<Step>, egress: string, topic: string) {
    || (NoStepPending(slip) && topic == egress)
    || exists i | 0 <= i < |slip| ::
         slip[i].status == PENDING && slip[i].nextTopic == topic && forall j | 0 <= j < i :: slip[j].status != PENDING
  }

  lemma DestinationIs(slip: seq<Step>, egress: string, topic: string)
    requires Destination(slip, egress, topic)
    ensures var i := FirstPending(slip);
            && (NoStepPending(slip) <==> i == |slip|)
            && topic == if i < |slip| then slip[i].nextTopic else egress
  {
    var i := FirstPending(slip);
    assert i < |slip| ==> slip[i] in slip;
    if !NoStepPending(slip) {
      var k :| 0 <= k < |slip| && slip[k].status == PENDING && slip[k].nextTopic == topic && forall j | 0 <= j < k :: slip[j].status != PENDING;
      FirstPendingIs(slip, k);
    }
  }

  /** The part of a call that holds the mark: it publishes on the prefixed destination, if there is one. */
  lemma DispatchMeaning(ev: Event, prefix: string, now: Time, publishes: bool, topic: string)
    requires ev.nextMark && Destination(ev.slip, ev.egress, topic)
    ensures var (ev', out) := Dispatch(ev, prefix, now, publishes);
            && !out.AlreadyDispatched?
            && (out.NoTarget? || out.NoSubject? <==> topic == "")
            && (out.Failed? <==> topic != "" && !publishes)
            && (out.SentToEgress? <==> topic != "" && publishes && NoStepPending(ev.slip))
            && (topic != "" ==> out.subject == if StartsWith(topic, prefix) then topic else prefix + topic)
            && (out.Failed? <==> !ev'.nextMark)
            && ev' == ev.(slip := ev'.slip, nextMark := ev'.nextMark)
  {
    DestinationIs(ev.slip, ev.egress, topic);
    PrefixedOnce(prefix, topic);
  }

  /**
   `next` refuses exactly the marked event, publishes on the prefixed destination if there is one,
   and leaves the mark unless its publish failed; it never touches the rest of the event.
   */
  lemma NextMeaning(ev: Event, report: Option<Status>, prefix: string, now: Time, publishes: bool, topic: string)
    requires Destination(Reported(ev.slip, report, now), ev.egress, topic)
    ensures var (ev', out) := Next(ev, report, prefix, now, publishes);
            && (out.AlreadyDispatched? <==> ev.nextMark)
            && (out.NoTarget? || out.NoSubject? <==> !ev.nextMark && topic == "")
            && (out.Failed? <==> !ev.nextMark && topic != "" && !publishes)
            && (out.SentToEgress? <==> !ev.nextMark && topic != "" && publishes && NoStepPending(Reported(ev.slip, report, now)))
            && (!ev.nextMark && topic != "" ==> out.subject == if StartsWith(topic, prefix) then topic else prefix + topic)
            && (out.Failed? <==> !ev'.nextMark)
            && ev' == ev.(slip := ev'.slip, nextMark := ev'.nextMark)
  {
    if !ev.nextMark {
      DispatchMeaning(ev.(slip := Reported(ev.slip, report, now), nextMark := true), prefix, now, publishes, topic);
    }
  }

  /** Every slip has one destination and only one. */
  lemma OneDestination(slip: seq<Step>, egress: string) returns (topic: string)
    ensures forall t :: Destination(slip, egress, t) <==> t == topic
  {
    var i := FirstPending(slip);
    topic := if i < |slip| then slip[i].nextTopic else egress;
    assert Destination(slip, egress, topic);
    forall t | Destination(slip, egress, t) ensures t == topic {
      DestinationIs(slip, egress, t);
    }
  }

  /** `complete` refuses exactly the completed event and goes to egress whatever is PENDING; choosing is not its business. */
  lemma CompleteMeaning(ev: Event, report: Option<Status>, prefix: string, now: Time, publishes: bool)
    ensures var (ev', out) := Complete(ev, report, prefix, now, publishes);
            && (out.AlreadyDispatched? <==> ev.completeMark)
            && (!ev.completeMark ==> (out.NoTarget? <==> ev.egress == ""))
            && (!ev.completeMark && ev.egress != "" ==>
                out == (if publishes then SentToEgress(out.subject) else Failed(out.subject)) &&
                out.subject == if StartsWith(ev.egress, prefix) then ev.egress else prefix + ev.egress)
            && (out.Failed? <==> !ev'.completeMark)
            && ev' == ev.(slip := Reported(ev.slip, report, now), completeMark := ev'.completeMark)
  {
    PrefixedOnce(prefix, ev.egress);
  }
}
