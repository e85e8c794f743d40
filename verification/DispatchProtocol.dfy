/**
 Overlapping `next` calls on one in-memory event. A call reports and takes the mark in one
 synchronous stretch, waits for the feedback middleware, then chooses a target and starts the
 publish, and later learns whether the publish succeeded. Other calls may run in between.
 */
module DispatchProtocol {
  import opened Common
  import opened Routing

  type CallId = nat

  datatype Phase = AwaitingFeedback | Publishing(subject: string)

  /** `active` are the calls that hold the mark, `sent` counts the publishes that succeeded. */
  datatype State = State(ev: Event, active: map<CallId, Phase>, sent: nat, failed: nat)

  datatype Action =
    | Begin(id: CallId, report: Option<Status>, now: Time)
    | Resume(id: CallId, now: Time)
    | Settle(id: CallId, ok: bool)

  /** The subject a resumed call publishes on, empty when there is nothing to publish on. */
  function Target(ev: Event, prefix: string): string {
    var i := FirstPending(ev.slip);
    Prefixed(prefix, if i == |ev.slip| then ev.egress else ev.slip[i].nextTopic)
  }

  predicate Enabled(st: State, a: Action) {
    match a
    case Begin(id, _, _) => id !in st.active
    case Resume(id, _) => id in st.active && st.active[id] == AwaitingFeedback
    case Settle(id, _) => id in st.active && st.active[id].Publishing?
  }

  function Step(st: State, a: Action, prefix: string): State
    requires Enabled(st, a)
  {
    match a
    case Begin(id, report, now) =>
      var ev := st.ev.(slip := Reported(st.ev.slip, report, now));
      if ev.nextMark then st.(ev := ev)
      else st.(ev := ev.(nextMark := true), active := st.active[id := AwaitingFeedback])
    case Resume(id, now) =>
      var ev := st.ev.(slip := Chosen(st.ev.slip, now));
      var subject := Target(st.ev, prefix);
      st.(ev := ev, active := if subject == "" then st.active - {id} else st.active[id := Publishing(subject)])
    case Settle(id, ok) =>
      if ok then st.(active := st.active - {id}, sent := st.sent + 1)
      else st.(ev := st.ev.(nextMark := false), active := st.active - {id}, failed := st.failed + 1)
  }

  predicate Executable(st: State, run: seq<Action>, prefix: string)
    decreases |run|
  {
    run == [] || (Enabled(st, run[0]) && Executable(Step(st, run[0], prefix), run[1..], prefix))
  }

  function Run(st: State, run: seq<Action>, prefix: string): State
    requires Executable(st, run, prefix)
    decreases |run|
  {
    if run == [] then st else Run(Step(st, run[0], prefix), run[1..], prefix)
  }

  function Start(ev: Event): State {
    State(Delivered(ev), map[], 0, 0)
  }

  /** At most one call holds the mark, and none does once a publish has succeeded. */
  predicate Inv(st: State) {
    && |st.active| <= 1
    && st.sent <= 1
    && (st.active.Keys != {} || st.sent == 1 ==> st.ev.nextMark)
    && (st.sent == 1 ==> st.active.Keys == {})
  }

  lemma SingletonRemoved<V>(m: map<CallId, V>, id: CallId)
    requires id in m && |m| <= 1
    ensures (m - {id}).Keys == {}
  {
    var rest := m.Keys - {id};
    assert |rest| == |m.Keys| - 1;
    assert (m - {id}).Keys == rest;
  }

  lemma StepKeepsInv(st: State, a: Action, prefix: string)
    requires Inv(st) && Enabled(st, a)
    ensures Inv(Step(st, a, prefix))
  {
    match a
    case Begin(id, _, _) =>
      if !st.ev.nextMark {
        assert st.active == map[];
      }
    case Resume(id, _) =>
      SingletonRemoved(st.active, id);
      assert st.active[id := Publishing(Target(st.ev, prefix))].Keys == st.active.Keys;
      assert |st.active[id := Publishing(Target(st.ev, prefix))]| == |st.active|;
    case Settle(id, _) =>
      SingletonRemoved(st.active, id);
  }

  /**
   In every interleaving at most one call holds the mark at a time, hence at most one publish is
   pending, and at most one publish ever succeeds.
   */
  lemma {:induction false} AtMostOnce(st: State, run: seq<Action>, prefix: string)
    requires Inv(st) && Executable(st, run, prefix)
    ensures Inv(Run(st, run, prefix))
    decreases |run|
  {
    if run != [] {
      StepKeepsInv(st, run[0], prefix);
      AtMostOnce(Step(st, run[0], prefix), run[1..], prefix);
    }
  }

  /** After a failed publish the very next call takes the mark again, whatever happened before. */
  lemma FailureLeavesDispatchable(ev: Event, run: seq<Action>, prefix: string, id: CallId, again: CallId, report: Option<Status>, now: Time)
    requires Executable(Start(ev), run, prefix)
    requires var st := Run(Start(ev), run, prefix); Enabled(st, Settle(id, false))
    ensures var st := Step(Run(Start(ev), run, prefix), Settle(id, false), prefix);
            && st.sent == 0 && st.active == map[]
            && Enabled(st, Begin(again, report, now))
            && Step(st, Begin(again, report, now), prefix).active == map[again := AwaitingFeedback]
  {
    AtMostOnce(Start(ev), run, prefix);
    var st := Run(Start(ev), run, prefix);
    SingletonRemoved(st.active, id);
    assert st.active - {id} == map[];
  }

  /** Once a publish has succeeded, later calls can still report but never publish or choose again. */
  lemma {:induction false} SuccessIsFinal(st: State, run: seq<Action>, prefix: string)
    requires Inv(st) && st.sent == 1 && Executable(st, run, prefix)
    ensures var st' := Run(st, run, prefix);
            && st'.sent == 1 && st'.failed == st.failed && st'.active == st.active
            && |st'.ev.slip| == |st.ev.slip|
            && forall j | 0 <= j < |st.ev.slip| :: st'.ev.slip[j].attempt == st.ev.slip[j].attempt
    decreases |run|
  {
    if run != [] {
      assert run[0].Begin?;
      StepKeepsInv(st, run[0], prefix);
      var st1 := Step(st, run[0], prefix);
      assert forall j | 0 <= j < |st.ev.slip| :: st1.ev.slip[j].attempt == st.ev.slip[j].attempt;
      SuccessIsFinal(st1, run[1..], prefix);
    }
  }

  /** The reports of a run in the order in which the calls began. */
  function Reports(run: seq<Action>): seq<Option<Status>> {
    if run == [] then []
    else (if run[0].Begin? then [run[0].report] else []) + Reports(run[1..])
  }

  function Statuses(slip: seq<Routing.Step>): (ss: seq<Status>)
    ensures |ss| == |slip| && forall j | 0 <= j < |slip| :: ss[j] == slip[j].status
  {
    seq(|slip|, i requires 0 <= i < |slip| => slip[i].status)
  }

  /** Reports applied one after another with nothing in between. */
  function ReportAll(slip: seq<Routing.Step>, reports: seq<Option<Status>>): seq<Routing.Step>
    decreases |reports|
  {
    if reports == [] then slip else ReportAll(Reported(slip, reports[0], 0), reports[1..])
  }

  lemma {:induction false} ReportAllByStatus(a: seq<Routing.Step>, b: seq<Routing.Step>, reports: seq<Option<Status>>)
    requires Statuses(a) == Statuses(b)
    ensures Statuses(ReportAll(a, reports)) == Statuses(ReportAll(b, reports))
    decreases |reports|
  {
    if reports != [] {
      ReportedByStatus(a, b, reports[0], 0, 0);
      ReportAllByStatus(Reported(a, reports[0], 0), Reported(b, reports[0], 0), reports[1..]);
    }
  }

  lemma ReportedByStatus(a: seq<Routing.Step>, b: seq<Routing.Step>, report: Option<Status>, t: Time, u: Time)
    requires Statuses(a) == Statuses(b)
    ensures Statuses(Reported(a, report, t)) == Statuses(Reported(b, report, u))
  {
    assert forall j | 0 <= j < |a| :: a[j].status == Statuses(b)[j];
    FirstUnfinishedIs(a, FirstUnfinished(b));
  }

  /**
   Every call's report takes effect, the calls the mark turned away included, and however the
   calls overlap the final statuses depend only on the order in which they began.
   */
  lemma {:induction false} StatusesFollowReports(st: State, run: seq<Action>, prefix: string)
    requires Executable(st, run, prefix)
    ensures Statuses(Run(st, run, prefix).ev.slip) == Statuses(ReportAll(st.ev.slip, Reports(run)))
    decreases |run|
  {
    if run != [] {
      var st' := Step(st, run[0], prefix);
      var rest := Reports(run[1..]);
      StatusesFollowReports(st', run[1..], prefix);
      assert Run(st, run, prefix) == Run(st', run[1..], prefix);
      if run[0].Begin? {
        var reported := Reported(st.ev.slip, run[0].report, 0);
        ReportedByStatus(st.ev.slip, st.ev.slip, run[0].report, run[0].now, 0);
        ReportAllByStatus(st'.ev.slip, reported, rest);
        assert Reports(run) == [run[0].report] + rest;
      } else {
        if run[0].Resume? {
          ChosenKeepsStatuses(st.ev.slip, run[0].now);
        }
        assert Statuses(st'.ev.slip) == Statuses(st.ev.slip);
        ReportAllByStatus(st'.ev.slip, st.ev.slip, rest);
        assert Reports(run) == rest;
      }
    }
  }

  /** Without overlap the three steps of a call are the sequential `next`. */
  lemma UninterruptedCallIsNext(ev: Event, id: CallId, report: Option<Status>, prefix: string, now: Time, ok: bool)
    requires !ev.nextMark
    ensures var st0 := State(ev, map[], 0, 0);
            var st2 := Step(Step(st0, Begin(id, report, now), prefix), Resume(id, now), prefix);
            var (ev', out) := Next(ev, report, prefix, now, ok);
            if Enabled(st2, Settle(id, ok))
            then Step(st2, Settle(id, ok), prefix).ev == ev' &&
                 st2.active[id] == Publishing(out.subject) &&
                 (ok <==> (out.SentToStep? || out.SentToEgress?)) && (!ok <==> out.Failed?)
            else st2.ev == ev' && (out.NoTarget? || out.NoSubject?)
  {
  }
}
