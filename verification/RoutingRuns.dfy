/** Whole runs over a routing slip: termination, dispatch order, and what replans conserve. */
module RoutingRuns {
  import opened Common
  import opened Routing

  // ---------------------------------------------------------------- runs of hops

  /** One service's turn: the event is delivered afresh, the service reports, the publish succeeds. */
  function Hop(ev: Event, report: Option<Status>, prefix: string, now: Time): (Event, Outcome) {
    Next(Delivered(ev), report, prefix, now, true)
  }

  function HopRun(ev: Event, reports: seq<Option<Status>>, prefix: string, now: Time): Event
    decreases |reports|
  {
    if reports == [] then ev else HopRun(Hop(ev, reports[0], prefix, now).0, reports[1..], prefix, now)
  }

  function HopOutcomes(ev: Event, reports: seq<Option<Status>>, prefix: string, now: Time): (outs: seq<Outcome>)
    ensures |outs| == |reports|
    decreases |reports|
  {
    if reports == [] then []
    else
      var (ev', out) := Hop(ev, reports[0], prefix, now);
      [out] + HopOutcomes(ev', reports[1..], prefix, now)
  }

  /** How many hops of the run report ERROR while the first unfinished step is already ERROR. */
  function Stallings(ev: Event, reports: seq<Option<Status>>, prefix: string, now: Time): nat
    decreases |reports|
  {
    if reports == [] then 0
    else (if Stalls(ev.slip, reports[0]) then 1 else 0) + Stallings(Hop(ev, reports[0], prefix, now).0, reports[1..], prefix, now)
  }

  predicate NeverStalls(ev: Event, reports: seq<Option<Status>>, prefix: string, now: Time) {
    Stallings(ev, reports, prefix, now) == 0
  }

  predicate ReachesEgress(outs: seq<Outcome>) {
    exists o | o in outs :: o.SentToEgress?
  }

  /** A report a service makes when it is done with an event. */
  predicate Terminal(report: Option<Status>) {
    report.Some? && report.value != PENDING
  }

  predicate Routable(ev: Event) {
    ev.egress != "" && forall s | s in ev.slip :: s.nextTopic != ""
  }

  /** Where a hop sends the event, read off the slip it leaves behind. */
  function SentBy(ev: Event, slip: seq<Step>, prefix: string): Outcome {
    var p := FirstPending(slip);
    if p < |slip| then SentToStep(p, Prefixed(prefix, slip[p].nextTopic)) else SentToEgress(Prefixed(prefix, ev.egress))
  }

  predicate SameTopics(a: Event, b: Event) {
    && a.egress == b.egress
    && |a.slip| == |b.slip|
    && forall j | 0 <= j < |a.slip| :: a.slip[j].nextTopic == b.slip[j].nextTopic
  }

  lemma DispatchEffect(ev: Event, prefix: string, now: Time)
    requires Routable(ev)
    ensures Dispatch(ev, prefix, now, true) == (ev.(slip := Chosen(ev.slip, now)), SentBy(ev, ev.slip, prefix))
  {
    if FirstPending(ev.slip) == |ev.slip| {
      assert Chosen(ev.slip, now) == ev.slip;
    } else {
      assert ev.slip[FirstPending(ev.slip)] in ev.slip;
    }
  }

  lemma HopEffect(ev: Event, report: Option<Status>, prefix: string, now: Time)
    requires Routable(ev)
    ensures Hop(ev, report, prefix, now).0.slip == HopSlip(ev.slip, report, now)
    ensures SameTopics(ev, Hop(ev, report, prefix, now).0)
    ensures Routable(Hop(ev, report, prefix, now).0)
    ensures Hop(ev, report, prefix, now).1 == SentBy(ev, HopSlip(ev.slip, report, now), prefix)
  {
    var mid := Reported(ev.slip, report, now);
    var marked := Delivered(ev).(slip := mid, nextMark := true);
    assert Hop(ev, report, prefix, now) == Dispatch(marked, prefix, now, true);
    assert forall j | 0 <= j < |mid| :: mid[j].nextTopic == ev.slip[j].nextTopic && ev.slip[j] in ev.slip;
    DispatchEffect(marked, prefix, now);
    ChosenKeepsStatuses(mid, now);
  }

  /** A report changes at most the status of the first unfinished step. */
  lemma HopStatuses(slip: seq<Step>, report: Status, now: Time)
    ensures var slip' := HopSlip(slip, Some(report), now);
            && |slip'| == |slip|
            && (forall j | 0 <= j < |slip| && j != FirstUnfinished(slip) :: slip'[j].status == slip[j].status)
            && (FirstUnfinished(slip) < |slip| ==> slip'[FirstUnfinished(slip)].status == report)
  {
    ChosenKeepsStatuses(Reported(slip, Some(report), now), now);
  }

  /** A hop that does not send to egress leaves a PENDING step behind and lowers the measure unless it stalls. */
  lemma HopLowersMeasure(ev: Event, report: Option<Status>, prefix: string, now: Time)
    requires Routable(ev) && Terminal(report)
    requires !Hop(ev, report, prefix, now).1.SentToEgress?
    ensures var slip' := Hop(ev, report, prefix, now).0.slip;
            && 2 <= Measure(slip') <= Measure(ev.slip)
            && (!Stalls(ev.slip, report) ==> Measure(slip') < Measure(ev.slip))
  {
    var slip' := HopSlip(ev.slip, report, now);
    HopEffect(ev, report, prefix, now);
    var p := FirstPending(slip');
    MeasureOfElement(slip', p);
    HopStatuses(ev.slip, report.value, now);
    HopProgressIff(ev.slip, report.value, now);
    assert !Finished(ev.slip[p].status);
  }

  /** Every hop short of egress is paid for by the measure or is a stalling one; two units are always left. */
  lemma {:induction false} HopsArePaidFor(ev: Event, reports: seq<Option<Status>>, prefix: string, now: Time)
    requires Routable(ev)
    requires forall r | r in reports :: Terminal(r)
    requires !ReachesEgress(HopOutcomes(ev, reports, prefix, now))
    ensures reports != [] ==> |reports| + 2 <= Measure(ev.slip) + Stallings(ev, reports, prefix, now)
    decreases |reports|
  {
    if reports != [] {
      var ev' := Hop(ev, reports[0], prefix, now).0;
      var outs := HopOutcomes(ev, reports, prefix, now);
      assert reports[0] in reports;
      assert outs[0] in outs;
      HopLowersMeasure(ev, reports[0], prefix, now);
      forall o | o in outs[1..] ensures !o.SentToEgress? { assert o in outs; }
      assert outs[1..] == HopOutcomes(ev', reports[1..], prefix, now);
      HopEffect(ev, reports[0], prefix, now);
      HopsArePaidFor(ev', reports[1..], prefix, now);
    }
  }

  /** From n PENDING steps any run of terminal reports has sent to egress after 2n - 1 hops and one more per stalling hop. */
  lemma EgressUnlessStalling(ev: Event, reports: seq<Option<Status>>, prefix: string, now: Time)
    requires AllPending(ev.slip) && Routable(ev)
    requires forall r | r in reports :: Terminal(r)
    requires |reports| >= 1 && |reports| >= 2 * |ev.slip| - 1 + Stallings(ev, reports, prefix, now)
    ensures ReachesEgress(HopOutcomes(ev, reports, prefix, now))
  {
    if !ReachesEgress(HopOutcomes(ev, reports, prefix, now)) {
      MeasureAllPending(ev.slip);
      HopsArePaidFor(ev, reports, prefix, now);
    }
  }

  /**
   A run that never stalls has sent to egress once it has made 2n - 1 hops (1 for an empty slip),
   hence within the 2n of the design.
   */
  lemma EgressWithin2n(ev: Event, reports: seq<Option<Status>>, prefix: string, now: Time)
    requires AllPending(ev.slip) && Routable(ev)
    requires forall r | r in reports :: Terminal(r)
    requires NeverStalls(ev, reports, prefix, now)
    requires |reports| >= 1 && |reports| >= 2 * |ev.slip| - 1
    ensures ReachesEgress(HopOutcomes(ev, reports, prefix, now))
  {
    EgressUnlessStalling(ev, reports, prefix, now);
  }

  /** The first `k` steps are finished and the rest are PENDING. */
  predicate FinishedUpTo(slip: seq<Step>, k: nat) {
    && k <= |slip|
    && (forall j | 0 <= j < k :: Finished(slip[j].status))
    && (forall j | k <= j < |slip| :: slip[j].status == PENDING)
  }

  lemma FinishedUpToSearches(slip: seq<Step>, k: nat)
    requires FinishedUpTo(slip, k)
    ensures FirstUnfinished(slip) == k && FirstPending(slip) == k
  {
    FirstUnfinishedIs(slip, k);
    FirstPendingIs(slip, k);
  }

  lemma HopFinishes(ev: Event, k: nat, report: Status, prefix: string, now: Time)
    requires Routable(ev) && FinishedUpTo(ev.slip, k) && k < |ev.slip| && Finished(report)
    ensures FinishedUpTo(Hop(ev, Some(report), prefix, now).0.slip, k + 1)
    ensures Hop(ev, Some(report), prefix, now).1 ==
            if k + 1 == |ev.slip| then SentToEgress(Prefixed(prefix, ev.egress))
            else SentToStep(k + 1, Prefixed(prefix, ev.slip[k + 1].nextTopic))
  {
    FinishedUpToSearches(ev.slip, k);
    HopStatuses(ev.slip, report, now);
    HopEffect(ev, Some(report), prefix, now);
    FinishedUpToSearches(HopSlip(ev.slip, Some(report), now), k + 1);
  }

  /** The first `k` steps are finished, step `k` is ERROR and the rest are PENDING. */
  predicate ErrorAt(slip: seq<Step>, k: nat) {
    && k < |slip|
    && (forall j | 0 <= j < k :: Finished(slip[j].status))
    && slip[k].status == ERROR
    && (forall j | k < j < |slip| :: slip[j].status == PENDING)
  }

  lemma HopFails(ev: Event, k: nat, prefix: string, now: Time)
    requires Routable(ev) && FinishedUpTo(ev.slip, k) && k + 1 < |ev.slip|
    ensures !Stalls(ev.slip, Some(ERROR))
    ensures ErrorAt(Hop(ev, Some(ERROR), prefix, now).0.slip, k)
    ensures Hop(ev, Some(ERROR), prefix, now).1.SentToStep?
  {
    FinishedUpToSearches(ev.slip, k);
    HopStatuses(ev.slip, ERROR, now);
    HopEffect(ev, Some(ERROR), prefix, now);
    FirstPendingIs(HopSlip(ev.slip, Some(ERROR), now), k + 1);
  }

  lemma HopRecovers(ev: Event, k: nat, prefix: string, now: Time)
    requires Routable(ev) && ErrorAt(ev.slip, k) && k + 1 < |ev.slip|
    ensures FinishedUpTo(Hop(ev, Some(OK), prefix, now).0.slip, k + 1)
    ensures Hop(ev, Some(OK), prefix, now).1.SentToStep?
  {
    FirstUnfinishedIs(ev.slip, k);
    HopStatuses(ev.slip, OK, now);
    HopEffect(ev, Some(OK), prefix, now);
    FinishedUpToSearches(HopSlip(ev.slip, Some(OK), now), k + 1);
  }

  /** Unfolds a run by its first two hops. */
  lemma AlternatingRun(ev: Event, rest: seq<Option<Status>>, prefix: string, now: Time)
    ensures var (ev1, out1) := Hop(ev, Some(ERROR), prefix, now);
            var (ev2, out2) := Hop(ev1, Some(OK), prefix, now);
            var reports := [Some(ERROR)] + ([Some(OK)] + rest);
            && HopOutcomes(ev, reports, prefix, now) == [out1] + ([out2] + HopOutcomes(ev2, rest, prefix, now))
            && (NeverStalls(ev, reports, prefix, now) <==>
                (!Stalls(ev.slip, Some(ERROR)) && NeverStalls(ev2, rest, prefix, now)))
  {
    var more := [Some(OK)] + rest;
    assert more[1..] == rest;
    assert ([Some(ERROR)] + more)[1..] == more;
    var ev1 := Hop(ev, Some(ERROR), prefix, now).0;
    assert Stallings(ev1, more, prefix, now) == Stallings(Hop(ev1, Some(OK), prefix, now).0, rest, prefix, now);
  }

  lemma TwoMoreSends(a: Outcome, b: Outcome, rest: seq<Outcome>)
    requires !a.SentToEgress? && !b.SentToEgress? && !ReachesEgress(rest)
    ensures !ReachesEgress([a] + ([b] + rest))
  {
    forall o | o in [a] + ([b] + rest) ensures !o.SentToEgress? {
      assert o == a || o == b || o in rest;
    }
  }

  /**
   The bound of EgressWithin2n cannot be lowered: from any all-PENDING slip of n steps there is a
   run of 2n - 2 hops that never stalls and never sends to egress (ERROR, OK repeated).
   */
  lemma {:induction false} BoundIsTight(ev: Event, k: nat, prefix: string, now: Time) returns (reports: seq<Option<Status>>)
    requires Routable(ev) && FinishedUpTo(ev.slip, k) && k < |ev.slip|
    ensures |reports| == 2 * (|ev.slip| - k) - 2
    ensures forall r | r in reports :: Terminal(r)
    ensures NeverStalls(ev, reports, prefix, now)
    ensures !ReachesEgress(HopOutcomes(ev, reports, prefix, now))
    decreases |ev.slip| - k
  {
    if k + 1 == |ev.slip| {
      return [];
    }
    var ev1, out1, ev2, out2 := ErrorThenOk(ev, k, prefix, now);
    var rest := BoundIsTight(ev2, k + 1, prefix, now);
    AlternatingRun(ev, rest, prefix, now);
    TwoMoreSends(out1, out2, HopOutcomes(ev2, rest, prefix, now));
    reports := [Some(ERROR)] + ([Some(OK)] + rest);
  }

  lemma ErrorThenOk(ev: Event, k: nat, prefix: string, now: Time)
    returns (ev1: Event, out1: Outcome, ev2: Event, out2: Outcome)
    requires Routable(ev) && FinishedUpTo(ev.slip, k) && k + 1 < |ev.slip|
    ensures (ev1, out1) == Hop(ev, Some(ERROR), prefix, now) && (ev2, out2) == Hop(ev1, Some(OK), prefix, now)
    ensures Routable(ev2) && FinishedUpTo(ev2.slip, k + 1) && |ev2.slip| == |ev.slip|
    ensures !Stalls(ev.slip, Some(ERROR)) && out1.SentToStep? && out2.SentToStep?
  {
    HopFails(ev, k, prefix, now);
    HopEffect(ev, Some(ERROR), prefix, now);
    ev1, out1 := Hop(ev, Some(ERROR), prefix, now).0, Hop(ev, Some(ERROR), prefix, now).1;
    HopRecovers(ev1, k, prefix, now);
    HopEffect(ev1, Some(OK), prefix, now);
    ev2, out2 := Hop(ev1, Some(OK), prefix, now).0, Hop(ev1, Some(OK), prefix, now).1;
  }

  lemma StalledHop(ev: Event, prefix: string, now: Time)
    requires Routable(ev) && Stalls(ev.slip, Some(ERROR)) && FirstPending(ev.slip) < |ev.slip|
    ensures var ev' := Hop(ev, Some(ERROR), prefix, now).0;
            Routable(ev') && Stalls(ev'.slip, Some(ERROR)) && SameTopics(ev, ev') && FirstPending(ev'.slip) == FirstPending(ev.slip)
    ensures var (ev', out) := Hop(ev, Some(ERROR), prefix, now);
            out.SentToStep? && out == SentBy(ev, ev.slip, prefix) == SentBy(ev', ev'.slip, prefix)
  {
    var slip' := HopSlip(ev.slip, Some(ERROR), now);
    HopEffect(ev, Some(ERROR), prefix, now);
    HopStatuses(ev.slip, ERROR, now);
    FirstPendingIs(slip', FirstPending(ev.slip));
    FirstUnfinishedIs(slip', FirstUnfinished(ev.slip));
  }

  /** Repeating ERROR on a stalled slip dispatches one step for ever. */
  lemma {:induction false} StalledForever(ev: Event, reports: seq<Option<Status>>, prefix: string, now: Time)
    requires Routable(ev) && Stalls(ev.slip, Some(ERROR)) && FirstPending(ev.slip) < |ev.slip|
    requires forall r | r in reports :: r == Some(ERROR)
    ensures forall o | o in HopOutcomes(ev, reports, prefix, now) :: o == SentBy(ev, ev.slip, prefix) && o.SentToStep?
    decreases |reports|
  {
    if reports != [] {
      assert reports[0] in reports && forall r | r in reports[1..] :: r in reports;
      var (ev', out) := Hop(ev, Some(ERROR), prefix, now);
      StalledHop(ev, prefix, now);
      StalledForever(ev', reports[1..], prefix, now);
      assert HopOutcomes(ev, reports, prefix, now) == [out] + HopOutcomes(ev', reports[1..], prefix, now);
    }
  }

  /** The first ERROR of an all-PENDING slip of two steps or more stalls it at the second step. */
  lemma FirstErrorStalls(ev: Event, prefix: string, now: Time)
    requires AllPending(ev.slip) && Routable(ev) && |ev.slip| >= 2
    ensures var ev' := Hop(ev, Some(ERROR), prefix, now).0;
            && Routable(ev') && Stalls(ev'.slip, Some(ERROR)) && FirstPending(ev'.slip) == 1 < |ev'.slip|
            && SentBy(ev', ev'.slip, prefix) == Hop(ev, Some(ERROR), prefix, now).1
                                             == SentToStep(1, Prefixed(prefix, ev.slip[1].nextTopic))
  {
    assert FinishedUpTo(ev.slip, 0);
    HopFails(ev, 0, prefix, now);
    HopEffect(ev, Some(ERROR), prefix, now);
    var slip' := Hop(ev, Some(ERROR), prefix, now).0.slip;
    FirstUnfinishedIs(slip', 0);
    FirstPendingIs(slip', 1);
  }

  // ---------------------------------------------------------------- which runs reach egress

  /** The reports of services that were done with the event, in order. */
  function Verdicts(reports: seq<Option<Status>>): seq<Status>
    decreases |reports|
  {
    if reports == [] then []
    else (if Terminal(reports[0]) then [reports[0].value] else []) + Verdicts(reports[1..])
  }

  function Successes(verdicts: seq<Status>): nat {
    if verdicts == [] then 0 else (if Finished(verdicts[0]) then 1 else 0) + Successes(verdicts[1..])
  }

  /** `k` steps are finished, the next may be in ERROR, and a PENDING one is left. */
  predicate InProgress(slip: seq<Step>, k: nat) {
    (FinishedUpTo(slip, k) && k < |slip|) || (ErrorAt(slip, k) && k + 1 < |slip|)
  }

  lemma InProgressSearches(slip: seq<Step>, k: nat)
    requires InProgress(slip, k)
    ensures FirstUnfinished(slip) == k
    ensures FirstPending(slip) == if slip[k].status == ERROR then k + 1 else k
  {
    FirstUnfinishedIs(slip, k);
    FirstPendingIs(slip, if slip[k].status == ERROR then k + 1 else k);
  }

  /** How far a slip is after a report. */
  function Advanced(k: nat, report: Option<Status>): nat {
    if report.Some? && Finished(report.value) then k + 1 else k
  }

  /** `n - 1 - k` successes and then one more verdict. */
  predicate Enough(verdicts: seq<Status>, k: nat, n: nat) {
    verdicts != [] && k + Successes(verdicts[..|verdicts| - 1]) >= n - 1
  }

  /** `slip'` has the statuses of `slip`, but for the report on step `k`. */
  predicate StatusesAfter(slip: seq<Step>, slip': seq<Step>, k: nat, report: Option<Status>) {
    && k < |slip| == |slip'|
    && (forall j | 0 <= j < |slip| && j != k :: slip'[j].status == slip[j].status)
    && slip'[k].status == if report.Some? then report.value else slip[k].status
  }

  lemma ProgressByStatuses(slip: seq<Step>, slip': seq<Step>, k: nat, report: Option<Status>)
    requires InProgress(slip, k) && StatusesAfter(slip, slip', k, report)
    ensures if Terminal(report) && k + 1 == |slip| then FirstPending(slip') == |slip'|
            else InProgress(slip', Advanced(k, report)) && FirstPending(slip') < |slip'|
  {
    if Terminal(report) && k + 1 == |slip| {
      FirstPendingIs(slip', |slip'|);
    } else if report.Some? && Finished(report.value) {
      assert FinishedUpTo(slip', k + 1);
      InProgressSearches(slip', k + 1);
    } else {
      assert if slip'[k].status == ERROR then ErrorAt(slip', k) else FinishedUpTo(slip', k);
      InProgressSearches(slip', k);
    }
  }

  /** One hop of a slip in progress: no step is PENDING any more, or the slip is still in progress. */
  lemma SlipInProgress(slip: seq<Step>, k: nat, report: Option<Status>, now: Time)
    requires InProgress(slip, k)
    ensures var slip' := HopSlip(slip, report, now);
            if Terminal(report) && k + 1 == |slip| then FirstPending(slip') == |slip'|
            else InProgress(slip', Advanced(k, report)) && FirstPending(slip') < |slip'|
  {
    InProgressSearches(slip, k);
    if report.None? {
      ChosenKeepsStatuses(slip, now);
    } else {
      HopStatuses(slip, report.value, now);
    }
    ProgressByStatuses(slip, HopSlip(slip, report, now), k, report);
  }

  lemma HopInProgress(ev: Event, k: nat, report: Option<Status>, prefix: string, now: Time)
    requires Routable(ev) && InProgress(ev.slip, k)
    ensures var (ev', out) := Hop(ev, report, prefix, now);
            && Routable(ev') && |ev'.slip| == |ev.slip|
            && (out.SentToEgress? <==> Terminal(report) && k + 1 == |ev.slip|)
            && (!out.SentToEgress? ==> InProgress(ev'.slip, Advanced(k, report)))
  {
    HopEffect(ev, report, prefix, now);
    SlipInProgress(ev.slip, k, report, now);
  }

  lemma EnoughCons(verdict: Status, rest: seq<Status>, k: nat, n: nat)
    requires k + 1 < n
    ensures Enough([verdict] + rest, k, n) <==> Enough(rest, if Finished(verdict) then k + 1 else k, n)
  {
    var v := [verdict] + rest;
    if rest == [] {
      assert v[..|v| - 1] == [];
    } else {
      var init := rest[..|rest| - 1];
      assert v[..|v| - 1] == [verdict] + init;
      assert ([verdict] + init)[1..] == init;
    }
  }

  lemma VerdictsCons(report: Option<Status>, rest: seq<Option<Status>>, k: nat, n: nat)
    requires k + 1 < n || (k + 1 == n && !Terminal(report))
    ensures Enough(Verdicts([report] + rest), k, n) <==> Enough(Verdicts(rest), Advanced(k, report), n)
  {
    assert ([report] + rest)[1..] == rest;
    if Terminal(report) {
      EnoughCons(report.value, Verdicts(rest), k, n);
    } else {
      assert Verdicts([report] + rest) == Verdicts(rest);
    }
  }

  lemma {:induction false} InProgressEgressIff(ev: Event, k: nat, reports: seq<Option<Status>>, prefix: string, now: Time)
    requires Routable(ev) && InProgress(ev.slip, k)
    ensures ReachesEgress(HopOutcomes(ev, reports, prefix, now)) <==> Enough(Verdicts(reports), k, |ev.slip|)
    decreases |reports|
  {
    if reports != [] {
      var report, rest := reports[0], reports[1..];
      var (ev', out) := Hop(ev, report, prefix, now);
      HopInProgress(ev, k, report, prefix, now);
      EgressCons(out, HopOutcomes(ev', rest, prefix, now));
      if !out.SentToEgress? {
        assert reports == [report] + rest;
        VerdictsCons(report, rest, k, |ev.slip|);
        InProgressEgressIff(ev', Advanced(k, report), rest, prefix, now);
      }
    }
  }

  lemma EgressCons(out: Outcome, rest: seq<Outcome>)
    ensures ReachesEgress([out] + rest) <==> out.SentToEgress? || ReachesEgress(rest)
  {
    assert out in [out] + rest;
    assert forall o :: o in [out] + rest <==> o == out || o in rest;
  }

  /**
   Exactly which runs reach egress: of a slip of n PENDING steps those in which n - 1 services have
   reported OK or SKIP and then another one reports anything but PENDING. Where the ERRORs fall does
   not matter, and neither do hops without a report.
   */
  lemma EgressIff(ev: Event, reports: seq<Option<Status>>, prefix: string, now: Time)
    requires AllPending(ev.slip) && ev.slip != [] && Routable(ev)
    ensures ReachesEgress(HopOutcomes(ev, reports, prefix, now)) <==> Enough(Verdicts(reports), 0, |ev.slip|)
  {
    assert FinishedUpTo(ev.slip, 0);
    InProgressEgressIff(ev, 0, reports, prefix, now);
  }

  /** An empty slip goes to egress at the first hop. */
  lemma EmptySlipEgressIff(ev: Event, reports: seq<Option<Status>>, prefix: string, now: Time)
    requires ev.slip == [] && Routable(ev)
    ensures ReachesEgress(HopOutcomes(ev, reports, prefix, now)) <==> reports != []
  {
    if reports != [] {
      var (ev', out) := Hop(ev, reports[0], prefix, now);
      HopEffect(ev, reports[0], prefix, now);
      EgressCons(out, HopOutcomes(ev', reports[1..], prefix, now));
    }
  }

  lemma {:induction false} ErrorVerdicts(reports: seq<Option<Status>>)
    requires forall r | r in reports :: r == Some(ERROR)
    ensures |Verdicts(reports)| == |reports| && forall v | v in Verdicts(reports) :: v == ERROR
    decreases |reports|
  {
    if reports != [] {
      assert reports[0] in reports && forall r | r in reports[1..] :: r in reports;
      ErrorVerdicts(reports[1..]);
    }
  }

  lemma {:induction false} NoSuccesses(verdicts: seq<Status>)
    requires forall v | v in verdicts :: v == ERROR
    ensures Successes(verdicts) == 0
  {
    if verdicts != [] {
      assert verdicts[0] in verdicts && forall v | v in verdicts[1..] :: v in verdicts;
      NoSuccesses(verdicts[1..]);
    }
  }

  lemma ErrorsAreEnoughIff(reports: seq<Option<Status>>, n: nat)
    requires reports != [] && forall r | r in reports :: r == Some(ERROR)
    ensures Enough(Verdicts(reports), 0, n) <==> n < 2
  {
    var v := Verdicts(reports);
    ErrorVerdicts(reports);
    var init := v[..|v| - 1];
    forall x | x in init ensures x == ERROR { assert x in v; }
    NoSuccesses(init);
  }

  lemma AllErrorsDispatchSecond(ev: Event, reports: seq<Option<Status>>, prefix: string, now: Time)
    requires AllPending(ev.slip) && Routable(ev) && |ev.slip| >= 2
    requires forall r | r in reports :: r == Some(ERROR)
    ensures forall o | o in HopOutcomes(ev, reports, prefix, now) :: o == SentToStep(1, Prefixed(prefix, ev.slip[1].nextTopic))
  {
    if reports != [] {
      assert reports[0] in reports;
      assert forall r | r in reports[1..] :: r in reports;
      var (ev', out) := Hop(ev, Some(ERROR), prefix, now);
      FirstErrorStalls(ev, prefix, now);
      StalledForever(ev', reports[1..], prefix, now);
      assert HopOutcomes(ev, reports, prefix, now) == [out] + HopOutcomes(ev', reports[1..], prefix, now);
    }
  }

  /**
   From n PENDING steps a run of ERROR reports sends to egress exactly when n < 2: otherwise every
   hop, the first included, dispatches the second step.
   */
  lemma AllErrorsReachEgressIff(ev: Event, reports: seq<Option<Status>>, prefix: string, now: Time)
    requires AllPending(ev.slip) && Routable(ev) && reports != []
    requires forall r | r in reports :: r == Some(ERROR)
    ensures ReachesEgress(HopOutcomes(ev, reports, prefix, now)) <==> |ev.slip| < 2
    ensures |ev.slip| >= 2 ==>
              forall o | o in HopOutcomes(ev, reports, prefix, now) :: o == SentToStep(1, Prefixed(prefix, ev.slip[1].nextTopic))
  {
    if ev.slip == [] {
      EmptySlipEgressIff(ev, reports, prefix, now);
    } else {
      ErrorsAreEnoughIff(reports, |ev.slip|);
      EgressIff(ev, reports, prefix, now);
    }
    if |ev.slip| >= 2 {
      AllErrorsDispatchSecond(ev, reports, prefix, now);
    }
  }

  // ---------------------------------------------------------------- the happy path

  /** The sends of a run in which everybody reports OK or SKIP, from slip position `k` on. */
  function ExpectedFrom(ev: Event, k: nat, prefix: string): seq<Outcome>
    requires k <= |ev.slip|
    decreases |ev.slip| - k
  {
    if k == |ev.slip| then [SentToEgress(Prefixed(prefix, ev.egress))]
    else [SentToStep(k, Prefixed(prefix, ev.slip[k].nextTopic))] + ExpectedFrom(ev, k + 1, prefix)
  }

  lemma {:induction false} ExpectedFromFrame(a: Event, b: Event, k: nat, prefix: string)
    requires k <= |a.slip| == |b.slip| && a.egress == b.egress
    requires forall j | 0 <= j < |a.slip| :: a.slip[j].nextTopic == b.slip[j].nextTopic
    ensures ExpectedFrom(a, k, prefix) == ExpectedFrom(b, k, prefix)
    decreases |a.slip| - k
  {
    if k < |a.slip| {
      ExpectedFromFrame(a, b, k + 1, prefix);
    }
  }

  lemma {:induction false} HappyTail(ev: Event, k: nat, reports: seq<Option<Status>>, prefix: string, now: Time)
    requires Routable(ev) && FinishedUpTo(ev.slip, k) && k + |reports| == |ev.slip|
    requires forall r | r in reports :: r.Some? && Finished(r.value)
    ensures reports != [] ==> HopOutcomes(ev, reports, prefix, now) == ExpectedFrom(ev, k + 1, prefix)
    decreases |reports|
  {
    if reports != [] {
      var r := reports[0];
      assert r in reports;
      var (ev', out) := Hop(ev, r, prefix, now);
      HopEffect(ev, r, prefix, now);
      HopFinishes(ev, k, r.value, prefix, now);
      HappyTail(ev', k + 1, reports[1..], prefix, now);
      if k + 1 < |ev.slip| {
        ExpectedFromFrame(ev, ev', k + 2, prefix);
      }
    }
  }

  /**
   The router calls `next(e)`, then each of the n services reports OK or SKIP: the sends are
   exactly the n topics of the slip, in order, and then one to egress.
   */
  lemma HappyPath(ev: Event, reports: seq<Option<Status>>, prefix: string, now: Time)
    requires AllPending(ev.slip) && Routable(ev)
    requires |reports| == |ev.slip|
    requires forall r | r in reports :: r.Some? && Finished(r.value)
    ensures HopOutcomes(ev, [None] + reports, prefix, now) == ExpectedFrom(ev, 0, prefix)
  {
    var (ev', out) := Hop(ev, None, prefix, now);
    assert FinishedUpTo(ev.slip, 0);
    FinishedUpToSearches(ev.slip, 0);
    ChosenKeepsStatuses(ev.slip, now);
    HopEffect(ev, None, prefix, now);
    assert FinishedUpTo(ev'.slip, 0);
    HappyTail(ev', 0, reports, prefix, now);
    ExpectedFromFrame(ev, ev', 0, prefix);
    assert ([None] + reports)[1..] == reports;
  }

  // ---------------------------------------------------------------- replans

  datatype Op =
    | CallNext(report: Option<Status>, publishes: bool, now: Time)
    | CallComplete(report: Option<Status>, publishes: bool, now: Time)
    | Redeliver
    | AttachRoute(route: Route)
    | ApplyRoute(completed: Status, now: Time)

  function Apply(ev: Event, op: Op, prefix: string): Event {
    match op
    case CallNext(report, publishes, now) => Next(ev, report, prefix, now, publishes).0
    case CallComplete(report, publishes, now) => Complete(ev, report, prefix, now, publishes).0
    case Redeliver => Delivered(ev)
    case AttachRoute(route) => ev.(route := Some(route))
    case ApplyRoute(completed, now) => Replan(ev, completed, now)
  }

  function Run(ev: Event, ops: seq<Op>, prefix: string): Event
    decreases |ops|
  {
    if ops == [] then ev else Run(Apply(ev, ops[0], prefix), ops[1..], prefix)
  }

  /** A run of hops, written out as operations. */
  function HopOps(reports: seq<Option<Status>>, now: Time): seq<Op>
    decreases |reports|
  {
    if reports == [] then [] else [Redeliver, CallNext(reports[0], true, now)] + HopOps(reports[1..], now)
  }

  lemma {:induction false} HopRunIsRun(ev: Event, reports: seq<Option<Status>>, prefix: string, now: Time)
    ensures HopRun(ev, reports, prefix, now) == Run(ev, HopOps(reports, now), prefix)
    decreases |reports|
  {
    if reports != [] {
      var rest := HopOps(reports[1..], now);
      var call := CallNext(reports[0], true, now);
      var ops := [Redeliver, call] + rest;
      assert ops[1..] == [call] + rest && ops[1..][1..] == rest;
      HopRunIsRun(Hop(ev, reports[0], prefix, now).0, reports[1..], prefix, now);
    }
  }

  // ---------------------------------------------------------------- shape over whole runs

  /** Every route that is waiting or gets attached has the shape. */
  predicate RoutesInShape(ev: Event, ops: seq<Op>) {
    && (ev.route.Some? ==> Shape(ev.route.value.slip))
    && (forall op | op in ops && op.AttachRoute? :: Shape(op.route.slip))
  }

  lemma ReportKeepsShape(slip: seq<Step>, report: Option<Status>, now: Time)
    requires Shape(slip)
    ensures Shape(Reported(slip, report, now))
  {
    HopKeepsShape(slip, report, now);
    ChosenKeepsStatuses(Reported(slip, report, now), now);
  }

  lemma ApplyKeepsShape(ev: Event, op: Op, prefix: string)
    requires Shape(ev.slip) && (ev.route.Some? ==> Shape(ev.route.value.slip))
    ensures Shape(Apply(ev, op, prefix).slip)
  {
    ApplyEffect(ev, op, prefix);
    if op.CallNext? || op.CallComplete? {
      ReportKeepsShape(ev.slip, op.report, op.now);
      HopKeepsShape(ev.slip, op.report, op.now);
    }
  }

  /** The shape survives every run: failed publishes, repeated calls, completions and replans included. */
  lemma {:induction false} RunKeepsShape(ev: Event, ops: seq<Op>, prefix: string)
    requires Shape(ev.slip) && RoutesInShape(ev, ops)
    ensures Shape(Run(ev, ops, prefix).slip)
    decreases |ops|
  {
    if ops != [] {
      assert ops[0] in ops && forall op | op in ops[1..] :: op in ops;
      ApplyKeepsShape(ev, ops[0], prefix);
      RunKeepsShape(Apply(ev, ops[0], prefix), ops[1..], prefix);
    }
  }

  lemma AllPendingHasShape(slip: seq<Step>)
    requires AllPending(slip)
    ensures Shape(slip)
  {
  }

  /** Where every plan starts out PENDING, every slip a run can reach is (OK or SKIP)*, ERROR?, PENDING*. */
  lemma PlansKeepShape(ev: Event, ops: seq<Op>, prefix: string)
    requires AllPending(ev.slip) && ev.route.None?
    requires forall op | op in ops && op.AttachRoute? :: AllPending(op.route.slip)
    ensures Shape(Run(ev, ops, prefix).slip)
  {
    AllPendingHasShape(ev.slip);
    forall op | op in ops && op.AttachRoute? ensures Shape(op.route.slip) {
      AllPendingHasShape(op.route.slip);
    }
    RunKeepsShape(ev, ops, prefix);
  }

  /** Every step the event has ever carried, oldest plan first. */
  function AllSteps(ev: Event): seq<Step> {
    ev.history + ev.slip
  }

  /** The position in AllSteps of the step this operation chooses for dispatch. */
  function ChosenBy(ev: Event, op: Op): Option<nat> {
    if op.CallNext? && !ev.nextMark then
      var slip := Reported(ev.slip, op.report, op.now);
      if FirstPending(slip) < |slip| then Some(|ev.history| + FirstPending(slip)) else None
    else None
  }

  function TimesChosen(ev: Event, ops: seq<Op>, prefix: string, p: nat): nat
    decreases |ops|
  {
    if ops == [] then 0
    else (if ChosenBy(ev, ops[0]) == Some(p) then 1 else 0) + TimesChosen(Apply(ev, ops[0], prefix), ops[1..], prefix, p)
  }

  /** attempt + 1, or 0 while the step has no attempt. */
  function Attempts(step: Step): int {
    if step.attempt.Some? then step.attempt.value + 1 else 0
  }

  predicate Fresh(route: Route) {
    forall s | s in route.slip :: s.attempt == None
  }

  predicate RoutesFresh(ev: Event, ops: seq<Op>) {
    && (ev.route.Some? ==> Fresh(ev.route.value))
    && (forall op | op in ops && op.AttachRoute? :: Fresh(op.route))
  }

  /** `after` still begins with the steps of `before`: same steps, same order. */
  predicate Carries(before: seq<Step>, after: seq<Step>) {
    && |before| <= |after|
    && forall p | 0 <= p < |before| :: after[p].id == before[p].id && after[p].nextTopic == before[p].nextTopic
  }

  lemma ReportedKeeps(slip: seq<Step>, report: Option<Status>, now: Time)
    ensures var slip' := Reported(slip, report, now);
            && Carries(slip, slip') && |slip'| == |slip|
            && forall j | 0 <= j < |slip| :: slip'[j].attempt == slip[j].attempt
  {
  }

  /** Every operation leaves the slip alone, reports into it, chooses from it or replaces it. */
  lemma ApplyEffect(ev: Event, op: Op, prefix: string)
    ensures op.CallNext? ==>
              var mid := Reported(ev.slip, op.report, op.now);
              Apply(ev, op, prefix).slip == if ev.nextMark then mid else Chosen(mid, op.now)
    ensures op.CallComplete? ==> Apply(ev, op, prefix).slip == Reported(ev.slip, op.report, op.now)
    ensures op.Redeliver? || op.AttachRoute? ==> Apply(ev, op, prefix).slip == ev.slip
    ensures !op.ApplyRoute? ==> Apply(ev, op, prefix).history == ev.history
    ensures !op.ApplyRoute? && !op.AttachRoute? ==> Apply(ev, op, prefix).route == ev.route
  {
  }

  lemma SlipStepConserves(ev: Event, op: Op, prefix: string)
    requires !op.ApplyRoute?
    ensures Apply(ev, op, prefix).history == ev.history
    ensures Carries(ev.slip, Apply(ev, op, prefix).slip)
    ensures |Apply(ev, op, prefix).slip| == |ev.slip|
    ensures forall j | 0 <= j < |ev.slip| ::
              Attempts(Apply(ev, op, prefix).slip[j]) ==
              Attempts(ev.slip[j]) + if ChosenBy(ev, op) == Some(|ev.history| + j) then 1 else 0
  {
    ApplyEffect(ev, op, prefix);
    if op.CallNext? || op.CallComplete? {
      ReportedKeeps(ev.slip, op.report, op.now);
    }
  }

  lemma ApplyConserves(ev: Event, op: Op, prefix: string)
    ensures ev.history <= Apply(ev, op, prefix).history
    ensures Carries(AllSteps(ev), AllSteps(Apply(ev, op, prefix)))
  {
    if op.ApplyRoute? {
      ReportedKeeps(ev.slip, Some(op.completed), op.now);
    } else {
      SlipStepConserves(ev, op, prefix);
    }
  }

  lemma ReplanCounts(ev: Event, completed: Status, now: Time, p: nat)
    requires ev.route.Some? && Fresh(ev.route.value)
    requires p < |AllSteps(Replan(ev, completed, now))|
    ensures Attempts(AllSteps(Replan(ev, completed, now))[p]) == if p < |AllSteps(ev)| then Attempts(AllSteps(ev)[p]) else 0
  {
    var mid := Reported(ev.slip, Some(completed), now);
    ReportedKeeps(ev.slip, Some(completed), now);
    var all := (ev.history + mid) + ev.route.value.slip;
    assert AllSteps(Replan(ev, completed, now)) == all;
    if p >= |AllSteps(ev)| {
      assert all[p] == ev.route.value.slip[p - |AllSteps(ev)|];
      assert all[p] in ev.route.value.slip;
    } else if p >= |ev.history| {
      assert all[p] == mid[p - |ev.history|];
    }
  }

  /** The attempts of a slip, seen from the positions of AllSteps. */
  lemma CountsInAllSteps(history: seq<Step>, slip: seq<Step>, slip': seq<Step>, chosen: Option<nat>, p: nat)
    requires |slip'| == |slip| && p < |history| + |slip|
    requires chosen.Some? ==> chosen.value >= |history|
    requires forall j | 0 <= j < |slip| ::
               Attempts(slip'[j]) == Attempts(slip[j]) + if chosen == Some(|history| + j) then 1 else 0
    ensures Attempts((history + slip')[p]) == Attempts((history + slip)[p]) + if chosen == Some(p) then 1 else 0
  {
    if p >= |history| {
      var j := p - |history|;
      assert (history + slip')[p] == slip'[j] && (history + slip)[p] == slip[j];
      assert |history| + j == p;
    }
  }

  lemma SlipStepCounts(ev: Event, op: Op, prefix: string, p: nat)
    requires !op.ApplyRoute? && p < |AllSteps(ev)|
    ensures |AllSteps(Apply(ev, op, prefix))| == |AllSteps(ev)|
    ensures Attempts(AllSteps(Apply(ev, op, prefix))[p]) ==
            Attempts(AllSteps(ev)[p]) + if ChosenBy(ev, op) == Some(p) then 1 else 0
  {
    SlipStepConserves(ev, op, prefix);
    CountsInAllSteps(ev.history, ev.slip, Apply(ev, op, prefix).slip, ChosenBy(ev, op), p);
  }

  lemma ApplyCounts(ev: Event, op: Op, prefix: string, p: nat)
    requires ev.route.Some? ==> Fresh(ev.route.value)
    requires p < |AllSteps(Apply(ev, op, prefix))|
    ensures Attempts(AllSteps(Apply(ev, op, prefix))[p]) ==
            (if p < |AllSteps(ev)| then Attempts(AllSteps(ev)[p]) else 0) + (if ChosenBy(ev, op) == Some(p) then 1 else 0)
  {
    if !op.ApplyRoute? {
      SlipStepCounts(ev, op, prefix, p);
    } else if ev.route.Some? {
      ReplanCounts(ev, op.completed, op.now, p);
    }
  }

  /** What one replan does, and that a second one without a new route does nothing. */
  lemma ReplanAppendsWholeSlip(ev: Event, first: Status, second: Status, now: Time)
    ensures Replan(Replan(ev, first, now), second, now) == Replan(ev, first, now)
    ensures ev.route.Some? ==>
              AllSteps(Replan(ev, first, now)) ==
              ev.history + UpdateCurrent(ev.slip, StatusOnly(first), now) + ev.route.value.slip
  {
  }

  /** The steps of the plans that replans install, in order. */
  function Planned(ev: Event, ops: seq<Op>, prefix: string): seq<Step>
    decreases |ops|
  {
    if ops == [] then []
    else
      (if ops[0].ApplyRoute? && ev.route.Some? then ev.route.value.slip else []) + Planned(Apply(ev, ops[0], prefix), ops[1..], prefix)
  }

  /** The same steps in the same order; only their status fields may differ. */
  predicate SameSteps(before: seq<Step>, after: seq<Step>) {
    |before| == |after| && Carries(before, after)
  }

  lemma ApplyPlans(ev: Event, op: Op, prefix: string)
    ensures SameSteps(AllSteps(ev) + (if op.ApplyRoute? && ev.route.Some? then ev.route.value.slip else []),
                      AllSteps(Apply(ev, op, prefix)))
  {
    ApplyConserves(ev, op, prefix);
    if op.ApplyRoute? {
      if ev.route.Some? {
        ReplanAppendsWholeSlip(ev, op.completed, op.completed, op.now);
        ReportedKeeps(ev.slip, Some(op.completed), op.now);
        var mid := UpdateCurrent(ev.slip, StatusOnly(op.completed), op.now);
        assert SameSteps(ev.history + ev.slip, ev.history + mid);
      }
    } else {
      SlipStepConserves(ev, op, prefix);
      assert AllSteps(ev) + [] == AllSteps(ev);
    }
  }

  lemma SameStepsExtend(a: seq<Step>, b: seq<Step>, c: seq<Step>, rest: seq<Step>)
    requires SameSteps(a, b) && SameSteps(b + rest, c)
    ensures SameSteps(a + rest, c)
  {
    forall p | 0 <= p < |c| ensures c[p].id == (a + rest)[p].id && c[p].nextTopic == (a + rest)[p].nextTopic {
      assert (b + rest)[p] == if p < |b| then b[p] else rest[p - |b|];
    }
  }

  /**
   Over any run history only grows at its end, and history with slip is exactly the steps the event
   began with followed by those of every plan installed: none lost, added or reordered.
   */
  lemma {:induction false} NoStepLost(ev: Event, ops: seq<Op>, prefix: string)
    ensures ev.history <= Run(ev, ops, prefix).history
    ensures SameSteps(AllSteps(ev) + Planned(ev, ops, prefix), AllSteps(Run(ev, ops, prefix)))
    decreases |ops|
  {
    if ops == [] {
      assert AllSteps(ev) + [] == AllSteps(ev);
    } else {
      var ev' := Apply(ev, ops[0], prefix);
      var plan := if ops[0].ApplyRoute? && ev.route.Some? then ev.route.value.slip else [];
      ApplyConserves(ev, ops[0], prefix);
      ApplyPlans(ev, ops[0], prefix);
      NoStepLost(ev', ops[1..], prefix);
      var rest := Planned(ev', ops[1..], prefix);
      SameStepsExtend(AllSteps(ev) + plan, AllSteps(ev'), AllSteps(Run(ev, ops, prefix)), rest);
      Assoc(AllSteps(ev), plan, rest);
    }
  }

  /**
   For every step the event carries at the end of any run, attempt + 1 has grown by exactly the
   number of times `next` chose that step, failed and subject-less publishes included.
   */
  lemma {:induction false} AttemptsCountChoices(ev: Event, ops: seq<Op>, prefix: string, p: nat)
    requires RoutesFresh(ev, ops)
    requires p < |AllSteps(Run(ev, ops, prefix))|
    ensures Attempts(AllSteps(Run(ev, ops, prefix))[p]) ==
            (if p < |AllSteps(ev)| then Attempts(AllSteps(ev)[p]) else 0) + TimesChosen(ev, ops, prefix, p)
    decreases |ops|
  {
    if ops != [] {
      var ev' := Apply(ev, ops[0], prefix);
      assert ops[0] in ops;
      AttemptsCountChoices(ev', ops[1..], prefix, p);
      if p < |AllSteps(ev')| {
        ApplyCounts(ev, ops[0], prefix, p);
      } else {
        ApplyConserves(ev, ops[0], prefix);
      }
    }
  }

  // ---------------------------------------------------------------- time stamps

  /** A reported step has an end time, a dispatched one a start time. */
  predicate Stamped(s: Step) {
    (s.status != PENDING ==> s.endedAt.Some?) && (s.attempt.Some? ==> s.startedAt.Some?)
  }

  predicate AllStamped(steps: seq<Step>) {
    forall i | 0 <= i < |steps| :: Stamped(steps[i])
  }

  /** Stamps that were set stay as they were. */
  predicate KeepsStamps(before: seq<Step>, after: seq<Step>) {
    && |before| <= |after|
    && forall i | 0 <= i < |before| ::
         && (before[i].startedAt.Some? ==> after[i].startedAt == before[i].startedAt)
         && (before[i].endedAt.Some? ==> after[i].endedAt == before[i].endedAt)
  }

  predicate RoutesStamped(ev: Event, ops: seq<Op>) {
    && (ev.route.Some? ==> AllStamped(ev.route.value.slip))
    && (forall op | op in ops && op.AttachRoute? :: AllStamped(op.route.slip))
  }

  lemma ReportedStamps(slip: seq<Step>, report: Option<Status>, now: Time)
    requires AllStamped(slip)
    ensures AllStamped(Reported(slip, report, now)) && KeepsStamps(slip, Reported(slip, report, now))
  {
  }

  lemma ChosenStamps(slip: seq<Step>, now: Time)
    requires AllStamped(slip)
    ensures AllStamped(Chosen(slip, now)) && KeepsStamps(slip, Chosen(slip, now))
  {
  }

  lemma ApplyStamps(ev: Event, op: Op, prefix: string)
    requires AllStamped(ev.slip) && AllStamped(ev.history)
    requires ev.route.Some? ==> AllStamped(ev.route.value.slip)
    ensures AllStamped(Apply(ev, op, prefix).slip) && AllStamped(Apply(ev, op, prefix).history)
    ensures KeepsStamps(AllSteps(ev), AllSteps(Apply(ev, op, prefix)))
  {
    if op.ApplyRoute? {
      ReportedStamps(ev.slip, Some(op.completed), op.now);
    } else {
      ApplyEffect(ev, op, prefix);
      if op.CallNext? || op.CallComplete? {
        ReportedStamps(ev.slip, op.report, op.now);
        ChosenStamps(Reported(ev.slip, op.report, op.now), op.now);
      }
    }
  }

  /** Over any run reported steps carry end times, dispatched ones start times, and no stamp is overwritten. */
  lemma {:induction false} RunStamps(ev: Event, ops: seq<Op>, prefix: string)
    requires AllStamped(ev.slip) && AllStamped(ev.history) && RoutesStamped(ev, ops)
    ensures AllStamped(AllSteps(Run(ev, ops, prefix)))
    ensures KeepsStamps(AllSteps(ev), AllSteps(Run(ev, ops, prefix)))
    decreases |ops|
  {
    if ops != [] {
      var ev' := Apply(ev, ops[0], prefix);
      assert ops[0] in ops;
      ApplyStamps(ev, ops[0], prefix);
      RunStamps(ev', ops[1..], prefix);
    }
  }

  // ---------------------------------------------------------------- sends per delivery

  /** What a call of `next` or `complete` did; other operations send nothing. */
  function OutcomeOf(ev: Event, op: Op, prefix: string): Option<Outcome> {
    match op
    case CallNext(report, publishes, now) => Some(Next(ev, report, prefix, now, publishes).1)
    case CallComplete(report, publishes, now) => Some(Complete(ev, report, prefix, now, publishes).1)
    case _ => None
  }

  predicate Sends(ev: Event, op: Op, prefix: string) {
    var out := OutcomeOf(ev, op, prefix);
    out.Some? && (out.value.SentToStep? || out.value.SentToEgress?)
  }

  function SendsByNext(ev: Event, ops: seq<Op>, prefix: string): nat
    decreases |ops|
  {
    if ops == [] then 0
    else (if ops[0].CallNext? && Sends(ev, ops[0], prefix) then 1 else 0) + SendsByNext(Apply(ev, ops[0], prefix), ops[1..], prefix)
  }

  function SendsByComplete(ev: Event, ops: seq<Op>, prefix: string): nat
    decreases |ops|
  {
    if ops == [] then 0
    else (if ops[0].CallComplete? && Sends(ev, ops[0], prefix) then 1 else 0) + SendsByComplete(Apply(ev, ops[0], prefix), ops[1..], prefix)
  }

  lemma SendTakesMark(ev: Event, op: Op, prefix: string)
    requires !op.Redeliver?
    ensures op.CallNext? && Sends(ev, op, prefix) ==> !ev.nextMark && Apply(ev, op, prefix).nextMark
    ensures op.CallComplete? && Sends(ev, op, prefix) ==> !ev.completeMark && Apply(ev, op, prefix).completeMark
    ensures ev.nextMark ==> Apply(ev, op, prefix).nextMark
    ensures ev.completeMark ==> Apply(ev, op, prefix).completeMark
  {
  }

  /** Until the event is delivered anew `next` sends at most once and `complete` sends at most once, replans or not. */
  lemma {:induction false} OneSendPerMark(ev: Event, ops: seq<Op>, prefix: string)
    requires forall op | op in ops :: !op.Redeliver?
    ensures SendsByNext(ev, ops, prefix) <= if ev.nextMark then 0 else 1
    ensures SendsByComplete(ev, ops, prefix) <= if ev.completeMark then 0 else 1
    decreases |ops|
  {
    if ops != [] {
      assert ops[0] in ops && forall op | op in ops[1..] :: op in ops;
      SendTakesMark(ev, ops[0], prefix);
      OneSendPerMark(Apply(ev, ops[0], prefix), ops[1..], prefix);
    }
  }

  /** All topics of the slip and of the routes to come are non-empty. */
  predicate AlwaysRoutable(ev: Event, ops: seq<Op>) {
    && Routable(ev)
    && (ev.route.Some? ==> TopicsSet(ev.route.value.slip))
    && (forall op | op in ops && op.AttachRoute? :: TopicsSet(op.route.slip))
  }

  predicate TopicsSet(slip: seq<Step>) {
    forall i | 0 <= i < |slip| :: slip[i].nextTopic != ""
  }

  predicate Publishes(op: Op, byNext: bool) {
    if byNext then op.CallNext? && op.publishes else op.CallComplete? && op.publishes
  }

  lemma NextSendsIff(ev: Event, op: Op, prefix: string)
    requires Routable(ev) && op.CallNext?
    ensures Sends(ev, op, prefix) <==> !ev.nextMark && op.publishes
    ensures Apply(ev, op, prefix).nextMark <==> ev.nextMark || op.publishes
  {
    var mid := Reported(ev.slip, op.report, op.now);
    ReportedKeeps(ev.slip, op.report, op.now);
    var i := FirstPending(mid);
    PrefixedOnce(prefix, ev.egress);
    if i < |mid| {
      assert ev.slip[i] in ev.slip;
      PrefixedOnce(prefix, mid[i].nextTopic);
    }
  }

  lemma SendsIff(ev: Event, op: Op, prefix: string)
    requires Routable(ev) && !op.Redeliver?
    ensures op.CallNext? ==> (Sends(ev, op, prefix) <==> !ev.nextMark && op.publishes)
    ensures op.CallComplete? ==> (Sends(ev, op, prefix) <==> !ev.completeMark && op.publishes)
    ensures Apply(ev, op, prefix).nextMark <==> ev.nextMark || Publishes(op, true)
    ensures Apply(ev, op, prefix).completeMark <==> ev.completeMark || Publishes(op, false)
  {
    PrefixedOnce(prefix, ev.egress);
    if op.CallNext? {
      NextSendsIff(ev, op, prefix);
    }
  }

  lemma ApplyKeepsTopics(ev: Event, op: Op, prefix: string)
    requires TopicsSet(ev.slip) && (ev.route.Some? ==> TopicsSet(ev.route.value.slip))
    ensures TopicsSet(Apply(ev, op, prefix).slip)
  {
    if !op.ApplyRoute? {
      SlipStepConserves(ev, op, prefix);
    }
  }

  lemma RoutableIff(ev: Event)
    ensures Routable(ev) <==> ev.egress != "" && TopicsSet(ev.slip)
  {
    assert forall i | 0 <= i < |ev.slip| :: ev.slip[i] in ev.slip;
  }

  lemma ApplyRoutable(ev: Event, ops: seq<Op>, prefix: string)
    requires ops != [] && AlwaysRoutable(ev, ops)
    ensures AlwaysRoutable(Apply(ev, ops[0], prefix), ops[1..])
  {
    var op, ev' := ops[0], Apply(ev, ops[0], prefix);
    assert op in ops && forall o | o in ops[1..] :: o in ops;
    RoutableIff(ev);
    RoutableIff(ev');
    ApplyKeepsTopics(ev, op, prefix);
    ApplyEffect(ev, op, prefix);
    assert ev'.egress == ev.egress;
  }

  /**
   Until the event is delivered anew and with topics set, `next` sends exactly once if its mark was
   clear and some call's publish succeeds, and so does `complete`, whatever the other one did: after
   a dispatch by `next` a completed event goes to egress as well.
   */
  lemma {:induction false} SendsExactly(ev: Event, ops: seq<Op>, prefix: string)
    requires AlwaysRoutable(ev, ops) && forall op | op in ops :: !op.Redeliver?
    ensures SendsByNext(ev, ops, prefix) ==
            if !ev.nextMark && (exists op | op in ops :: Publishes(op, true)) then 1 else 0
    ensures SendsByComplete(ev, ops, prefix) ==
            if !ev.completeMark && (exists op | op in ops :: Publishes(op, false)) then 1 else 0
    decreases |ops|
  {
    if ops != [] {
      assert ops[0] in ops && forall op | op in ops[1..] :: op in ops;
      assert forall op | op in ops :: op == ops[0] || op in ops[1..];
      SendsIff(ev, ops[0], prefix);
      ApplyRoutable(ev, ops, prefix);
      SendsExactly(Apply(ev, ops[0], prefix), ops[1..], prefix);
    }
  }

  /** The marks are separate: after `next` has sent, `complete` on the same event still sends to egress. */
  lemma CompleteAfterNextSends(ev: Event, prefix: string, now: Time)
    requires Routable(ev) && !ev.completeMark
    ensures var ev' := Next(ev, None, prefix, now, true).0;
            Complete(ev', None, prefix, now, true).1 == SentToEgress(Prefixed(prefix, ev.egress))
  {
    PrefixedOnce(prefix, ev.egress);
  }

  // ---------------------------------------------------------------- errors, notes and the stage over runs

  /** `next`, `complete` and replans report statuses only: a step's error and notes outlive them all. */
  predicate KeepsDetails(before: seq<Step>, after: seq<Step>) {
    && |before| <= |after|
    && forall p | 0 <= p < |before| :: after[p].error == before[p].error && after[p].notes == before[p].notes
  }

  lemma ReportedDetails(slip: seq<Step>, report: Option<Status>, now: Time)
    ensures |Reported(slip, report, now)| == |slip| && KeepsDetails(slip, Reported(slip, report, now))
  {
  }

  lemma ApplyDetails(ev: Event, op: Op, prefix: string)
    ensures KeepsDetails(AllSteps(ev), AllSteps(Apply(ev, op, prefix)))
  {
    ApplyEffect(ev, op, prefix);
    if op.ApplyRoute? {
      ReportedDetails(ev.slip, Some(op.completed), op.now);
    } else if op.CallNext? || op.CallComplete? {
      ReportedDetails(ev.slip, op.report, op.now);
      ChosenWrites(Reported(ev.slip, op.report, op.now), op.now);
    }
  }

  lemma {:induction false} RunKeepsDetails(ev: Event, ops: seq<Op>, prefix: string)
    ensures KeepsDetails(AllSteps(ev), AllSteps(Run(ev, ops, prefix)))
    decreases |ops|
  {
    if ops != [] {
      ApplyDetails(ev, ops[0], prefix);
      RunKeepsDetails(Apply(ev, ops[0], prefix), ops[1..], prefix);
    }
  }

  /** The stages of the routes that replans install, in order. */
  function PlannedStages(ev: Event, ops: seq<Op>, prefix: string): seq<Option<string>>
    decreases |ops|
  {
    if ops == [] then []
    else
      (if ops[0].ApplyRoute? && ev.route.Some? then [ev.route.value.stage] else []) + PlannedStages(Apply(ev, ops[0], prefix), ops[1..], prefix)
  }

  /** The last stage given, if any was. */
  function LastGiven(stages: seq<Option<string>>): Option<string> {
    if stages == [] then None
    else if stages[|stages| - 1].Some? then stages[|stages| - 1]
    else LastGiven(stages[..|stages| - 1])
  }

  lemma {:induction false} LastGivenCons(stage: Option<string>, rest: seq<Option<string>>)
    ensures LastGiven([stage] + rest) == if LastGiven(rest).Some? then LastGiven(rest) else stage
    decreases |rest|
  {
    var all := [stage] + rest;
    if rest == [] {
      assert all[..0] == [];
    } else {
      assert all[..|all| - 1] == [stage] + rest[..|rest| - 1];
      LastGivenCons(stage, rest[..|rest| - 1]);
    }
  }

  /**
   The stage after any run is the last one a replan gave; replans that give none keep the event's,
   and only when the event has none do they begin `contextualization`.
   */
  lemma {:induction false} StageAfterRun(ev: Event, ops: seq<Op>, prefix: string)
    ensures var stages := PlannedStages(ev, ops, prefix);
            Run(ev, ops, prefix).stage ==
            if LastGiven(stages).Some? then LastGiven(stages)
            else if ev.stage.Some? || stages == [] then ev.stage
            else Some("contextualization")
    decreases |ops|
  {
    if ops != [] {
      var ev' := Apply(ev, ops[0], prefix);
      StageAfterRun(ev', ops[1..], prefix);
      if ops[0].ApplyRoute? && ev.route.Some? {
        LastGivenCons(ev.route.value.stage, PlannedStages(ev', ops[1..], prefix));
      } else {
        ApplyKeepsStage(ev, ops[0], prefix);
        assert PlannedStages(ev, ops, prefix) == PlannedStages(ev', ops[1..], prefix);
      }
    }
  }

  lemma ApplyKeepsStage(ev: Event, op: Op, prefix: string)
    requires !op.ApplyRoute? || ev.route.None?
    ensures Apply(ev, op, prefix).stage == ev.stage
  {
  }

  /** Delivery forgets both marks: whatever was sent before, `next` and `complete` send again. */
  lemma DeliveredSendsAgain(ev: Event, report: Option<Status>, prefix: string, now: Time)
    requires Routable(ev)
    ensures var ev' := Delivered(ev);
            && SendsByNext(ev', [CallNext(report, true, now)], prefix) == 1
            && SendsByComplete(ev', [CallComplete(report, true, now)], prefix) == 1
            && ev' == ev.(nextMark := ev'.nextMark, completeMark := ev'.completeMark)
  {
    var ev' := Delivered(ev);
    var next, complete := CallNext(report, true, now), CallComplete(report, true, now);
    SendsIff(ev', next, prefix);
    SendsIff(ev', complete, prefix);
    assert [next][1..] == [] && [complete][1..] == [];
    assert SendsByNext(Apply(ev', next, prefix), [], prefix) == 0;
    assert SendsByComplete(Apply(ev', complete, prefix), [], prefix) == 0;
  }
}
