/** De-duplication of tool calls: the in-flight table, the completion table and the sweep. */
module CallTool {
  import opened Common

  type Key = string
  type CallerId = nat
  type ExecId = nat
  type Time = int

  const RETENTION: Time := 60000

  datatype Outcome = Resolved(text: string) | Rejected(error: string)

  /** One run of a tool; `outcome` is None while it is running. */
  datatype Execution = Execution(key: Key, outcome: Option<Outcome>)

  /** The execution a caller awaits, and the key it asked for. */
  datatype Join = Join(key: Key, exec: ExecId)

  /** Executions are numbered in the order in which they started; an id stands for its promise. */
  datatype State = State(
    inFlight: map<Key, ExecId>,
    completed: map<Key, Time>,
    execs: seq<Execution>,
    callers: map<CallerId, Join>)

  datatype Event =
    | Arrive(caller: CallerId, key: Key, permitted: bool)
    | Settle(exec: ExecId, outcome: Outcome, now: Time)
    | Sweep(now: Time)

  predicate Running(st: State, id: ExecId) {
    id < |st.execs| && st.execs[id].outcome.None?
  }

  predicate Enabled(st: State, e: Event) {
    match e
    case Arrive(caller, _, _) => caller !in st.callers
    case Settle(id, _, _) => Running(st, id)
    case Sweep(_) => true
  }

  function Expired(st: State, now: Time): set<Key> {
    set k | k in st.completed && now - st.completed[k] > RETENTION
  }

  function Step(st: State, e: Event): State
    requires Enabled(st, e)
  {
    match e
    case Arrive(caller, key, permitted) =>
      if key in st.inFlight then st.(callers := st.callers[caller := Join(key, st.inFlight[key])])
      else if !permitted then st
      else
        var id := |st.execs|;
        st.(inFlight := st.inFlight[key := id],
            execs := st.execs + [Execution(key, None)],
            callers := st.callers[caller := Join(key, id)])
    case Settle(id, outcome, now) =>
      var key := st.execs[id].key;
      st.(inFlight := st.inFlight - {key},
          completed := st.completed[key := now],
          execs := st.execs[id := Execution(key, Some(outcome))])
    case Sweep(now) =>
      var expired := Expired(st, now);
      st.(inFlight := st.inFlight - expired, completed := st.completed - expired)
  }

  predicate Executable(st: State, run: seq<Event>)
    decreases |run|
  {
    run == [] || (Enabled(st, run[0]) && Executable(Step(st, run[0]), run[1..]))
  }

  function Run(st: State, run: seq<Event>): State
    requires Executable(st, run)
    decreases |run|
  {
    if run == [] then st else Run(Step(st, run[0]), run[1..])
  }

  const INITIAL: State := State(map[], map[], [], map[])

  // ---------------------------------------------------------------- what every run keeps

  /** Table entries and awaited promises name executions of their own key; table entries are running. */
  ghost predicate Sound(st: State) {
    && (forall k | k in st.inFlight :: Running(st, st.inFlight[k]) && st.execs[st.inFlight[k]].key == k)
    && (forall c | c in st.callers :: st.callers[c].exec < |st.execs| && st.execs[st.callers[c].exec].key == st.callers[c].key)
  }

  /** `inFlight` holds exactly the running executions. */
  ghost predicate Exact(st: State) {
    && Sound(st)
    && forall id: ExecId | Running(st, id) :: st.execs[id].key in st.inFlight && st.inFlight[st.execs[id].key] == id
  }

  /** The sweep would remove the key of a running execution. */
  ghost predicate SweepsLiveKey(st: State, e: Event) {
    e.Sweep? && exists id: ExecId :: Running(st, id) && st.execs[id].key in Expired(st, e.now)
  }

  lemma StepKeepsSound(st: State, e: Event)
    requires Sound(st) && Enabled(st, e)
    ensures Sound(Step(st, e))
  {
  }

  /** One event keeps the table exact if and only if it is not a sweep of a live key. */
  lemma StepExactIff(st: State, e: Event)
    requires Exact(st) && Enabled(st, e)
    ensures Exact(Step(st, e)) <==> !SweepsLiveKey(st, e)
  {
    StepKeepsSound(st, e);
    var st' := Step(st, e);
    if e.Sweep? {
      assert forall id: ExecId :: Running(st', id) <==> Running(st, id);
    } else if e.Settle? {
      forall id: ExecId | Running(st', id) ensures st'.execs[id].key in st'.inFlight && st'.inFlight[st'.execs[id].key] == id {
        assert Running(st, id);
      }
    } else {
      forall id: ExecId | Running(st', id) ensures st'.execs[id].key in st'.inFlight && st'.inFlight[st'.execs[id].key] == id {
        assert id < |st.execs| ==> Running(st, id);
      }
    }
  }

  ghost predicate SafeRun(st: State, run: seq<Event>)
    requires Executable(st, run)
    decreases |run|
  {
    run == [] || (!SweepsLiveKey(st, run[0]) && SafeRun(Step(st, run[0]), run[1..]))
  }

  ghost predicate AlwaysExact(st: State, run: seq<Event>)
    requires Executable(st, run)
    decreases |run|
  {
    Exact(st) && (run == [] || AlwaysExact(Step(st, run[0]), run[1..]))
  }

  /**
   In an interleaving of arrivals, completions and sweeps the table is exact at every moment if and
   only if no sweep removes a key with a live execution.
   */
  lemma {:induction false} AlwaysExactIff(st: State, run: seq<Event>)
    requires Exact(st) && Executable(st, run)
    ensures AlwaysExact(st, run) <==> SafeRun(st, run)
    decreases |run|
  {
    if run != [] {
      StepExactIff(st, run[0]);
      if Exact(Step(st, run[0])) {
        AlwaysExactIff(Step(st, run[0]), run[1..]);
      }
    }
  }

  lemma InitiallyExact()
    ensures Exact(INITIAL)
  {
  }

  // ---------------------------------------------------------------- one execution per key

  /** A key has at most one running execution. */
  ghost predicate Unique(st: State) {
    forall i: ExecId, j: ExecId | Running(st, i) && Running(st, j) && st.execs[i].key == st.execs[j].key :: i == j
  }

  /** Some execution of the key is running, in the table or not. */
  ghost predicate Busy(st: State, key: Key) {
    exists id: ExecId :: Running(st, id) && st.execs[id].key == key
  }

  /** A permitted arrival that misses the table although its key is busy. */
  ghost predicate StartsSecond(st: State, e: Event) {
    e.Arrive? && e.permitted && e.key !in st.inFlight && Busy(st, e.key)
  }

  /** While the table is exact a key has at most one running execution. */
  lemma OneExecutionPerKey(st: State, i: ExecId, j: ExecId)
    requires Exact(st) && Running(st, i) && Running(st, j) && st.execs[i].key == st.execs[j].key
    ensures i == j
  {
  }

  /** One event lets a key run twice if and only if it is an arrival that starts a second execution. */
  lemma StepUniqueIff(st: State, e: Event)
    requires Sound(st) && Unique(st) && Enabled(st, e)
    ensures Unique(Step(st, e)) <==> !StartsSecond(st, e)
  {
    var st' := Step(st, e);
    if StartsSecond(st, e) {
      var id: ExecId :| Running(st, id) && st.execs[id].key == e.key;
      assert Running(st', id) && Running(st', |st.execs|);
    } else {
      forall i: ExecId, j: ExecId | Running(st', i) && Running(st', j) && st'.execs[i].key == st'.execs[j].key ensures i == j {
        assert i < |st.execs| ==> Running(st, i);
        assert j < |st.execs| ==> Running(st, j);
      }
    }
  }

  ghost predicate NoSecondStart(st: State, run: seq<Event>)
    requires Executable(st, run)
    decreases |run|
  {
    run == [] || (!StartsSecond(st, run[0]) && NoSecondStart(Step(st, run[0]), run[1..]))
  }

  ghost predicate AlwaysUnique(st: State, run: seq<Event>)
    requires Executable(st, run)
    decreases |run|
  {
    Unique(st) && (run == [] || AlwaysUnique(Step(st, run[0]), run[1..]))
  }

  /** Over an interleaving no key ever runs twice at once if and only if no arrival misses the table while its key is busy. */
  lemma {:induction false} AlwaysUniqueIff(st: State, run: seq<Event>)
    requires Sound(st) && Unique(st) && Executable(st, run)
    ensures AlwaysUnique(st, run) <==> NoSecondStart(st, run)
    decreases |run|
  {
    if run != [] {
      StepUniqueIff(st, run[0]);
      StepKeepsSound(st, run[0]);
      if Unique(Step(st, run[0])) {
        AlwaysUniqueIff(Step(st, run[0]), run[1..]);
      }
    }
  }

  /** A running execution the table has lost. */
  predicate Orphan(st: State, id: ExecId) {
    Running(st, id) && (st.execs[id].key !in st.inFlight || st.inFlight[st.execs[id].key] != id)
  }

  /** While no key runs twice, executions are lost to sweeps of their key and to nothing else, and stay lost until they settle. */
  lemma OrphanIff(st: State, e: Event, id: ExecId)
    requires Sound(st) && Unique(st) && Enabled(st, e) && !StartsSecond(st, e)
    ensures Orphan(Step(st, e), id) <==>
            && Running(Step(st, e), id)
            && (Orphan(st, id) || (Running(st, id) && e.Sweep? && st.execs[id].key in Expired(st, e.now)))
  {
    if Running(st, id) && e.Arrive? {
      assert e.permitted && e.key !in st.inFlight ==> st.execs[id].key != e.key;
    }
  }

  /** A permitted call of the key arrives before the execution settles. */
  predicate ArrivesBeforeSettled(run: seq<Event>, key: Key, id: ExecId, j: nat) {
    && j < |run| && run[j].Arrive? && run[j].permitted && run[j].key == key
    && forall l | 0 <= l < j :: !(run[l].Settle? && run[l].exec == id)
  }

  ghost predicate CalledAgain(run: seq<Event>, key: Key, id: ExecId) {
    exists j: nat :: ArrivesBeforeSettled(run, key, id, j)
  }

  /** Some sweep removes the key of a live execution, and the key is called again before that execution settles. */
  ghost predicate LostAndCalledAgain(st: State, run: seq<Event>)
    requires Executable(st, run)
    decreases |run|
  {
    run != [] &&
    ((run[0].Sweep? &&
      exists id: ExecId :: Running(st, id) && st.execs[id].key in Expired(st, run[0].now) && CalledAgain(run[1..], st.execs[id].key, id))
     || LostAndCalledAgain(Step(st, run[0]), run[1..]))
  }

  /** An execution lost already whose key is called again before it settles. */
  ghost predicate OrphanCalledAgain(st: State, run: seq<Event>) {
    exists id: ExecId :: Orphan(st, id) && CalledAgain(run, st.execs[id].key, id)
  }

  lemma CalledAgainStep(run: seq<Event>, key: Key, id: ExecId)
    requires run != []
    ensures CalledAgain(run, key, id) <==>
            || (run[0].Arrive? && run[0].permitted && run[0].key == key)
            || (!(run[0].Settle? && run[0].exec == id) && CalledAgain(run[1..], key, id))
  {
    if CalledAgain(run, key, id) {
      var j: nat :| ArrivesBeforeSettled(run, key, id, j);
      assert j > 0 ==> ArrivesBeforeSettled(run[1..], key, id, j - 1);
    }
    if run[0].Arrive? && run[0].permitted && run[0].key == key {
      assert ArrivesBeforeSettled(run, key, id, 0);
    }
    if !(run[0].Settle? && run[0].exec == id) && CalledAgain(run[1..], key, id) {
      var j: nat :| ArrivesBeforeSettled(run[1..], key, id, j);
      assert ArrivesBeforeSettled(run, key, id, j + 1);
    }
  }

  /** An arrival that starts a second execution is one for the key of a lost execution. */
  lemma StartsSecondIff(st: State, e: Event)
    requires Sound(st) && Unique(st)
    ensures StartsSecond(st, e) <==>
            e.Arrive? && e.permitted && exists id: ExecId :: Orphan(st, id) && st.execs[id].key == e.key
  {
    if StartsSecond(st, e) {
      var id: ExecId :| Running(st, id) && st.execs[id].key == e.key;
      assert Orphan(st, id);
    }
    if e.Arrive? && e.key in st.inFlight {
      assert Running(st, st.inFlight[e.key]);
    }
  }

  /** How the lost executions of the next state come about, with the calls that follow. */
  lemma OrphanCalledAgainStep(st: State, run: seq<Event>)
    requires Sound(st) && Unique(st) && run != [] && Enabled(st, run[0]) && !StartsSecond(st, run[0])
    ensures OrphanCalledAgain(Step(st, run[0]), run[1..]) <==>
            || OrphanCalledAgain(st, run)
            || (run[0].Sweep? &&
                exists id: ExecId :: Running(st, id) && st.execs[id].key in Expired(st, run[0].now) && CalledAgain(run[1..], st.execs[id].key, id))
  {
    var e, rest, st' := run[0], run[1..], Step(st, run[0]);
    StartsSecondIff(st, e);
    forall id: ExecId | Running(st, id) || Running(st', id)
      ensures Orphan(st', id) && CalledAgain(rest, st'.execs[id].key, id) <==>
              || (Orphan(st, id) && CalledAgain(run, st.execs[id].key, id))
              || (Running(st, id) && e.Sweep? && st.execs[id].key in Expired(st, e.now) && CalledAgain(rest, st.execs[id].key, id))
    {
      OrphanIff(st, e, id);
      if Running(st, id) {
        CalledAgainStep(run, st.execs[id].key, id);
      }
    }
  }

  lemma {:induction false} UniqueUnlessCalledAgain(st: State, run: seq<Event>)
    requires Sound(st) && Unique(st) && Executable(st, run)
    ensures AlwaysUnique(st, run) <==> !LostAndCalledAgain(st, run) && !OrphanCalledAgain(st, run)
    decreases |run|
  {
    if run != [] {
      var e, rest := run[0], run[1..];
      StepUniqueIff(st, e);
      StepKeepsSound(st, e);
      if StartsSecond(st, e) {
        StartsSecondIff(st, e);
        var id: ExecId :| Orphan(st, id) && st.execs[id].key == e.key;
        CalledAgainStep(run, e.key, id);
      } else {
        UniqueUnlessCalledAgain(Step(st, e), rest);
        OrphanCalledAgainStep(st, run);
      }
    }
  }

  /**
   From the start of the gateway: some key runs twice at once if and only if a sweep removes the key
   of a live execution and the key is called again before that execution settles.
   */
  lemma RunsTwiceIff(run: seq<Event>)
    requires Executable(INITIAL, run)
    ensures !AlwaysUnique(INITIAL, run) <==> LostAndCalledAgain(INITIAL, run)
  {
    UniqueUnlessCalledAgain(INITIAL, run);
  }

  lemma {:induction false} ExactMeansUnique(st: State, run: seq<Event>)
    requires Executable(st, run) && AlwaysExact(st, run)
    ensures AlwaysUnique(st, run)
    decreases |run|
  {
    if run != [] {
      ExactMeansUnique(Step(st, run[0]), run[1..]);
    }
  }

  /**
   The gateway from its start, in every interleaving: the table is exact throughout iff no sweep
   removes a live key, in that case no key runs twice, and in general no key runs twice iff no
   permitted arrival misses the table while an execution of its key is running.
   */
  lemma GatewayRuns(run: seq<Event>)
    requires Executable(INITIAL, run)
    ensures AlwaysExact(INITIAL, run) <==> SafeRun(INITIAL, run)
    ensures SafeRun(INITIAL, run) ==> AlwaysUnique(INITIAL, run)
    ensures AlwaysUnique(INITIAL, run) <==> NoSecondStart(INITIAL, run)
  {
    InitiallyExact();
    AlwaysExactIff(INITIAL, run);
    AlwaysUniqueIff(INITIAL, run);
    if SafeRun(INITIAL, run) {
      ExactMeansUnique(INITIAL, run);
    }
  }

  // ---------------------------------------------------------------- callers

  /** While the table is exact an arrival starts an execution exactly when none of its key is running. */
  lemma StartsIffIdle(st: State, caller: CallerId, key: Key)
    requires Exact(st) && caller !in st.callers
    ensures |Step(st, Arrive(caller, key, true)).execs| > |st.execs| <==> !Busy(st, key)
  {
    if key in st.inFlight {
      assert Running(st, st.inFlight[key]);
    }
  }

  /**
   Sweeps or not, a caller's promise is settled once, by an execution of the caller's own key that
   was running when the caller joined; no later event changes what the caller gets.
   */
  lemma {:induction false} JoinedOutcome(st: State, run: seq<Event>, caller: CallerId)
    requires Sound(st) && Executable(st, run) && caller in st.callers
    ensures var st' := Run(st, run);
            && caller in st'.callers && st'.callers[caller] == st.callers[caller]
            && |st.execs| <= |st'.execs|
            && st'.execs[st.callers[caller].exec].key == st.callers[caller].key
            && (st.execs[st.callers[caller].exec].outcome.Some? ==>
                st'.execs[st.callers[caller].exec] == st.execs[st.callers[caller].exec])
    decreases |run|
  {
    if run != [] {
      StepKeepsSound(st, run[0]);
      JoinedOutcome(Step(st, run[0]), run[1..], caller);
    }
  }

  lemma JoinsRunning(st: State, caller: CallerId, key: Key, permitted: bool)
    requires Sound(st) && caller !in st.callers
    ensures var st' := Step(st, Arrive(caller, key, permitted));
            caller in st'.callers ==> Running(st', st'.callers[caller].exec) && st'.callers[caller].key == key
  {
  }

  /** The permission test comes after the lookup: a refused caller still joins an execution that is in flight. */
  lemma JoinsIff(st: State, caller: CallerId, key: Key, permitted: bool)
    requires Sound(st) && caller !in st.callers
    ensures var st' := Step(st, Arrive(caller, key, permitted));
            && (caller in st'.callers <==> permitted || key in st.inFlight)
            && (!permitted ==> st'.execs == st.execs)
            && (!permitted && Exact(st) ==> (caller in st'.callers <==> Busy(st, key)))
  {
    if key in st.inFlight {
      assert Running(st, st.inFlight[key]);
    }
  }

  /** The caller joined at position `n` of the run: it arrived there and its execution was running then. */
  ghost predicate JoinedAt(st: State, run: seq<Event>, caller: CallerId, join: Join, n: nat) {
    && n < |run| && run[n].Arrive? && run[n].caller == caller && run[n].key == join.key
    && Executable(st, run[..n + 1])
    && var mid := Run(st, run[..n + 1]);
       caller in mid.callers && mid.callers[caller] == join && Running(mid, join.exec) && mid.execs[join.exec].key == join.key
  }

  /** Every caller awaiting a promise at the end joined a running execution of the key it asked for. */
  lemma {:induction false} EveryCallerJoinedRunning(st: State, run: seq<Event>, caller: CallerId) returns (n: nat)
    requires Sound(st) && Executable(st, run)
    requires caller !in st.callers && caller in Run(st, run).callers
    ensures JoinedAt(st, run, caller, Run(st, run).callers[caller], n)
    decreases |run|
  {
    var e, rest := run[0], run[1..];
    var st' := Step(st, e);
    StepKeepsSound(st, e);
    if caller in st'.callers {
      JoinsRunning(st, caller, e.key, e.permitted);
      JoinedOutcome(st', rest, caller);
      n := 0;
      assert run[..1] == [e] + [];
      RunCons(st, e, []);
    } else {
      var m := EveryCallerJoinedRunning(st', rest, caller);
      n := m + 1;
      assert run[..n + 1] == [e] + rest[..m + 1];
      RunCons(st, e, rest[..m + 1]);
    }
  }

  /** A key that completes, is called again and is then swept. */
  function SweptState(key: Key, outcome: Outcome): State {
    State(map[], map[], [Execution(key, Some(outcome)), Execution(key, None)], map[0 := Join(key, 0), 1 := Join(key, 1)])
  }

  lemma SweptStateReached(key: Key, outcome: Outcome, rest: seq<Event>)
    requires Executable(SweptState(key, outcome), rest)
    ensures var run := [Arrive(0, key, true)] + ([Settle(0, outcome, 0)] + ([Arrive(1, key, true)] + ([Sweep(60001)] + rest)));
            Executable(INITIAL, run) && Run(INITIAL, run) == Run(SweptState(key, outcome), rest)
  {
    var s1 := State(map[key := 0], map[], [Execution(key, None)], map[0 := Join(key, 0)]);
    var s2 := State(map[], map[key := 0], [Execution(key, Some(outcome))], map[0 := Join(key, 0)]);
    var s3 := Step(s2, Arrive(1, key, true));
    assert Step(INITIAL, Arrive(0, key, true)) == s1;
    assert Step(s1, Settle(0, outcome, 0)) == s2;
    assert key in Expired(s3, 60001);
    assert Step(s3, Sweep(60001)) == SweptState(key, outcome);
    RunCons(s3, Sweep(60001), rest);
    RunCons(s2, Arrive(1, key, true), [Sweep(60001)] + rest);
    RunCons(s1, Settle(0, outcome, 0), [Arrive(1, key, true)] + ([Sweep(60001)] + rest));
    RunCons(INITIAL, Arrive(0, key, true), [Settle(0, outcome, 0)] + ([Arrive(1, key, true)] + ([Sweep(60001)] + rest)));
  }

  /** Without the side condition it fails: a key completed, called again, swept and called once more runs twice at once. */
  lemma SweptKeyRunsTwice(key: Key, outcome: Outcome)
    ensures var run := [Arrive(0, key, true), Settle(0, outcome, 0), Arrive(1, key, true), Sweep(60001), Arrive(2, key, true)];
            Executable(INITIAL, run) &&
            var st := Run(INITIAL, run);
            Running(st, 1) && Running(st, 2) && st.execs[1].key == st.execs[2].key == key
  {
    var st, last := SweptState(key, outcome), Arrive(2, key, true);
    RunCons(st, last, []);
    assert [last] + [] == [last];
    assert Run(st, [last]) == Step(st, last);
    SweptStateReached(key, outcome, [last]);
    assert [Arrive(0, key, true)] + ([Settle(0, outcome, 0)] + ([Arrive(1, key, true)] + ([Sweep(60001)] + [last])))
        == [Arrive(0, key, true), Settle(0, outcome, 0), Arrive(1, key, true), Sweep(60001), last];
  }

  lemma RunCons(st: State, e: Event, rest: seq<Event>)
    requires Enabled(st, e)
    ensures Executable(st, [e] + rest) <==> Executable(Step(st, e), rest)
    ensures Executable(Step(st, e), rest) ==> Run(st, [e] + rest) == Run(Step(st, e), rest)
  {
    assert ([e] + rest)[1..] == rest;
  }

  // ---------------------------------------------------------------- what the tables remember

  /** The key each event settles, if it is the completion of an execution. */
  function SettledKeys(st: State, run: seq<Event>): (keys: seq<Option<Key>>)
    requires Executable(st, run)
    ensures |keys| == |run| && forall i | 0 <= i < |run| && keys[i].Some? :: run[i].Settle?
    decreases |run|
  {
    if run == [] then []
    else
      [if run[0].Settle? then Some(st.execs[run[0].exec].key) else None] + SettledKeys(Step(st, run[0]), run[1..])
  }

  /** No sweep from position `from` on comes more than a minute after `time`. */
  predicate Spared(run: seq<Event>, from: nat, time: Time) {
    forall j | from <= j < |run| && run[j].Sweep? :: run[j].now - time <= 60000
  }

  predicate NotAgain(keys: seq<Option<Key>>, from: nat, k: Key) {
    forall j | from <= j < |keys| :: keys[j] != Some(k)
  }

  /** Position `i` is the last completion of the key, and no later sweep found it older than a minute. */
  predicate RetainedFrom(keys: seq<Option<Key>>, run: seq<Event>, k: Key, i: nat) {
    && |keys| == |run| && i < |run| && keys[i] == Some(k) && run[i].Settle?
    && NotAgain(keys, i + 1, k)
    && Spared(run, i + 1, run[i].now)
  }

  /** What was there before the run is still there. */
  ghost predicate Survives(st: State, keys: seq<Option<Key>>, run: seq<Event>, k: Key) {
    k in st.completed && Some(k) !in keys && Spared(run, 0, st.completed[k])
  }

  lemma {:induction false} CompletedByTrace(st: State, run: seq<Event>, k: Key)
    requires Executable(st, run)
    ensures var keys := SettledKeys(st, run);
            var completed := Run(st, run).completed;
            && (k in completed <==> Survives(st, keys, run, k) || exists i: nat :: RetainedFrom(keys, run, k, i))
            && (Survives(st, keys, run, k) ==> k in completed && completed[k] == st.completed[k])
            && (forall i: nat :: RetainedFrom(keys, run, k, i) ==> k in completed && completed[k] == run[i].now)
    decreases |run|
  {
    if run != [] {
      var e, rest, st' := run[0], run[1..], Step(st, run[0]);
      var keys, later := SettledKeys(st, run), SettledKeys(st', rest);
      assert keys[1..] == later;
      CompletedByTrace(st', rest, k);
      TraceStep(keys, run, k);
      SurvivesStep(st, keys, run, k);
    }
  }

  /** Retention of the tail of a run, seen from the whole. */
  lemma TraceStep(keys: seq<Option<Key>>, run: seq<Event>, k: Key)
    requires run != [] && |keys| == |run|
    ensures forall i: nat :: RetainedFrom(keys[1..], run[1..], k, i) <==> RetainedFrom(keys, run, k, i + 1)
    ensures RetainedFrom(keys, run, k, 0) <==>
            keys[0] == Some(k) && run[0].Settle? && Some(k) !in keys[1..] && Spared(run[1..], 0, run[0].now)
  {
    forall i: nat, time: Time ensures Spared(run[1..], i, time) <==> Spared(run, i + 1, time) {
      assert forall j | i <= j < |run[1..]| :: run[1..][j] == run[j + 1];
      if Spared(run[1..], i, time) {
        forall j | i + 1 <= j < |run| && run[j].Sweep? ensures run[j].now - time <= 60000 {
          assert run[1..][j - 1] == run[j];
        }
      }
    }
    forall i: nat ensures NotAgain(keys[1..], i, k) <==> NotAgain(keys, i + 1, k) {
      assert forall j | i <= j < |keys[1..]| :: keys[1..][j] == keys[j + 1];
      if NotAgain(keys[1..], i, k) {
        forall j | i + 1 <= j < |keys| ensures keys[j] != Some(k) {
          assert keys[1..][j - 1] == keys[j];
        }
      }
    }
    assert NotAgain(keys[1..], 0, k) <==> Some(k) !in keys[1..];
  }

  lemma SurvivesStep(st: State, keys: seq<Option<Key>>, run: seq<Event>, k: Key)
    requires run != [] && Executable(st, run) && keys == SettledKeys(st, run)
    ensures Survives(Step(st, run[0]), keys[1..], run[1..], k) <==>
            Survives(st, keys, run, k) || RetainedFrom(keys, run, k, 0)
    ensures Survives(Step(st, run[0]), keys[1..], run[1..], k) ==>
              Step(st, run[0]).completed[k] == if keys[0] == Some(k) then run[0].now else st.completed[k]
  {
    var e, st' := run[0], Step(st, run[0]);
    TraceStep(keys, run, k);
    assert Some(k) in keys <==> keys[0] == Some(k) || Some(k) in keys[1..];
    if k in st.completed {
      assert Spared(run, 0, st.completed[k]) <==>
             (e.Sweep? ==> e.now - st.completed[k] <= 60000) && Spared(run[1..], 0, st.completed[k]) by {
        SparedStep(run, st.completed[k]);
      }
    }
  }

  lemma SparedStep(run: seq<Event>, time: Time)
    requires run != []
    ensures Spared(run, 0, time) <==> (run[0].Sweep? ==> run[0].now - time <= 60000) && Spared(run[1..], 0, time)
  {
    assert forall j | 0 <= j < |run[1..]| :: run[1..][j] == run[j + 1];
    forall j | 0 < j < |run| ensures run[1..][j - 1] == run[j] {
    }
  }

  /**
   From the start of the gateway: a key is remembered as completed exactly while no sweep has come
   more than 60 s after its last completion, and it is remembered with the time of that one.
   */
  lemma CompletedIff(run: seq<Event>, k: Key)
    requires Executable(INITIAL, run)
    ensures var keys := SettledKeys(INITIAL, run);
            var completed := Run(INITIAL, run).completed;
            && (k in completed <==> exists i: nat :: RetainedFrom(keys, run, k, i))
            && (forall i: nat :: RetainedFrom(keys, run, k, i) ==> k in completed && completed[k] == run[i].now)
  {
    CompletedByTrace(INITIAL, run, k);
  }

  /** A completion protects its key for a minute from every sweep, and no longer. */
  lemma SettledKeyExpiresIff(st: State, id: ExecId, outcome: Outcome, now: Time, later: Time)
    requires Running(st, id)
    ensures st.execs[id].key in Expired(Step(st, Settle(id, outcome, now)), later) <==> later > now + 60000
  {
  }

  /** An execution has the outcome it settled with: its callers get that and nothing else. */
  lemma {:induction false} OutcomeIff(st: State, run: seq<Event>, id: ExecId, outcome: Outcome)
    requires Executable(st, run) && !(id < |st.execs| && st.execs[id].outcome.Some?)
    ensures var st' := Run(st, run);
            id < |st'.execs| && st'.execs[id].outcome == Some(outcome) <==>
            exists i :: 0 <= i < |run| && run[i].Settle? && run[i].exec == id && run[i].outcome == outcome
    decreases |run|
  {
    if run != [] {
      var e, rest, st' := run[0], run[1..], Step(st, run[0]);
      if e.Settle? && e.exec == id {
        OutcomeStays(st', rest, id);
        forall i | 0 < i < |run| ensures !(run[i].Settle? && run[i].exec == id) {
          assert rest[i - 1] == run[i];
        }
      } else {
        OutcomeIff(st', rest, id, outcome);
        assert forall i | 0 <= i < |rest| :: rest[i] == run[i + 1];
        forall i | 0 < i < |run| ensures rest[i - 1] == run[i] {
        }
      }
    }
  }

  /** A settled execution stays as it is, and no later event settles it again. */
  lemma {:induction false} OutcomeStays(st: State, run: seq<Event>, id: ExecId)
    requires Executable(st, run) && id < |st.execs| && st.execs[id].outcome.Some?
    ensures id < |Run(st, run).execs| && Run(st, run).execs[id] == st.execs[id]
    ensures forall i | 0 <= i < |run| :: !(run[i].Settle? && run[i].exec == id)
    decreases |run|
  {
    if run != [] {
      OutcomeStays(Step(st, run[0]), run[1..], id);
      forall i | 0 <= i < |run| ensures !(run[i].Settle? && run[i].exec == id) {
        assert i > 0 ==> run[1..][i - 1] == run[i];
      }
    }
  }

  // ---------------------------------------------------------------- the Maps of the gateway

  function Elements(keys: seq<Key>): set<Key> {
    set k | k in keys
  }

  class ToolGateway {
    var inFlight: map<Key, ExecId>
    var completed: map<Key, Time>
    var execs: seq<Execution>
    var callers: map<CallerId, Join>

    function View(): State
      reads this
    {
      State(inFlight, completed, execs, callers)
    }

    constructor ()
      ensures View() == INITIAL
    {
      inFlight, completed, execs, callers := map[], map[], [], map[];
    }

    /** The synchronous part of the handler; false when the call is refused. */
    method OnCall(caller: CallerId, key: Key, permitted: bool) returns (joined: bool)
      requires caller !in callers
      modifies this
      ensures View() == Step(old(View()), Arrive(caller, key, permitted))
      ensures joined == (caller in callers)
    {
      if key in inFlight {
        callers := callers[caller := Join(key, inFlight[key])];
        return true;
      }
      if !permitted {
        return false;
      }
      var id := |execs|;
      execs := execs + [Execution(key, None)];
      inFlight := inFlight[key := id];
      callers := callers[caller := Join(key, id)];
      joined := true;
    }

    /** The execution's own `finally`. */
    method OnSettled(id: ExecId, outcome: Outcome, now: Time)
      requires Running(View(), id)
      modifies this
      ensures View() == Step(old(View()), Settle(id, outcome, now))
    {
      var key := execs[id].key;
      execs := execs[id := Execution(key, Some(outcome))];
      inFlight := inFlight - {key};
      completed := completed[key := now];
    }

    /** The 60 s timer: collect the expired keys, then delete each from both tables. */
    method OnSweep(now: Time)
      modifies this
      ensures View() == Step(old(View()), Sweep(now))
    {
      var expired: seq<Key> := [];
      var todo := completed.Keys;
      while todo != {}
        invariant todo <= completed.Keys
        invariant forall k :: k in expired <==> k in Expired(View(), now) && k !in todo
        invariant View() == old(View())
        decreases todo
      {
        var k :| k in todo;
        if now - completed[k] > RETENTION {
          expired := expired + [k];
        }
        todo := todo - {k};
      }
      for i := 0 to |expired|
        invariant execs == old(execs) && callers == old(callers)
        invariant completed == old(completed) - Elements(expired[..i])
        invariant inFlight == old(inFlight) - Elements(expired[..i])
      {
        completed := completed - {expired[i]};
        inFlight := inFlight - {expired[i]};
        assert Elements(expired[..i + 1]) == Elements(expired[..i]) + {expired[i]};
      }
      assert Elements(expired[..|expired|]) == Expired(old(View()), now);
    }
  }
}
