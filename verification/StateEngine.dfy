/** The versioned state store: compare-and-set commits, the mutation log, and prefix queries. */
module StateEngine {
  import opened Common
  import opened CodeUnits
  import opened KeyOrder

  type Time = nat
  type Value = string

  datatype Op = SET | DELETE | INCREMENT | PUSH

  datatype Mutation = Mutation(
    id: string,
    op: Op,
    key: Text,
    value: Value,
    actor: string,
    reason: string,
    expectedVersion: Option<int>,
    ttl: Option<int>,
    metadata: map<string, string>)

  datatype Snapshot = Snapshot(
    value: Value,
    updatedAt: Time,
    updatedBy: string,
    version: nat,
    ttl: Option<int>,
    metadata: map<string, string>)

  datatype Error = KeyNotAllowed | VersionMismatch(expected: int, found: nat)

  datatype Status = Accepted(resultingVersion: nat) | Rejected(error: Error)

  datatype LogEntry = LogEntry(mutation: Mutation, committedAt: Time, status: Status)

  datatype Store = Store(state: map<Text, Snapshot>, log: map<string, LogEntry>)

  const EMPTY: Store := Store(map[], map[])

  function Version(st: Store, key: Text): nat {
    if key in st.state then st.state[key].version else 0
  }

  /** A trailing `*` makes the pattern a prefix. */
  predicate Allows(pattern: Text, key: Text) {
    if pattern != [] && pattern[|pattern| - 1] == 42 then StartsWith(key, pattern[..|pattern| - 1]) else pattern == key
  }

  predicate IsAllowedKey(allowed: seq<Text>, key: Text) {
    exists i | 0 <= i < |allowed| :: Allows(allowed[i], key)
  }

  /** The snapshot a commit stores: `value` as it is, whatever the operation says. */
  function SnapshotOf(m: Mutation, version: nat, now: Time): Snapshot {
    Snapshot(m.value, now, m.actor, version,
             if m.ttl == Some(0) then None else m.ttl,
             map["source" := m.reason] + m.metadata)
  }

  function Logged(st: Store, m: Mutation, status: Status, now: Time): Store {
    st.(log := st.log[m.id := LogEntry(m, now, status)])
  }

  function Commit(st: Store, m: Mutation, now: Time): (Store, Status) {
    var current := Version(st, m.key);
    if m.expectedVersion.Some? && m.expectedVersion.value != current then
      (st, Rejected(VersionMismatch(m.expectedVersion.value, current)))
    else
      var status := Accepted(current + 1);
      (Logged(st.(state := st.state[m.key := SnapshotOf(m, current + 1, now)]), m, status, now), status)
  }

  function Handle(st: Store, m: Mutation, allowed: seq<Text>, now: Time): Store {
    if !IsAllowedKey(allowed, m.key) then Logged(st, m, Rejected(KeyNotAllowed), now)
    else
      var (st', status) := Commit(st, m, now);
      if status.Accepted? then st' else Logged(st', m, status, now)
  }

  function Run(st: Store, ms: seq<Mutation>, allowed: seq<Text>, now: Time): Store
    decreases |ms|
  {
    if ms == [] then st else Run(Handle(st, ms[0], allowed, now), ms[1..], allowed, now)
  }

  // ---------------------------------------------------------------- the store object

  class StateStore {
    var state: map<Text, Snapshot>
    var log: map<string, LogEntry>

    function View(): Store
      reads this
    {
      Store(state, log)
    }

    constructor ()
      ensures View() == EMPTY
    {
      state, log := map[], map[];
    }

    method CommitMutation(m: Mutation, now: Time) returns (status: Status)
      modifies this
      ensures (View(), status) == Commit(old(View()), m, now)
    {
      var currentVersion := 0;
      if m.key in state {
        currentVersion := state[m.key].version;
      }
      if m.expectedVersion.Some? && m.expectedVersion.value != currentVersion {
        return Rejected(VersionMismatch(m.expectedVersion.value, currentVersion));
      }
      var nextVersion := currentVersion + 1;
      state := state[m.key := SnapshotOf(m, nextVersion, now)];
      status := Accepted(nextVersion);
      LogMutation(m, status, now);
    }

    method LogMutation(m: Mutation, status: Status, now: Time)
      modifies this
      ensures View() == Logged(old(View()), m, status, now)
    {
      log := log[m.id := LogEntry(m, now, status)];
    }

    method HandleMutation(m: Mutation, allowed: seq<Text>, now: Time)
      modifies this
      ensures View() == Handle(old(View()), m, allowed, now)
    {
      if !IsAllowedKey(allowed, m.key) {
        LogMutation(m, Rejected(KeyNotAllowed), now);
        return;
      }
      var status := CommitMutation(m, now);
      if status.Rejected? {
        LogMutation(m, status, now);
      }
    }

    /** Document-store query: the range, then a `startsWith` filter on each record. */
    method GetStateByPrefixFiltered(prefix: Text, order: Order) returns (results: map<Text, Snapshot>)
      ensures results == Selected(state, prefix, order)
    {
      results := map[];
      var todo := InRange(state, prefix, order);
      while todo != {}
        invariant todo <= InRange(state, prefix, order)
        invariant results == map k | k in InRange(state, prefix, order) && k !in todo && StartsWith(k, prefix) :: state[k]
        decreases todo
      {
        var id :| id in todo;
        if StartsWith(id, prefix) {
          results := results[id := state[id]];
        }
        todo := todo - {id};
      }
      SelectedIsFilteredRange(state, prefix, order);
    }

    /** Firestore query: the range alone. Firestore orders document ids by their UTF-8 bytes. */
    method GetStateByPrefix(prefix: Text) returns (results: map<Text, Snapshot>)
      ensures results == Selected(state, prefix, Utf8Bytes)
    {
      results := map[];
      var todo := InRange(state, prefix, Utf8Bytes);
      while todo != {}
        invariant todo <= InRange(state, prefix, Utf8Bytes)
        invariant results == map k | k in InRange(state, prefix, Utf8Bytes) && k !in todo :: state[k]
        decreases todo
      {
        var id :| id in todo;
        results := results[id := state[id]];
        todo := todo - {id};
      }
      SelectedIsFilteredRange(state, prefix, Utf8Bytes);
    }
  }

  // ---------------------------------------------------------------- prefix queries

  const LAST: CodeUnit := 0xF8FF

  /** The keys of the half-open range [prefix, prefix + '\uf8ff'). */
  function InRange(state: map<Text, Snapshot>, prefix: Text, order: Order): set<Text> {
    set k | k in state && !Before(order, k, prefix) && Before(order, k, prefix + [LAST])
  }

  /** An extension of the prefix whose next character, if any, comes before U+F8FF. */
  predicate Extends(key: Text, prefix: Text, order: Order) {
    StartsWith(key, prefix) && (key == prefix || (key[|prefix|] < LAST && (order == Utf8Bytes ==> !Surrogate(key[|prefix|]))))
  }

  /** What both queries return, said without comparing keys. */
  function Selected(state: map<Text, Snapshot>, prefix: Text, order: Order): map<Text, Snapshot> {
    map k | k in state && Extends(k, prefix, order) :: state[k]
  }

  /** The range of a prefix holds exactly its extensions whose next character comes before U+F8FF. */
  lemma {:induction false} PrefixRangeIff(prefix: Text, key: Text, order: Order)
    ensures (!Before(order, key, prefix) && Before(order, key, prefix + [LAST])) <==> Extends(key, prefix, order)
  {
    if prefix == [] {
      assert prefix + [LAST] == [LAST];
      assert key != [] && key[0] == LAST ==> !Before(order, key[1..], []);
    } else if key != [] && key[0] == prefix[0] {
      PrefixRangeIff(prefix[1..], key[1..], order);
      assert (prefix + [LAST])[1..] == prefix[1..] + [LAST];
      assert key == [key[0]] + key[1..] && prefix == [prefix[0]] + prefix[1..];
      assert StartsWith(key, prefix) <==> StartsWith(key[1..], prefix[1..]);
    }
  }

  lemma SelectedIsFilteredRange(state: map<Text, Snapshot>, prefix: Text, order: Order)
    ensures InRange(state, prefix, order) == Selected(state, prefix, order).Keys
    ensures forall k | k in InRange(state, prefix, order) :: StartsWith(k, prefix)
  {
    forall k | k in state ensures k in InRange(state, prefix, order) <==> Extends(k, prefix, order) {
      PrefixRangeIff(prefix, k, order);
    }
  }

  /** The two stores answer alike unless a key goes on after the prefix with a character outside the basic plane. */
  lemma StoresAgreeIff(state: map<Text, Snapshot>, prefix: Text)
    ensures Selected(state, prefix, Units) == Selected(state, prefix, Utf8Bytes) <==>
            forall k | k in state && StartsWith(k, prefix) && k != prefix :: !Surrogate(k[|prefix|])
  {
    var a, b := Selected(state, prefix, Units), Selected(state, prefix, Utf8Bytes);
    forall k | k in state && StartsWith(k, prefix) && k != prefix && Surrogate(k[|prefix|]) ensures a != b {
      assert k in a && k !in b;
    }
  }

  /** A query returns every stored key that begins with the prefix exactly when none goes on at or after U+F8FF in the store's order. */
  lemma QueryCompleteIff(state: map<Text, Snapshot>, prefix: Text, order: Order)
    ensures (forall k | k in state && StartsWith(k, prefix) :: k in Selected(state, prefix, order)) <==>
            (forall k | k in state && StartsWith(k, prefix) && k != prefix :: Rank(order, k[|prefix|]) < 0xF8FF)
  {
    forall k | k in state && StartsWith(k, prefix) && k != prefix
      ensures k in Selected(state, prefix, order) <==> Rank(order, k[|prefix|]) < 0xF8FF
    {
    }
  }

  // ---------------------------------------------------------------- whole runs

  predicate IsAccepted(st: Store, id: string, key: Text) {
    id in st.log && st.log[id].status.Accepted? && st.log[id].mutation.key == key
  }

  function AcceptedIds(st: Store, key: Text): set<string> {
    set id | id in st.log && IsAccepted(st, id, key)
  }

  function Resulting(st: Store, id: string): nat
    requires id in st.log && st.log[id].status.Accepted?
  {
    st.log[id].status.resultingVersion
  }

  /** Each version is the number of accepted entries of its key. */
  ghost predicate Counted(st: Store) {
    forall key :: |AcceptedIds(st, key)| == Version(st, key)
  }

  /** Every version from 1 on was the result of an accepted entry. */
  ghost predicate Covered(st: Store) {
    forall key: Text, v | 1 <= v <= Version(st, key) :: HasVersion(st, key, v)
  }

  /** The snapshot holds what the accepted log entry says was written, by whom, when and how long for. */
  predicate Records(s: Snapshot, entry: LogEntry) {
    && s.value == entry.mutation.value
    && s.updatedBy == entry.mutation.actor
    && s.updatedAt == entry.committedAt
    && entry.status == Accepted(s.version)
    && s.ttl == (if entry.mutation.ttl == Some(0) then None else entry.mutation.ttl)
    && (forall k | k in entry.mutation.metadata :: k in s.metadata && s.metadata[k] == entry.mutation.metadata[k])
    && "source" in s.metadata && ("source" in entry.mutation.metadata || s.metadata["source"] == entry.mutation.reason)
    && (forall k | k in s.metadata :: k in entry.mutation.metadata || k == "source")
  }

  ghost predicate ResultsDiffer(st: Store) {
    && (forall id, key | IsAccepted(st, id, key) :: 1 <= Resulting(st, id) <= Version(st, key))
    && (forall i, j, key | IsAccepted(st, i, key) && IsAccepted(st, j, key) && Resulting(st, i) == Resulting(st, j) :: i == j)
  }

  ghost predicate LatestRecorded(st: Store) {
    forall id, key | IsAccepted(st, id, key) && Resulting(st, id) == Version(st, key) ::
      key in st.state && Records(st.state[key], st.log[id])
  }

  ghost predicate ExpectationsMet(st: Store) {
    forall id, key | IsAccepted(st, id, key) && st.log[id].mutation.expectedVersion.Some? ::
      st.log[id].mutation.expectedVersion.value == Resulting(st, id) - 1
  }

  /**
   Resulting versions are in range and differ, the latest entry explains the whole stored snapshot,
   and compare-and-set entries found the version they expected.
   */
  ghost predicate Explained(st: Store) {
    ResultsDiffer(st) && LatestRecorded(st) && ExpectationsMet(st)
  }

  predicate OnlyAllowed(st: Store, allowed: seq<Text>) {
    forall key | key in st.state :: IsAllowedKey(allowed, key)
  }

  ghost predicate Consistent(st: Store, allowed: seq<Text>) {
    OnlyAllowed(st, allowed) && Counted(st) && Covered(st) && Explained(st)
  }

  ghost predicate HasVersion(st: Store, key: Text, v: int) {
    exists id :: IsAccepted(st, id, key) && Resulting(st, id) == v
  }

  /** Logging this mutation replaces an entry that was accepted. */
  predicate Overwrites(st: Store, m: Mutation) {
    m.id in st.log && st.log[m.id].status.Accepted?
  }

  /** No mutation of the run overwrites an accepted entry when its turn comes. */
  predicate NoOverwrite(st: Store, ms: seq<Mutation>, allowed: seq<Text>, now: Time)
    decreases |ms|
  {
    ms == [] || (!Overwrites(st, ms[0]) && NoOverwrite(Handle(st, ms[0], allowed, now), ms[1..], allowed, now))
  }

  /** Mutation ids are new: none is in the log yet and none occurs twice. */
  predicate FreshIds(st: Store, ms: seq<Mutation>) {
    && (forall i | 0 <= i < |ms| :: ms[i].id !in st.log)
    && (forall i, j | 0 <= i < j < |ms| :: ms[i].id != ms[j].id)
  }

  /** What a log entry does to the accepted ids of a key. */
  lemma LoggedIds(st: Store, st': Store, m: Mutation, status: Status, now: Time, key: Text)
    requires st'.log == st.log[m.id := LogEntry(m, now, status)]
    ensures AcceptedIds(st', key) == (AcceptedIds(st, key) - {m.id}) + if status.Accepted? && key == m.key then {m.id} else {}
  {
    forall id ensures id in AcceptedIds(st', key) <==>
                      if id == m.id then status.Accepted? && key == m.key else id in AcceptedIds(st, key)
    {
      assert id != m.id ==> (id in st'.log <==> id in st.log);
    }
  }

  /** A rejection that overwrites no accepted entry leaves the accepted ones alone. */
  lemma RejectEffect(st: Store, m: Mutation, error: Error, now: Time)
    requires !Overwrites(st, m)
    ensures var st' := Logged(st, m, Rejected(error), now);
            && (forall id, key :: IsAccepted(st', id, key) <==> IsAccepted(st, id, key))
            && (forall id, key | IsAccepted(st, id, key) :: st'.log[id] == st.log[id])
            && st'.state == st.state
  {
  }

  lemma RejectCounts(st: Store, m: Mutation, error: Error, now: Time)
    requires !Overwrites(st, m) && Counted(st)
    ensures Counted(Logged(st, m, Rejected(error), now))
  {
    var st' := Logged(st, m, Rejected(error), now);
    forall key ensures |AcceptedIds(st', key)| == Version(st', key) {
      LoggedIds(st, st', m, Rejected(error), now, key);
      assert m.id !in AcceptedIds(st, key);
      assert AcceptedIds(st', key) == AcceptedIds(st, key);
    }
  }

  lemma RejectCovers(st: Store, m: Mutation, error: Error, now: Time)
    requires !Overwrites(st, m) && Covered(st)
    ensures Covered(Logged(st, m, Rejected(error), now))
  {
    var st' := Logged(st, m, Rejected(error), now);
    RejectEffect(st, m, error, now);
    forall key: Text, v | 1 <= v <= Version(st', key) ensures HasVersion(st', key, v) {
      assert HasVersion(st, key, v);
      var id :| IsAccepted(st, id, key) && Resulting(st, id) == v;
      assert IsAccepted(st', id, key);
    }
  }

  lemma RejectExplains(st: Store, m: Mutation, error: Error, now: Time)
    requires Explained(st)
    ensures Explained(Logged(st, m, Rejected(error), now))
  {
    var st' := Logged(st, m, Rejected(error), now);
    assert forall id, key :: IsAccepted(st', id, key) <==> IsAccepted(st, id, key) && id != m.id;
    assert forall id, key | IsAccepted(st', id, key) :: st'.log[id] == st.log[id];
  }

  lemma RejectKeeps(st: Store, m: Mutation, error: Error, allowed: seq<Text>, now: Time)
    requires Consistent(st, allowed) && !Overwrites(st, m)
    ensures Consistent(Logged(st, m, Rejected(error), now), allowed)
  {
    RejectCounts(st, m, error, now);
    RejectCovers(st, m, error, now);
    RejectExplains(st, m, error, now);
  }

  /** What an accepted commit does to the log and to versions; only its own entry may be replaced. */
  lemma AcceptEffect(st: Store, m: Mutation, now: Time)
    requires Commit(st, m, now).1.Accepted?
    ensures var st' := Commit(st, m, now).0;
            && (forall id, key :: IsAccepted(st', id, key) <==> if id == m.id then key == m.key else IsAccepted(st, id, key))
            && (forall id | id in st.log && id != m.id :: id in st'.log && st'.log[id] == st.log[id])
            && (forall key :: Version(st', key) == Version(st, key) + if key == m.key then 1 else 0)
            && st'.log[m.id] == LogEntry(m, now, Accepted(Version(st', m.key)))
  {
  }

  lemma AcceptCounts(st: Store, m: Mutation, now: Time)
    requires !Overwrites(st, m) && Commit(st, m, now).1.Accepted? && Counted(st)
    ensures Counted(Commit(st, m, now).0)
  {
    AcceptEffect(st, m, now);
    forall key ensures |AcceptedIds(Commit(st, m, now).0, key)| == Version(Commit(st, m, now).0, key) {
      AcceptIds(st, m, now, key);
    }
  }

  lemma AcceptIds(st: Store, m: Mutation, now: Time, key: Text)
    requires !Overwrites(st, m) && Commit(st, m, now).1.Accepted?
    ensures |AcceptedIds(Commit(st, m, now).0, key)| == |AcceptedIds(st, key)| + if key == m.key then 1 else 0
  {
    var (st', status) := Commit(st, m, now);
    LoggedIds(st, st', m, status, now, key);
    var before, after := AcceptedIds(st, key), AcceptedIds(st', key);
    assert m.id !in before;
    assert after == before + if key == m.key then {m.id} else {};
  }

  lemma AcceptCovers(st: Store, m: Mutation, now: Time)
    requires !Overwrites(st, m) && Commit(st, m, now).1.Accepted? && Covered(st)
    ensures Covered(Commit(st, m, now).0)
  {
    var st' := Commit(st, m, now).0;
    AcceptEffect(st, m, now);
    forall key: Text, v | 1 <= v <= Version(st', key) ensures HasVersion(st', key, v) {
      if v <= Version(st, key) {
        assert HasVersion(st, key, v);
        var id :| IsAccepted(st, id, key) && Resulting(st, id) == v;
        assert IsAccepted(st', id, key);
      } else {
        assert IsAccepted(st', m.id, key);
      }
    }
  }

  lemma AcceptResults(st: Store, m: Mutation, now: Time)
    requires Commit(st, m, now).1.Accepted? && ResultsDiffer(st)
    ensures ResultsDiffer(Commit(st, m, now).0)
  {
    AcceptEffect(st, m, now);
  }

  lemma AcceptRecorded(st: Store, m: Mutation, now: Time)
    requires Commit(st, m, now).1.Accepted? && ResultsDiffer(st) && LatestRecorded(st)
    ensures LatestRecorded(Commit(st, m, now).0)
  {
    var st' := Commit(st, m, now).0;
    AcceptEffect(st, m, now);
    forall id, key | IsAccepted(st', id, key) && Resulting(st', id) == Version(st', key)
      ensures key in st'.state && Records(st'.state[key], st'.log[id])
    {
      if id == m.id {
        assert st'.state[key] == SnapshotOf(m, Version(st', key), now);
      } else {
        assert IsAccepted(st, id, key) && Resulting(st, id) == Resulting(st', id);
        assert key != m.key && st'.state[key] == st.state[key];
      }
    }
  }

  lemma AcceptExpectations(st: Store, m: Mutation, now: Time)
    requires Commit(st, m, now).1.Accepted? && ExpectationsMet(st)
    ensures ExpectationsMet(Commit(st, m, now).0)
  {
    AcceptEffect(st, m, now);
  }

  lemma AcceptExplains(st: Store, m: Mutation, now: Time)
    requires Commit(st, m, now).1.Accepted? && Explained(st)
    ensures Explained(Commit(st, m, now).0)
  {
    AcceptResults(st, m, now);
    AcceptRecorded(st, m, now);
    AcceptExpectations(st, m, now);
  }

  lemma AcceptKeeps(st: Store, m: Mutation, allowed: seq<Text>, now: Time)
    requires Consistent(st, allowed) && !Overwrites(st, m) && IsAllowedKey(allowed, m.key)
    requires Commit(st, m, now).1.Accepted?
    ensures Consistent(Commit(st, m, now).0, allowed)
  {
    AcceptCounts(st, m, now);
    AcceptCovers(st, m, now);
    AcceptExplains(st, m, now);
  }

  // ---------------------------------------------------------------- what is accepted, and what that writes

  /** A pattern ending in a star allows exactly the keys that begin with what stands before it. */
  lemma StarAllowsIff(prefix: Text, key: Text)
    ensures IsAllowedKey([prefix + Ascii("*")], key) <==> prefix <= key
  {
    var pattern := prefix + Ascii("*");
    assert Ascii("*") == [42] && pattern[..|pattern| - 1] == prefix;
    assert [pattern][0] == pattern;
  }

  lemma EndsInStarIff(pattern: Text)
    ensures pattern != [] && pattern[|pattern| - 1] == 42 <==> exists prefix :: pattern == prefix + Ascii("*")
  {
    assert Ascii("*") == [42];
    if pattern != [] && pattern[|pattern| - 1] == 42 {
      assert pattern == pattern[..|pattern| - 1] + Ascii("*");
    }
  }

  /** Any other pattern allows itself alone. */
  lemma PlainAllowsIff(pattern: Text, key: Text)
    requires forall prefix :: pattern != prefix + Ascii("*")
    ensures IsAllowedKey([pattern], key) <==> key == pattern
  {
    EndsInStarIff(pattern);
    assert [pattern][0] == pattern;
  }

  /** A list allows what any of its patterns allows. */
  lemma AllowedByAny(some: seq<Text>, more: seq<Text>, key: Text)
    ensures IsAllowedKey(some + more, key) <==> IsAllowedKey(some, key) || IsAllowedKey(more, key)
    ensures !IsAllowedKey([], key)
  {
    forall i | 0 <= i < |some + more| ensures (some + more)[i] == if i < |some| then some[i] else more[i - |some|] {
    }
    if IsAllowedKey(some, key) {
      var i :| 0 <= i < |some| && Allows(some[i], key);
      assert (some + more)[i] == some[i];
    }
    if IsAllowedKey(more, key) {
      var i :| 0 <= i < |more| && Allows(more[i], key);
      assert (some + more)[|some| + i] == more[i];
    }
  }

  /** Exactly which mutations are accepted, what their entry and snapshot say, and why the others are rejected. */
  lemma AcceptedIff(st: Store, m: Mutation, allowed: seq<Text>, now: Time)
    ensures var st' := Handle(st, m, allowed, now);
            var entry := st'.log[m.id];
            && m.id in st'.log && entry.mutation == m && entry.committedAt == now
            && (entry.status.Accepted? <==>
                IsAllowedKey(allowed, m.key) && m.expectedVersion in {None, Some(Version(st, m.key))})
            && (entry.status.Accepted? ==>
                Version(st', m.key) == Version(st, m.key) + 1 && m.key in st'.state && Records(st'.state[m.key], entry))
            && (entry.status.Rejected? ==> st'.state == st.state)
            && (entry.status == Rejected(KeyNotAllowed) <==> !IsAllowedKey(allowed, m.key))
            && (entry.status.Rejected? && IsAllowedKey(allowed, m.key) ==>
                m.expectedVersion.Some? && entry.status.error == VersionMismatch(m.expectedVersion.value, Version(st, m.key)))
            && (forall k | k != m.key :: (k in st'.state <==> k in st.state) && (k in st.state ==> st'.state[k] == st.state[k]))
            && (forall id | id != m.id :: (id in st'.log <==> id in st.log) && (id in st.log ==> st'.log[id] == st.log[id]))
  {
  }

  /** A key under an allowed star can always be written unconditionally. */
  lemma WrittenUnderStar(st: Store, m: Mutation, prefix: Text, others: seq<Text>, now: Time)
    requires prefix <= m.key && m.expectedVersion == None
    ensures var st' := Handle(st, m, others + [prefix + Ascii("*")], now);
            && m.key in st'.state
            && st'.state[m.key].value == m.value && st'.state[m.key].updatedBy == m.actor
            && st'.state[m.key].updatedAt == now && st'.state[m.key].version == Version(st, m.key) + 1
            && (m.ttl != Some(0) ==> st'.state[m.key].ttl == m.ttl)
  {
    var allowed := others + [prefix + Ascii("*")];
    StarAllowsIff(prefix, m.key);
    AllowedByAny(others, [prefix + Ascii("*")], m.key);
    AcceptedIff(st, m, allowed, now);
  }

  // ---------------------------------------------------------------- when the log stays true

  /** What handling a mutation does, accepted or not. */
  lemma HandleCases(st: Store, m: Mutation, allowed: seq<Text>, now: Time) returns (status: Status)
    ensures status.Accepted? ==>
              IsAllowedKey(allowed, m.key) && Commit(st, m, now).1 == status && Handle(st, m, allowed, now) == Commit(st, m, now).0
    ensures status.Rejected? ==> Handle(st, m, allowed, now) == Logged(st, m, status, now) && CommitsNow(st, m, allowed, now) == 0
    ensures status.Accepted? ==> CommitsNow(st, m, allowed, now) == 1
    ensures Handle(st, m, allowed, now).log == st.log[m.id := LogEntry(m, now, status)]
  {
    status := if IsAllowedKey(allowed, m.key) then Commit(st, m, now).1 else Rejected(KeyNotAllowed);
  }

  /** Some accepted change of the key is missing from the log. */
  ghost predicate Short(st: Store, key: Text) {
    |AcceptedIds(st, key)| < Version(st, key)
  }

  /** Handling a mutation adds at most its own entry to the accepted ones of a key, and only with a new version. */
  lemma HandleAccepts(st: Store, m: Mutation, allowed: seq<Text>, now: Time, key: Text)
    ensures var st' := Handle(st, m, allowed, now);
            && (forall id | id in AcceptedIds(st', key) && id != m.id :: id in AcceptedIds(st, key))
            && Version(st, key) <= Version(st', key) <= Version(st, key) + 1
            && (Version(st', key) == Version(st, key) ==> m.id !in AcceptedIds(st', key))
            && (Version(st', key) > Version(st, key) ==> AcceptedIds(st', key) == AcceptedIds(st, key) + {m.id})
  {
    var status := HandleCases(st, m, allowed, now);
    LoggedIds(st, Handle(st, m, allowed, now), m, status, now, key);
  }

  /** A missing entry never comes back. */
  lemma HandleStaysShort(st: Store, m: Mutation, allowed: seq<Text>, now: Time, key: Text)
    requires Short(st, key)
    ensures Short(Handle(st, m, allowed, now), key)
  {
    var st' := Handle(st, m, allowed, now);
    HandleAccepts(st, m, allowed, now, key);
    if Version(st', key) == Version(st, key) {
      assert AcceptedIds(st', key) <= AcceptedIds(st, key);
      SubsetSize(AcceptedIds(st', key), AcceptedIds(st, key));
    }
  }

  lemma SubsetSize<T>(a: set<T>, b: set<T>)
    requires a <= b
    ensures |a| <= |b|
    ensures a != b ==> |a| < |b|
  {
    assert b == a + (b - a);
  }

  lemma {:induction false} RunStaysShort(st: Store, ms: seq<Mutation>, allowed: seq<Text>, now: Time, key: Text)
    requires Short(st, key)
    ensures Short(Run(st, ms, allowed, now), key)
    decreases |ms|
  {
    if ms != [] {
      HandleStaysShort(st, ms[0], allowed, now, key);
      RunStaysShort(Handle(st, ms[0], allowed, now), ms[1..], allowed, now, key);
    }
  }

  /** Overwriting an accepted entry loses it, whether the new mutation is accepted or rejected. */
  lemma OverwriteMakesShort(st: Store, m: Mutation, allowed: seq<Text>, now: Time)
    requires Counted(st) && Overwrites(st, m)
    ensures Short(Handle(st, m, allowed, now), st.log[m.id].mutation.key)
  {
    var key := st.log[m.id].mutation.key;
    var st' := Handle(st, m, allowed, now);
    assert m.id in AcceptedIds(st, key);
    HandleAccepts(st, m, allowed, now, key);
    if Version(st', key) == Version(st, key) {
      assert AcceptedIds(st', key) <= AcceptedIds(st, key) - {m.id};
      SubsetSize(AcceptedIds(st', key), AcceptedIds(st, key) - {m.id});
    } else {
      assert AcceptedIds(st', key) == AcceptedIds(st, key);
    }
  }

  /** One mutation keeps versions and log in agreement if and only if its id is not that of an accepted entry. */
  lemma HandleConsistentIff(st: Store, m: Mutation, allowed: seq<Text>, now: Time)
    requires Consistent(st, allowed)
    ensures Consistent(Handle(st, m, allowed, now), allowed) <==> !Overwrites(st, m)
  {
    if Overwrites(st, m) {
      OverwriteMakesShort(st, m, allowed, now);
    } else {
      var status := HandleCases(st, m, allowed, now);
      if status.Accepted? {
        AcceptKeeps(st, m, allowed, now);
      } else {
        RejectKeeps(st, m, status.error, allowed, now);
      }
    }
  }

  /** Whatever ids are reused: handling a mutation stores allowed keys only, and the surviving log explains the values. */
  lemma HandleExplained(st: Store, m: Mutation, allowed: seq<Text>, now: Time)
    requires Explained(st) && OnlyAllowed(st, allowed)
    ensures Explained(Handle(st, m, allowed, now)) && OnlyAllowed(Handle(st, m, allowed, now), allowed)
  {
    var status := HandleCases(st, m, allowed, now);
    if status.Accepted? {
      AcceptExplains(st, m, now);
    } else {
      RejectExplains(st, m, status.error, now);
    }
  }

  /**
   After every run only allowed keys are stored, the accepted entries of a key have different
   resulting versions up to the key's version, and the one of that version holds the stored value.
   */
  lemma {:induction false} RunExplained(st: Store, ms: seq<Mutation>, allowed: seq<Text>, now: Time)
    requires Explained(st) && OnlyAllowed(st, allowed)
    ensures Explained(Run(st, ms, allowed, now)) && OnlyAllowed(Run(st, ms, allowed, now), allowed)
    decreases |ms|
  {
    if ms != [] {
      HandleExplained(st, ms[0], allowed, now);
      RunExplained(Handle(st, ms[0], allowed, now), ms[1..], allowed, now);
    }
  }

  /**
   After any run each key's version is the number of its accepted entries and their resulting
   versions are exactly 1..version, if and only if no mutation on the way reused the id of an
   accepted entry.
   */
  lemma {:induction false} RunConsistentIff(st: Store, ms: seq<Mutation>, allowed: seq<Text>, now: Time)
    requires Consistent(st, allowed)
    ensures var st' := Run(st, ms, allowed, now); Counted(st') && Covered(st') <==> NoOverwrite(st, ms, allowed, now)
    ensures Consistent(Run(st, ms, allowed, now), allowed) <==> NoOverwrite(st, ms, allowed, now)
    decreases |ms|
  {
    RunExplained(st, ms, allowed, now);
    if ms != [] {
      var st' := Handle(st, ms[0], allowed, now);
      HandleConsistentIff(st, ms[0], allowed, now);
      if Overwrites(st, ms[0]) {
        var key := st.log[ms[0].id].mutation.key;
        OverwriteMakesShort(st, ms[0], allowed, now);
        RunStaysShort(st', ms[1..], allowed, now, key);
      } else {
        RunConsistentIff(st', ms[1..], allowed, now);
      }
    }
  }

  lemma HandleLogs(st: Store, m: Mutation, allowed: seq<Text>, now: Time)
    ensures Handle(st, m, allowed, now).log.Keys == st.log.Keys + {m.id}
  {
  }

  lemma {:induction false} FreshMeansNoOverwrite(st: Store, ms: seq<Mutation>, allowed: seq<Text>, now: Time)
    requires FreshIds(st, ms)
    ensures NoOverwrite(st, ms, allowed, now)
    decreases |ms|
  {
    if ms != [] {
      HandleLogs(st, ms[0], allowed, now);
      FreshMeansNoOverwrite(Handle(st, ms[0], allowed, now), ms[1..], allowed, now);
    }
  }

  /** In particular runs with distinct new ids keep versions, log and values in agreement. */
  lemma RunConsistent(st: Store, ms: seq<Mutation>, allowed: seq<Text>, now: Time)
    requires Consistent(st, allowed) && FreshIds(st, ms)
    ensures Consistent(Run(st, ms, allowed, now), allowed)
  {
    FreshMeansNoOverwrite(st, ms, allowed, now);
    RunConsistentIff(st, ms, allowed, now);
  }

  lemma EmptyConsistent(allowed: seq<Text>)
    ensures Consistent(EMPTY, allowed)
  {
    assert forall key :: AcceptedIds(EMPTY, key) == {};
  }

  /** From an empty store: versions, values and log agree after a run exactly when it overwrote no accepted entry. */
  lemma RunFromEmptyIff(ms: seq<Mutation>, allowed: seq<Text>, now: Time)
    ensures Consistent(Run(EMPTY, ms, allowed, now), allowed) <==> NoOverwrite(EMPTY, ms, allowed, now)
  {
    EmptyConsistent(allowed);
    RunConsistentIff(EMPTY, ms, allowed, now);
  }

  /** In the log of any run at most one accepted entry answers to a key and expected version. */
  lemma OneWinnerPerVersion(ms: seq<Mutation>, allowed: seq<Text>, now: Time, i: string, j: string, key: Text)
    requires var st := Run(EMPTY, ms, allowed, now);
             IsAccepted(st, i, key) && IsAccepted(st, j, key)
    requires var st := Run(EMPTY, ms, allowed, now);
             st.log[i].mutation.expectedVersion.Some? && st.log[i].mutation.expectedVersion == st.log[j].mutation.expectedVersion
    ensures i == j
  {
    RunExplained(EMPTY, ms, allowed, now);
  }

  /** The mutation at position `i` of the run was committed, whatever the log says later. */
  predicate CommitsAt(st: Store, ms: seq<Mutation>, allowed: seq<Text>, now: Time, i: nat)
    requires i < |ms|
  {
    CommitsNow(Run(st, ms[..i], allowed, now), ms[i], allowed, now) == 1
  }

  lemma {:induction false} RunSplit(st: Store, ms: seq<Mutation>, ns: seq<Mutation>, allowed: seq<Text>, now: Time)
    ensures Run(st, ms + ns, allowed, now) == Run(Run(st, ms, allowed, now), ns, allowed, now)
    decreases |ms|
  {
    if ms == [] {
      assert ms + ns == ns;
    } else {
      assert (ms + ns)[1..] == ms[1..] + ns;
      RunSplit(Handle(st, ms[0], allowed, now), ms[1..], ns, allowed, now);
    }
  }

  lemma {:induction false} VersionsGrow(st: Store, ms: seq<Mutation>, allowed: seq<Text>, now: Time, key: Text)
    ensures Version(st, key) <= Version(Run(st, ms, allowed, now), key)
    decreases |ms|
  {
    if ms != [] {
      HandleAccepts(st, ms[0], allowed, now, key);
      VersionsGrow(Handle(st, ms[0], allowed, now), ms[1..], allowed, now, key);
    }
  }

  lemma CommitRaisesVersion(st: Store, m: Mutation, allowed: seq<Text>, now: Time)
    requires CommitsNow(st, m, allowed, now) == 1
    ensures Version(Handle(st, m, allowed, now), m.key) == Version(st, m.key) + 1
    ensures m.expectedVersion.Some? ==> m.expectedVersion.value == Version(st, m.key)
  {
  }

  /** Compare-and-set proper: in any run at most one of the proposals for a key and expected version is committed. */
  lemma OneCommitPerVersion(st: Store, ms: seq<Mutation>, allowed: seq<Text>, now: Time, i: nat, j: nat)
    requires i < j < |ms|
    requires ms[i].key == ms[j].key && ms[i].expectedVersion.Some? && ms[i].expectedVersion == ms[j].expectedVersion
    ensures !(CommitsAt(st, ms, allowed, now, i) && CommitsAt(st, ms, allowed, now, j))
  {
    if CommitsAt(st, ms, allowed, now, i) && CommitsAt(st, ms, allowed, now, j) {
      var before := Run(st, ms[..i], allowed, now);
      var after := Handle(before, ms[i], allowed, now);
      CommitRaisesVersion(before, ms[i], allowed, now);
      assert ms[..j] == ms[..i] + ms[i..j] && ms[i..j] == [ms[i]] + ms[i + 1..j];
      RunSplit(st, ms[..i], ms[i..j], allowed, now);
      assert ms[i..j][0] == ms[i] && ms[i..j][1..] == ms[i + 1..j];
      CommitRaisesVersion(Run(st, ms[..j], allowed, now), ms[j], allowed, now);
      VersionsGrow(after, ms[i + 1..j], allowed, now, ms[i].key);
    }
  }

  // ---------------------------------------------------------------- what overwriting costs

  function AllAccepted(st: Store): set<string> {
    set id | id in st.log && st.log[id].status.Accepted?
  }

  function Commits(st: Store, ms: seq<Mutation>, allowed: seq<Text>, now: Time): nat
    decreases |ms|
  {
    if ms == [] then 0
    else CommitsNow(st, ms[0], allowed, now) + Commits(Handle(st, ms[0], allowed, now), ms[1..], allowed, now)
  }

  function Overwritten(st: Store, ms: seq<Mutation>, allowed: seq<Text>, now: Time): nat
    decreases |ms|
  {
    if ms == [] then 0
    else (if Overwrites(st, ms[0]) then 1 else 0) + Overwritten(Handle(st, ms[0], allowed, now), ms[1..], allowed, now)
  }

  function CommitsNow(st: Store, m: Mutation, allowed: seq<Text>, now: Time): nat {
    if IsAllowedKey(allowed, m.key) && Commit(st, m, now).1.Accepted? then 1 else 0
  }

  lemma LoggedAccepted(st: Store, st': Store, m: Mutation, status: Status, now: Time)
    requires st'.log == st.log[m.id := LogEntry(m, now, status)]
    ensures AllAccepted(st') == (AllAccepted(st) - {m.id}) + if status.Accepted? then {m.id} else {}
    ensures Overwrites(st, m) <==> m.id in AllAccepted(st)
  {
    forall id ensures id in AllAccepted(st') <==> if id == m.id then status.Accepted? else id in AllAccepted(st) {
      assert id != m.id ==> (id in st'.log <==> id in st.log);
    }
  }

  lemma ReplacedSize<T>(s: set<T>, x: T, keep: bool)
    ensures |(s - {x}) + if keep then {x} else {}| + (if x in s then 1 else 0) == |s| + if keep then 1 else 0
  {
    assert x in s ==> s == (s - {x}) + {x};
    assert x !in s ==> s == s - {x};
  }

  lemma CommitAccountedFor(st: Store, m: Mutation, allowed: seq<Text>, now: Time)
    ensures |AllAccepted(Handle(st, m, allowed, now))| + (if Overwrites(st, m) then 1 else 0) ==
            |AllAccepted(st)| + CommitsNow(st, m, allowed, now)
  {
    var status := HandleCases(st, m, allowed, now);
    LoggedAccepted(st, Handle(st, m, allowed, now), m, status, now);
    ReplacedSize(AllAccepted(st), m.id, status.Accepted?);
  }

  /** Over any run every commit is in the log as accepted, except one for each accepted entry overwritten. */
  lemma {:induction false} CommitsAccountedFor(st: Store, ms: seq<Mutation>, allowed: seq<Text>, now: Time)
    ensures |AllAccepted(Run(st, ms, allowed, now))| + Overwritten(st, ms, allowed, now) ==
            |AllAccepted(st)| + Commits(st, ms, allowed, now)
    decreases |ms|
  {
    if ms != [] {
      CommitAccountedFor(st, ms[0], allowed, now);
      CommitsAccountedFor(Handle(st, ms[0], allowed, now), ms[1..], allowed, now);
    }
  }

  /** Every mutation handled is in the log at the end, under its id, and nothing else is. */
  lemma {:induction false} RunLogsAll(st: Store, ms: seq<Mutation>, allowed: seq<Text>, now: Time)
    requires FreshIds(st, ms)
    ensures forall i | 0 <= i < |ms| ::
              ms[i].id in Run(st, ms, allowed, now).log && Run(st, ms, allowed, now).log[ms[i].id].mutation == ms[i]
    ensures forall id | id in st.log ::
              id in Run(st, ms, allowed, now).log && Run(st, ms, allowed, now).log[id] == st.log[id]
    ensures |Run(st, ms, allowed, now).log| == |st.log| + |ms|
    decreases |ms|
  {
    if ms != [] {
      var st' := Handle(st, ms[0], allowed, now);
      assert st'.log.Keys == st.log.Keys + {ms[0].id};
      assert |st'.log| == |st'.log.Keys| && |st.log| == |st.log.Keys|;
      RunLogsAll(st', ms[1..], allowed, now);
      forall i | 0 <= i < |ms|
        ensures ms[i].id in Run(st, ms, allowed, now).log && Run(st, ms, allowed, now).log[ms[i].id].mutation == ms[i]
      {
        assert i > 0 ==> ms[i] == ms[1..][i - 1];
      }
    }
  }

  lemma FreshIdsStep(st: Store, ms: seq<Mutation>, allowed: seq<Text>, now: Time)
    requires ms != []
    ensures FreshIds(st, ms) <==> ms[0].id !in st.log && FreshIds(Handle(st, ms[0], allowed, now), ms[1..])
  {
    HandleLogs(st, ms[0], allowed, now);
    assert forall i | 1 <= i < |ms| :: ms[i] == ms[1..][i - 1];
  }

  /** The log gains one entry per mutation exactly when all ids are new. */
  lemma {:induction false} LogGrowsByAllIff(st: Store, ms: seq<Mutation>, allowed: seq<Text>, now: Time)
    ensures |Run(st, ms, allowed, now).log| <= |st.log| + |ms|
    ensures |Run(st, ms, allowed, now).log| == |st.log| + |ms| <==> FreshIds(st, ms)
    decreases |ms|
  {
    if ms != [] {
      var st' := Handle(st, ms[0], allowed, now);
      HandleLogs(st, ms[0], allowed, now);
      assert |st'.log| == |st'.log.Keys| && |st.log| == |st.log.Keys|;
      assert ms[0].id in st.log ==> st'.log.Keys == st.log.Keys;
      LogGrowsByAllIff(st', ms[1..], allowed, now);
      FreshIdsStep(st, ms, allowed, now);
    }
  }

  lemma RunTwice(m: Mutation, allowed: seq<Text>, now: Time)
    ensures var st1 := Handle(EMPTY, m, allowed, now);
            Run(EMPTY, [m, m], allowed, now) == Handle(st1, m, allowed, now)
  {
    assert [m, m][1..] == [m] && [m][1..] == [];
    var st1 := Handle(EMPTY, m, allowed, now);
    assert Run(EMPTY, [m, m], allowed, now) == Run(st1, [m], allowed, now);
    assert Run(st1, [m], allowed, now) == Run(Handle(st1, m, allowed, now), [], allowed, now);
  }

  /** A redelivered unconditional write: two commits, one log entry. */
  lemma RedeliveryLosesEntry(m: Mutation, allowed: seq<Text>, now: Time)
    requires IsAllowedKey(allowed, m.key) && m.expectedVersion.None?
    ensures var st := Run(EMPTY, [m, m], allowed, now);
            Version(st, m.key) == 2 && AcceptedIds(st, m.key) == {m.id}
  {
    RunTwice(m, allowed, now);
  }

  /** A redelivered compare-and-set: its value is stored, yet the log says it was rejected. */
  lemma RedeliveryDisownsValue(m: Mutation, allowed: seq<Text>, now: Time)
    requires IsAllowedKey(allowed, m.key) && m.expectedVersion == Some(0)
    ensures var st := Run(EMPTY, [m, m], allowed, now);
            && Version(st, m.key) == 1 && st.state[m.key].value == m.value
            && m.id in st.log && st.log[m.id].status == Rejected(VersionMismatch(0, 1)) && AcceptedIds(st, m.key) == {}
  {
    RunTwice(m, allowed, now);
  }
}
