/** Distributed idempotency: key derivation, configuration merging, and the SET NX EX gate over time. */
module Idempotency {
  import opened Common
  import opened Strings

  /** Milliseconds; expiry is given in seconds. */
  type Time = int

  /** A custom key function, by what it can read of the configuration. */
  type KeyFn = (string, string, Option<string>, int) -> string

  // ---------------------------------------------------------------- keys

  function StripEnv(topic: string): string {
    if StartsWith(topic, "local.") then topic[6..]
    else if StartsWith(topic, "dev.") then topic[4..]
    else if StartsWith(topic, "staging.") then topic[8..]
    else if StartsWith(topic, "prod.") then topic[5..]
    else topic
  }

  function DotsToColons(s: string): (r: string)
    ensures |r| == |s|
    ensures forall i | 0 <= i < |s| :: r[i] == if s[i] == '.' then ':' else s[i]
  {
    if s == "" then "" else [if s[0] == '.' then ':' else s[0]] + DotsToColons(s[1..])
  }

  function GenerateKey(topic: string, correlationId: string, source: Option<string>): string {
    var key := "bitbrat:idempotency:" + DotsToColons(StripEnv(topic)) + ":" + correlationId;
    if source.Some? && source.value != "" then key + ":" + source.value else key
  }

  // ---------------------------------------------------------------- configuration

  /** A property of an object: missing, or there with a value that may be undefined (None). */
  datatype Property<+T> = Missing | Has(value: Option<T>)

  function Read<T>(p: Property<T>): Option<T> {
    if p.Has? then p.value else None
  }

  /** One property of `{...base, ...top}`: a property that is there wins, undefined or not. */
  function Over<T>(base: Property<T>, top: Property<T>): Property<T> {
    if top.Has? then top else base
  }

  /** The `idempotency` object of a message; None for a member that is absent or of the wrong type. */
  datatype RawHints = RawHints(ttlSeconds: Option<int>, source: Option<string>)

  datatype Subscription = Subscription(topic: string, enabled: bool, ttlSeconds: Option<int>, customKey: Option<KeyFn>)

  datatype Service = Service(name: string, enabled: bool, defaultTtl: Option<int>)

  /** The properties of a configuration that an object may or may not bring along. */
  datatype Partial = Partial(ttlSeconds: Property<int>, source: Property<string>, customKey: Property<KeyFn>)

  datatype Config = Config(topic: string, correlationId: string, rest: Partial)

  function ExtractHints(raw: Option<RawHints>): Partial {
    if raw.None? then Partial(Missing, Missing, Missing)
    else
      Partial(if raw.value.ttlSeconds.Some? && raw.value.ttlSeconds.value > 0 then Has(raw.value.ttlSeconds) else Missing,
              if raw.value.source.Some? && raw.value.source.value != "" then Has(raw.value.source) else Missing,
              Missing)
  }

  function FirstOf(a: Option<int>, b: Option<int>, c: Option<int>, default: int): int {
    if a.Some? then a.value else if b.Some? then b.value else if c.Some? then c.value else default
  }

  function MergeConfig(hints: Partial, sub: Subscription, defaultTtl: Option<int>): Partial {
    Partial(Has(Some(FirstOf(Read(hints.ttlSeconds), sub.ttlSeconds, defaultTtl, 300))),
            Has(Read(hints.source)),
            Has(sub.customKey))
  }

  /** `{...base, ...top}`. */
  function Spread(base: Partial, top: Partial): Partial {
    Partial(Over(base.ttlSeconds, top.ttlSeconds), Over(base.source, top.source), Over(base.customKey, top.customKey))
  }

  /** The object literal of `onMessage`: the service name first, then the merged configuration spread over it. */
  function MessageConfig(svc: Service, sub: Subscription, correlationId: string, raw: Option<RawHints>): Config {
    var base := Partial(Missing, Has(Some(svc.name)), Missing);
    Config(sub.topic, correlationId, Spread(base, MergeConfig(ExtractHints(raw), sub, svc.defaultTtl)))
  }

  function TtlOf(c: Config): int {
    if Read(c.rest.ttlSeconds).Some? then Read(c.rest.ttlSeconds).value else 300
  }

  function SourceOf(c: Config): Option<string> {
    Read(c.rest.source)
  }

  function KeyOf(c: Config): string {
    var custom := Read(c.rest.customKey);
    if custom.Some? then custom.value(c.topic, c.correlationId, SourceOf(c), TtlOf(c))
    else GenerateKey(c.topic, c.correlationId, SourceOf(c))
  }

  // ---------------------------------------------------------------- the check

  /** NotReady covers a null and a disconnected client; Failing is a client whose command errors. */
  datatype Health = NotReady | Failing | Ready

  datatype Result = Result(isDuplicate: bool, key: string, checkSucceeded: bool)

  /** Redis as a map from key to expiry time. */
  type Redis = map<string, Time>

  predicate Alive(redis: Redis, key: string, now: Time) {
    key in redis && now < redis[key]
  }

  /** SET NX EX: a non-positive EX is a command error, and any error fails open. */
  function Check(redis: Redis, c: Config, health: Health, now: Time): (Redis, Result) {
    var key := KeyOf(c);
    if health != Ready || TtlOf(c) <= 0 then (redis, Result(false, key, false))
    else if Alive(redis, key, now) then (redis, Result(true, key, true))
    else (redis[key := now + 1000 * TtlOf(c)], Result(false, key, true))
  }

  class RedisClient {
    var entries: Redis

    constructor ()
      ensures entries == map[]
    {
      entries := map[];
    }

    /** `set(key, value, {NX, EX})`; None is a rejected command. */
    method SetNxEx(key: string, ttlSeconds: int, health: Health, now: Time) returns (stored: Option<bool>)
      requires health != NotReady
      modifies this
      ensures stored.None? <==> health == Failing || ttlSeconds <= 0
      ensures stored.Some? ==> stored.value == !Alive(old(entries), key, now)
      ensures entries == if stored == Some(true) then old(entries)[key := now + 1000 * ttlSeconds] else old(entries)
    {
      if health == Failing || ttlSeconds <= 0 {
        return None;
      }
      if Alive(entries, key, now) {
        return Some(false);
      }
      entries := entries[key := now + 1000 * ttlSeconds];
      stored := Some(true);
    }

    method CheckIdempotency(c: Config, health: Health, now: Time) returns (result: Result)
      modifies this
      ensures (entries, result) == Check(old(entries), c, health, now)
    {
      var key := KeyOf(c);
      if health == NotReady {
        return Result(false, key, false);
      }
      var stored := SetNxEx(key, TtlOf(c), health, now);
      if stored.None? {
        return Result(false, key, false);
      }
      result := Result(!stored.value, key, true);
    }
  }

  // ---------------------------------------------------------------- the gate over a run

  /** One delivery at one service; all services share one Redis. */
  datatype Delivery = Delivery(service: Service, sub: Subscription, correlationId: string, hints: Option<RawHints>, health: Health, time: Time)

  function ConfigOf(d: Delivery): Config {
    MessageConfig(d.service, d.sub, d.correlationId, d.hints)
  }

  function Key(d: Delivery): string {
    KeyOf(ConfigOf(d))
  }

  function Expiry(d: Delivery): Time {
    d.time + 1000 * TtlOf(ConfigOf(d))
  }

  /** The gate consults Redis for this delivery and Redis can answer. */
  predicate Checked(d: Delivery) {
    (d.service.enabled || d.sub.enabled) && d.correlationId != "" && d.health == Ready && TtlOf(ConfigOf(d)) > 0
  }

  /** The gate of `onMessage`: the new Redis contents and whether the handler is skipped. */
  function Gate(redis: Redis, d: Delivery): (Redis, bool) {
    if (d.service.enabled || d.sub.enabled) && d.correlationId != "" then
      var (redis', result) := Check(redis, ConfigOf(d), d.health, d.time);
      (redis', result.isDuplicate)
    else (redis, false)
  }

  function After(ds: seq<Delivery>): Redis {
    if ds == [] then map[] else Gate(After(ds[..|ds| - 1]), ds[|ds| - 1]).0
  }

  predicate Skipped(ds: seq<Delivery>, i: nat)
    requires i < |ds|
  {
    Gate(After(ds[..i]), ds[i]).1
  }

  /** The delivery was checked and handled, so its key was recorded. */
  predicate Recorded(ds: seq<Delivery>, i: nat)
    requires i < |ds|
  {
    Checked(ds[i]) && !Skipped(ds, i)
  }

  predicate TimeOrdered(ds: seq<Delivery>) {
    forall i, j | 0 <= i < j < |ds| :: ds[i].time <= ds[j].time
  }

  /** Some delivery before position `n` recorded the key and its record is alive at `now`. */
  ghost predicate RecordedBefore(ds: seq<Delivery>, n: nat, key: string, now: Time)
    requires n <= |ds|
  {
    exists j | 0 <= j < n :: Recorded(ds, j) && Key(ds[j]) == key && now < Expiry(ds[j])
  }

  lemma GateEffect(redis: Redis, d: Delivery, key: string, now: Time)
    ensures Alive(Gate(redis, d).0, key, now) <==>
            if Checked(d) && !Gate(redis, d).1 && Key(d) == key then now < Expiry(d) else Alive(redis, key, now)
    ensures Gate(redis, d).1 <==> Checked(d) && Alive(redis, Key(d), d.time)
  {
  }

  /** Redis holds exactly the live records of the run so far. */
  lemma {:induction false} AliveIffRecorded(ds: seq<Delivery>, n: nat, key: string, now: Time)
    requires TimeOrdered(ds) && n <= |ds|
    requires forall i | 0 <= i < n :: ds[i].time <= now
    ensures Alive(After(ds[..n]), key, now) <==> RecordedBefore(ds, n, key, now)
  {
    if n > 0 {
      var m := n - 1;
      var d := ds[m];
      assert ds[..n][..m] == ds[..m];
      GateEffect(After(ds[..m]), d, key, now);
      AliveIffRecorded(ds, m, key, now);
      if Recorded(ds, m) && Key(d) == key {
        AliveIffRecorded(ds, m, key, d.time);
        assert !RecordedBefore(ds, m, key, d.time);
        assert !RecordedBefore(ds, m, key, now);
      }
      OneMoreRecord(ds, m, key, now);
    }
  }

  lemma OneMoreRecord(ds: seq<Delivery>, m: nat, key: string, now: Time)
    requires m < |ds|
    ensures RecordedBefore(ds, m + 1, key, now) <==>
            RecordedBefore(ds, m, key, now) || (Recorded(ds, m) && Key(ds[m]) == key && now < Expiry(ds[m]))
  {
  }

  /**
   In a time-ordered run a delivery is skipped exactly when it is checked and an earlier recorded
   delivery with the same key is younger than that record's own time to live.
   */
  lemma SkippedIff(ds: seq<Delivery>, i: nat)
    requires TimeOrdered(ds) && i < |ds|
    ensures Skipped(ds, i) <==> Checked(ds[i]) && RecordedBefore(ds, i, Key(ds[i]), ds[i].time)
  {
    AliveIffRecorded(ds, i, Key(ds[i]), ds[i].time);
    GateEffect(After(ds[..i]), ds[i], "", 0);
  }

  /** Two handled deliveries of one key that Redis checked are at least the first one's time to live apart. */
  lemma HandledApart(ds: seq<Delivery>, i: nat, j: nat)
    requires TimeOrdered(ds) && i < j < |ds|
    requires Recorded(ds, i) && Recorded(ds, j) && Key(ds[i]) == Key(ds[j])
    ensures ds[j].time >= Expiry(ds[i])
  {
    SkippedIff(ds, j);
  }

  // ---------------------------------------------------------------- key injectivity

  predicate ColonFree(s: string) {
    ':' !in s
  }

  /** The last colon splits off a colon-free segment. */
  lemma {:induction false} LastSegment(a: string, x: string, b: string, y: string)
    requires a + ":" + x == b + ":" + y && ColonFree(x) && ColonFree(y)
    ensures a == b && x == y
    decreases |x|
  {
    var s, t := a + ":" + x, b + ":" + y;
    assert s[|s| - 1] == if x == "" then ':' else x[|x| - 1];
    assert t[|t| - 1] == if y == "" then ':' else y[|y| - 1];
    assert x != "" ==> x[|x| - 1] in x;
    assert y != "" ==> y[|y| - 1] in y;
    if x == "" {
      assert s == a + ":" && t == b + ":" + y;
      assert y == "";
      assert t == b + ":";
      SplitAt(a, ":", b, ":");
    } else {
      var x', y' := x[..|x| - 1], y[..|y| - 1];
      assert s[..|s| - 1] == a + ":" + x' && t[..|t| - 1] == b + ":" + y';
      LastSegment(a, x', b, y');
      assert x == x' + [x[|x| - 1]] && y == y' + [y[|y| - 1]];
    }
  }

  lemma DotsToColonsInjective(s: string, t: string)
    requires ColonFree(s) && ColonFree(t) && DotsToColons(s) == DotsToColons(t)
    ensures s == t
  {
    forall i | 0 <= i < |s| ensures s[i] == t[i] {
      assert s[i] in s && t[i] in t;
      assert DotsToColons(s)[i] == DotsToColons(t)[i];
    }
  }

  lemma StripEnvColonFree(topic: string)
    requires ColonFree(topic)
    ensures ColonFree(StripEnv(topic))
  {
    assert forall c | c in StripEnv(topic) :: c in topic;
  }

  predicate HasSource(source: Option<string>) {
    source.Some? && source.value != ""
  }

  predicate KeyParts(topic: string, correlationId: string, source: Option<string>) {
    ColonFree(topic) && ColonFree(correlationId) && (HasSource(source) ==> ColonFree(source.value))
  }

  lemma TopicSegment(t: string, u: string)
    requires ColonFree(t) && ColonFree(u)
    requires "bitbrat:idempotency:" + DotsToColons(StripEnv(t)) == "bitbrat:idempotency:" + DotsToColons(StripEnv(u))
    ensures StripEnv(t) == StripEnv(u)
  {
    StripEnvColonFree(t);
    StripEnvColonFree(u);
    SplitAt("bitbrat:idempotency:", DotsToColons(StripEnv(t)), "bitbrat:idempotency:", DotsToColons(StripEnv(u)));
    DotsToColonsInjective(StripEnv(t), StripEnv(u));
  }

  /** Among colon-free parts with a source in both or in neither, a key names its parts. */
  lemma KeyIff(t: string, c: string, s: Option<string>, u: string, d: string, r: Option<string>)
    requires KeyParts(t, c, s) && KeyParts(u, d, r) && (HasSource(s) <==> HasSource(r))
    ensures GenerateKey(t, c, s) == GenerateKey(u, d, r) <==>
            StripEnv(t) == StripEnv(u) && c == d && (HasSource(s) ==> s.value == r.value)
  {
    if GenerateKey(t, c, s) == GenerateKey(u, d, r) {
      var a, b := "bitbrat:idempotency:" + DotsToColons(StripEnv(t)), "bitbrat:idempotency:" + DotsToColons(StripEnv(u));
      if HasSource(s) {
        LastSegment(a + ":" + c, s.value, b + ":" + d, r.value);
      }
      LastSegment(a, c, b, d);
      TopicSegment(t, u);
    }
  }

  /** A key made with a source equals one made without exactly when the source reads as the other's id and the rest as its topic. */
  lemma MixedKeyIff(t: string, c: string, s: string, u: string, d: string)
    requires s != "" && ColonFree(s) && ColonFree(d)
    ensures GenerateKey(t, c, Some(s)) == GenerateKey(u, d, None) <==>
            s == d && DotsToColons(StripEnv(t)) + ":" + c == DotsToColons(StripEnv(u))
  {
    var p, a, b := "bitbrat:idempotency:", DotsToColons(StripEnv(t)), DotsToColons(StripEnv(u));
    assert GenerateKey(t, c, Some(s)) == p + (a + ":" + c) + ":" + s;
    assert GenerateKey(u, d, None) == p + b + ":" + d;
    if GenerateKey(t, c, Some(s)) == GenerateKey(u, d, None) {
      LastSegment(p + (a + ":" + c), s, p + b, d);
      SplitAt(p, a + ":" + c, p, b);
    }
  }

  lemma JoinedDots(topic: string, id: string)
    requires '.' !in id
    ensures DotsToColons(topic + "." + id) == DotsToColons(topic) + ":" + id
  {
    var joined := topic + "." + id;
    forall i | 0 <= i < |joined| ensures DotsToColons(joined)[i] == (DotsToColons(topic) + ":" + id)[i] {
      assert i > |topic| ==> joined[i] == id[i - |topic| - 1] && joined[i] in id;
    }
  }

  /** With a source in only one of them different messages do share a key. */
  lemma MixedSourcesCollide(topic: string, correlationId: string, source: string)
    requires source != "" && StripEnv(topic) == topic && StripEnv(topic + "." + correlationId) == topic + "." + correlationId
    requires ColonFree(correlationId) && '.' !in correlationId
    ensures GenerateKey(topic, correlationId, Some(source)) == GenerateKey(topic + "." + correlationId, source, None)
  {
    var stem, dotted := "bitbrat:idempotency:", DotsToColons(topic);
    JoinedDots(topic, correlationId);
    Assoc4(stem, dotted, ":", correlationId);
    Assoc(dotted, ":", correlationId);
  }

  // ---------------------------------------------------------------- the gate in terms of messages

  /** The source a message asks for; an empty one asks for none. */
  function HintedSource(raw: Option<RawHints>): Option<string> {
    if raw.Some? && HasSource(raw.value.source) then raw.value.source else None
  }

  /** The spread replaces the service name by the hinted source, there or not. */
  lemma SpreadReplacesName(d: Delivery)
    ensures SourceOf(ConfigOf(d)) == HintedSource(d.hints)
  {
  }

  /** So no key, custom or derived, depends on the name of the service. */
  lemma ServiceNameIsIgnored(d: Delivery, name: string)
    ensures Key(d.(service := d.service.(name := name))) == Key(d)
  {
    SpreadReplacesName(d);
  }

  /** What a key is made of as the field for the service name suggests. */
  function IntendedKey(d: Delivery): string {
    GenerateKey(d.sub.topic, d.correlationId, if HintedSource(d.hints).Some? then HintedSource(d.hints) else Some(d.service.name))
  }

  lemma SameStem(t: string, c: string, s: Option<string>, r: Option<string>)
    ensures GenerateKey(t, c, s) == GenerateKey(t, c, r) <==> (HasSource(s) <==> HasSource(r)) && (HasSource(s) ==> s == r)
  {
    var stem := "bitbrat:idempotency:" + DotsToColons(StripEnv(t)) + ":" + c;
    if HasSource(s) && HasSource(r) {
      assert GenerateKey(t, c, s)[|stem + ":"|..] == s.value && GenerateKey(t, c, r)[|stem + ":"|..] == r.value;
    }
  }

  /** A derived key carries the service name exactly when the message itself hints that name as its source. */
  lemma CarriesNameIff(d: Delivery)
    requires d.sub.customKey.None? && d.service.name != ""
    ensures Key(d) == GenerateKey(d.sub.topic, d.correlationId, Some(d.service.name)) <==>
            HintedSource(d.hints) == Some(d.service.name)
  {
    SpreadReplacesName(d);
    SameStem(d.sub.topic, d.correlationId, HintedSource(d.hints), Some(d.service.name));
  }

  /** The key is the intended one, service name as the default source, exactly when the message hints a source. */
  lemma IntendedKeyIff(d: Delivery)
    requires d.sub.customKey.None? && d.service.name != ""
    ensures Key(d) == IntendedKey(d) <==> HintedSource(d.hints).Some?
  {
    SpreadReplacesName(d);
    SameStem(d.sub.topic, d.correlationId, HintedSource(d.hints), Some(d.service.name));
  }

  predicate DefaultKeyed(d: Delivery) {
    d.sub.customKey.None? && KeyParts(d.sub.topic, d.correlationId, HintedSource(d.hints))
  }

  /** Same stripped topic, correlation id and hinted source; the services may differ. */
  predicate SameMessage(a: Delivery, b: Delivery) {
    && StripEnv(a.sub.topic) == StripEnv(b.sub.topic)
    && a.correlationId == b.correlationId
    && HintedSource(a.hints) == HintedSource(b.hints)
  }

  /** Only `a` hints a source, and it reads as the id of `b` while its topic and id read as the topic of `b`. */
  predicate Clashes(a: Delivery, b: Delivery) {
    && HintedSource(a.hints) == Some(b.correlationId)
    && HintedSource(b.hints).None?
    && DotsToColons(StripEnv(a.sub.topic)) + ":" + a.correlationId == DotsToColons(StripEnv(b.sub.topic))
  }

  /** Two deliveries with derived keys have the same key exactly when they carry the same message or clash. */
  lemma SameKeyIff(a: Delivery, b: Delivery)
    requires DefaultKeyed(a) && DefaultKeyed(b)
    ensures Key(a) == Key(b) <==> SameMessage(a, b) || Clashes(a, b) || Clashes(b, a)
  {
    SpreadReplacesName(a);
    SpreadReplacesName(b);
    var s, r := HintedSource(a.hints), HintedSource(b.hints);
    if s.Some? <==> r.Some? {
      KeyIff(a.sub.topic, a.correlationId, s, b.sub.topic, b.correlationId, r);
    } else if s.Some? {
      MixedKeyIff(a.sub.topic, a.correlationId, s.value, b.sub.topic, b.correlationId);
    } else {
      MixedKeyIff(b.sub.topic, b.correlationId, r.value, a.sub.topic, a.correlationId);
    }
  }

  /** Some service recorded an equally keyed message before position `i`, less than that record's ttl ago. */
  ghost predicate SeenBefore(ds: seq<Delivery>, i: nat)
    requires i < |ds|
  {
    exists j | 0 <= j < i ::
      && Recorded(ds, j)
      && (SameMessage(ds[j], ds[i]) || Clashes(ds[j], ds[i]) || Clashes(ds[i], ds[j]))
      && ds[i].time < Expiry(ds[j])
  }

  /** The whole statement in terms of messages, over all services that share the Redis. */
  lemma SkippedIffSeen(ds: seq<Delivery>, i: nat)
    requires TimeOrdered(ds) && i < |ds|
    requires forall d | d in ds :: DefaultKeyed(d)
    ensures Skipped(ds, i) <==> Checked(ds[i]) && SeenBefore(ds, i)
  {
    SkippedIff(ds, i);
    forall j | 0 <= j < i
      ensures Key(ds[j]) == Key(ds[i]) <==> SameMessage(ds[j], ds[i]) || Clashes(ds[j], ds[i]) || Clashes(ds[i], ds[j])
    {
      assert DefaultKeyed(ds[j]) && DefaultKeyed(ds[i]);
      SameKeyIff(ds[j], ds[i]);
    }
  }

  ghost predicate SameMessageBefore(ds: seq<Delivery>, i: nat)
    requires i < |ds|
  {
    exists j | 0 <= j < i :: Recorded(ds, j) && SameMessage(ds[j], ds[i]) && ds[i].time < Expiry(ds[j])
  }

  /**
   With sources hinted by all messages or by none, a checked delivery is skipped exactly when some
   service recorded the same stripped topic, correlation id and source within its ttl.
   */
  lemma SkippedIffSameMessage(ds: seq<Delivery>, i: nat, hinted: bool)
    requires TimeOrdered(ds) && i < |ds|
    requires forall d | d in ds :: DefaultKeyed(d) && HintedSource(d.hints).Some? == hinted
    ensures Skipped(ds, i) <==> Checked(ds[i]) && SameMessageBefore(ds, i)
  {
    SkippedIffSeen(ds, i);
    forall j | 0 <= j < i ensures !Clashes(ds[j], ds[i]) && !Clashes(ds[i], ds[j]) {
      assert ds[j] in ds && ds[i] in ds;
    }
  }

  /** One service's record silences another: the second delivery of an id is skipped, at whatever service, until the first expires. */
  lemma OtherServiceSkipsIff(a: Delivery, b: Delivery)
    requires a.time <= b.time && Checked(a) && Checked(b) && DefaultKeyed(a) && DefaultKeyed(b)
    requires a.sub.topic == b.sub.topic && a.correlationId == b.correlationId
    ensures Skipped([a, b], 1) <==> HintedSource(a.hints) == HintedSource(b.hints) && b.time < Expiry(a)
  {
    var ds := [a, b];
    SkippedIff(ds, 0);
    assert !RecordedBefore(ds, 0, Key(a), a.time);
    SkippedIff(ds, 1);
    assert Recorded(ds, 0);
    SpreadReplacesName(a);
    SpreadReplacesName(b);
    SameStem(a.sub.topic, a.correlationId, HintedSource(a.hints), HintedSource(b.hints));
    assert RecordedBefore(ds, 1, Key(b), b.time) <==> Key(a) == Key(b) && b.time < Expiry(a);
  }

  // ---------------------------------------------------------------- keys and gates spelled out

  predicate EnvPrefix(env: string) {
    env == "local." || env == "dev." || env == "staging." || env == "prod."
  }

  /** One leading environment name is taken off a topic, and only one. */
  lemma StripEnvMeaning(env: string, topic: string)
    ensures EnvPrefix(env) ==> StripEnv(env + topic) == topic
    ensures !(exists e :: EnvPrefix(e) && StartsWith(topic, e)) ==> StripEnv(topic) == topic
  {
    if EnvPrefix(env) {
      DropPrefix(env, topic);
    }
    assert EnvPrefix("local.") && EnvPrefix("dev.") && EnvPrefix("staging.") && EnvPrefix("prod.");
  }

  lemma {:induction false} DottedParts(t: string)
    requires ColonFree(t)
    ensures Split(DotsToColons(t), ':') == Split(t, '.')
    decreases |t|
  {
    var i, r := IndexOf(t, '.'), DotsToColons(t);
    forall j | 0 <= j < |t| ensures r[j] == ':' <==> t[j] == '.' {
      assert t[j] in t;
    }
    IndexOfIs(r, ':', i);
    if i == |t| {
      assert r == t;
    } else {
      var rest := t[i + 1..];
      assert r[..i] == t[..i] && r[i + 1..] == DotsToColons(rest) by {
        assert |DotsToColons(rest)| == |r[i + 1..]|;
        assert forall j | 0 <= j < |rest| :: rest[j] == t[i + 1 + j];
      }
      assert forall c | c in rest :: c in t;
      DottedParts(rest);
    }
  }

  lemma TwoParts(a: string, b: string, rest: string)
    requires ColonFree(a) && ColonFree(b)
    ensures Split(a + [':'] + (b + [':'] + rest), ':') == [a, b] + Split(rest, ':')
  {
    SplitFree(a, ':');
    SplitFree(b, ':');
    SplitBetween(b, ':', rest);
    SplitBetween(a, ':', b + [':'] + rest);
    Assoc([a], [b], Split(rest, ':'));
  }

  lemma StemText(a: string, b: string)
    requires a == "bitbrat" && b == "idempotency"
    ensures a + [':'] + (b + [':']) == "bitbrat:idempotency:"
  {
  }

  lemma StemSegments(topic: string)
    ensures Split("bitbrat:idempotency:" + topic, ':') == ["bitbrat", "idempotency"] + Split(topic, ':')
  {
    StemText("bitbrat", "idempotency");
    StemParts("bitbrat", "idempotency", topic);
  }

  lemma StemParts(a: string, b: string, rest: string)
    requires ColonFree(a) && ColonFree(b)
    ensures Split(a + [':'] + (b + [':']) + rest, ':') == [a, b] + Split(rest, ':')
  {
    TwoParts(a, b, rest);
    Assoc(a + [':'], b + [':'], rest);
  }

  lemma LastPart(stem: string, part: string)
    requires ColonFree(part)
    ensures Split(stem + ":" + part, ':') == Split(stem, ':') + [part]
  {
    SplitFree(part, ':');
    SplitBetween(stem, ':', part);
  }

  /**
   A key is its segments joined by colons: the fixed name, the dotted parts of the stripped topic, the
   id, and the source when there is one.
   */
  lemma KeySegments(t: string, c: string, s: Option<string>)
    requires KeyParts(t, c, s)
    ensures Split(GenerateKey(t, c, s), ':') ==
            ["bitbrat", "idempotency"] + Split(StripEnv(t), '.') + [c] + if HasSource(s) then [s.value] else []
  {
    var stem := "bitbrat:idempotency:" + DotsToColons(StripEnv(t));
    StripEnvColonFree(t);
    DottedParts(StripEnv(t));
    StemSegments(DotsToColons(StripEnv(t)));
    LastPart(stem, c);
    if HasSource(s) {
      LastPart(stem + ":" + c, s.value);
    }
  }

  /** Whose time to live counts: a positive hint, else the subscription's, else the service's, else five minutes. */
  lemma TtlPrecedence(d: Delivery)
    ensures var ttl := TtlOf(ConfigOf(d));
            var hint := if d.hints.Some? then d.hints.value.ttlSeconds else None;
            && (hint.Some? && hint.value > 0 ==> Some(ttl) == hint)
            && (hint.None? || hint.value <= 0 ==>
                && (d.sub.ttlSeconds.Some? ==> Some(ttl) == d.sub.ttlSeconds)
                && (d.sub.ttlSeconds.None? && d.service.defaultTtl.Some? ==> Some(ttl) == d.service.defaultTtl)
                && (d.sub.ttlSeconds.None? && d.service.defaultTtl.None? ==> ttl == 5 * 60))
  {
  }

  /** A delivery is handled, and leaves no record, when nobody switched the check on, it has no id, or Redis cannot answer. */
  lemma UncheckedIsHandled(redis: Redis, d: Delivery)
    requires (!d.service.enabled && !d.sub.enabled) || d.correlationId == "" || d.health == NotReady || d.health == Failing
    ensures Gate(redis, d) == (redis, false)
  {
  }

  /** Otherwise, with a positive ttl, it is skipped or recorded until its ttl is over; either switch will do. */
  lemma CheckedIsRecorded(redis: Redis, d: Delivery)
    requires (d.service.enabled || d.sub.enabled) && d.correlationId != "" && d.health == Ready && TtlOf(ConfigOf(d)) > 0
    ensures var (redis', skipped) := Gate(redis, d);
            && (skipped <==> Key(d) in redis && d.time < redis[Key(d)])
            && (skipped ==> redis' == redis)
            && (!skipped ==> redis' == redis[Key(d) := d.time + 1000 * TtlOf(ConfigOf(d))])
  {
  }

  /** The same message redelivered to a service that has recorded it is skipped for exactly its ttl, in seconds. */
  lemma RedeliverySkippedIff(d: Delivery, later: Time, ttl: int)
    requires d.service.enabled && d.correlationId != "" && d.health == Ready && DefaultKeyed(d)
    requires d.hints.Some? && d.hints.value.ttlSeconds == Some(ttl) && ttl > 0 && d.time <= later
    ensures Skipped([d, d.(time := later)], 1) <==> later < d.time + 1000 * ttl
  {
    OtherServiceSkipsIff(d, d.(time := later));
  }

  /** What a check tells its caller. */
  lemma CheckTells(redis: Redis, c: Config, health: Health, now: Time)
    ensures var result := Check(redis, c, health, now).1;
            && result.key == KeyOf(c)
            && (result.checkSucceeded <==> health == Ready && TtlOf(c) > 0)
            && (result.isDuplicate <==> result.checkSucceeded && KeyOf(c) in redis && now < redis[KeyOf(c)])
  {
  }

  /** A subscription's own key function decides alone, from the topic, the id, the hinted source and the ttl. */
  lemma CustomKeyDecides(d: Delivery)
    requires d.sub.customKey.Some?
    ensures Key(d) == d.sub.customKey.value(d.sub.topic, d.correlationId, HintedSource(d.hints), TtlOf(ConfigOf(d)))
  {
    SpreadReplacesName(d);
  }
}
