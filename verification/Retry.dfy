/** Exponential backoff: the retry loop and the schedule. */
module Retry {
  import opened Common

  function Max(a: int, b: int): int { if a >= b then a else b }

  function Min(a: int, b: int): int { if a <= b then a else b }

  function OrElse(value: Option<int>, default: int): int {
    if value.Some? then value.value else default
  }

  datatype Options = Options(attempts: Option<int>, baseDelayMs: Option<int>, maxDelayMs: Option<int>, jitter: bool)

  function Attempts(o: Options): (n: int)
    ensures n >= 1
  {
    Max(1, OrElse(o.attempts, 5))
  }

  function Base(o: Options): (base: int)
    ensures base >= 1
  {
    Max(1, OrElse(o.baseDelayMs, 250))
  }

  function Cap(o: Options): (cap: int)
    ensures cap >= Base(o)
  {
    Max(Base(o), OrElse(o.maxDelayMs, 5000))
  }

  /** min(cap, base * 2^i). */
  function Ideal(base: int, cap: int, i: nat): int {
    Min(cap, base * Pow2(i))
  }

  /** The jittered, capped and clamped sleep for a delay. */
  function Slept(cap: int, delay: int, jitter: bool, factor: real): int {
    Max(1, if jitter then Min(cap, (delay as real * factor).Floor) else delay)
  }

  /** The time slept after the failure of call `i`; `factor` is the random factor drawn then. */
  function Pause(o: Options, i: nat, factor: real): int {
    Slept(Cap(o), Ideal(Base(o), Cap(o), i), o.jitter, factor)
  }

  /** What the environment does: whether call `i` succeeds, whether `shouldRetry` agrees after it, the factor drawn. */
  datatype World = World(succeeds: nat -> bool, retry: nat -> bool, factor: nat -> real)

  ghost predicate FactorsInRange(w: World) {
    forall i: nat :: 0.5 <= w.factor(i) < 1.5
  }

  function Pauses(o: Options, w: World, n: nat): (s: seq<int>)
    ensures |s| == n
  {
    if n == 0 then [] else Pauses(o, w, n - 1) + [Pause(o, n - 1, w.factor(n - 1))]
  }

  function Sum(s: seq<int>): int {
    if s == [] then 0 else Sum(s[..|s| - 1]) + s[|s| - 1]
  }

  /** Call `i` is followed by another one. */
  predicate GoesOn(o: Options, w: World, i: nat) {
    !w.succeeds(i) && w.retry(i) && i < Attempts(o) - 1
  }

  /** A total sleep that `retries` pauses allow. */
  predicate WithinBounds(o: Options, total: int, retries: nat) {
    && total <= retries * Cap(o)
    && (!o.jitter ==> total <= Base(o) * (Pow2(retries) - 1))
    && 2 * total <= 3 * (Base(o) * (Pow2(retries) - 1))
  }

  /** The loop of `withBackoff`: whether it returned, how often it called, and what it slept. */
  method WithBackoff(o: Options, w: World) returns (ok: bool, calls: nat, sleeps: seq<int>)
    ensures 1 <= calls <= Attempts(o)
    ensures forall i | 0 <= i < calls - 1 :: GoesOn(o, w, i)
    ensures !GoesOn(o, w, calls - 1)
    ensures ok <==> w.succeeds(calls - 1)
    ensures sleeps == Pauses(o, w, calls - 1)
    ensures FactorsInRange(w) ==> WithinBounds(o, Sum(sleeps), Attempts(o) - 1)
  {
    ok, calls, sleeps := false, 0, [];
    var i := 0;
    while i < Attempts(o)
      invariant 0 <= i == calls == |sleeps| <= Attempts(o) - 1
      invariant forall k | 0 <= k < i :: GoesOn(o, w, k)
      invariant sleeps == Pauses(o, w, i)
      invariant !ok
    {
      calls := calls + 1;
      if w.succeeds(i) {
        ok := true;
        SleepsWithinBounds(o, w, calls);
        return;
      }
      if !w.retry(i) || i == Attempts(o) - 1 {
        SleepsWithinBounds(o, w, calls);
        return;
      }
      sleeps := sleeps + [Pause(o, i, w.factor(i))];
      i := i + 1;
    }
  }

  lemma ProductNonNegative(a: real, b: real)
    requires a >= 0.0 && b >= 0.0
    ensures a * b >= 0.0
  {
  }

  lemma ScaledAtMost(d: real, factor: real, x: real)
    requires d >= 0.0 && factor < 1.5 && x == d * factor
    ensures x <= d * 1.5
  {
    ProductNonNegative(d, 1.5 - factor);
    assert d * (1.5 - factor) == d * 1.5 - x;
  }

  lemma FloorAtMost(x: real, d: int)
    requires x <= d as real * 1.5
    ensures 2 * x.Floor <= 3 * d
  {
    var f := x.Floor;
    assert f as real <= x;
  }

  lemma JitteredAtMost(d: int, factor: real, x: real)
    requires d >= 1 && factor < 1.5 && x == d as real * factor
    ensures 2 * x.Floor <= 3 * d
  {
    ScaledAtMost(d as real, factor, x);
    FloorAtMost(x, d);
  }

  lemma SleptBounds(cap: int, delay: int, jitter: bool, factor: real)
    requires 1 <= delay <= cap && factor < 1.5
    ensures 1 <= Slept(cap, delay, jitter, factor) <= cap
    ensures !jitter ==> Slept(cap, delay, jitter, factor) == delay
    ensures 2 * Slept(cap, delay, jitter, factor) <= 3 * delay
  {
    JitteredAtMost(delay, factor, delay as real * factor);
  }

  lemma IdealBounds(base: int, cap: int, i: nat)
    requires 1 <= base <= cap
    ensures 1 <= Ideal(base, cap, i) <= cap && Ideal(base, cap, i) <= base * Pow2(i)
  {
    Pow2Positive(i);
    Grows(base, Pow2(i));
  }

  lemma PauseBounds(o: Options, i: nat, factor: real)
    requires factor < 1.5
    ensures 1 <= Pause(o, i, factor) <= Cap(o)
    ensures !o.jitter ==> Pause(o, i, factor) <= Base(o) * Pow2(i)
    ensures 2 * Pause(o, i, factor) <= 3 * (Base(o) * Pow2(i))
  {
    IdealBounds(Base(o), Cap(o), i);
    SleptBounds(Cap(o), Ideal(Base(o), Cap(o), i), o.jitter, factor);
  }

  lemma Grows(a: int, b: int)
    requires a >= 1 && b >= 1
    ensures a * b >= 1
  {
  }

  lemma SumSnoc(o: Options, w: World, n: nat)
    ensures Sum(Pauses(o, w, n + 1)) == Sum(Pauses(o, w, n)) + Pause(o, n, w.factor(n))
  {
    var s := Pauses(o, w, n + 1);
    assert s[..n] == Pauses(o, w, n);
  }

  /** base * 2^i, by doubling. */
  function Doubled(base: int, i: nat): int {
    if i == 0 then base else 2 * Doubled(base, i - 1)
  }

  /** The sum of base * 2^i for i below n. */
  function DoubledSum(base: int, n: nat): int {
    if n == 0 then 0 else DoubledSum(base, n - 1) + Doubled(base, n - 1)
  }

  lemma {:induction false} DoubledIs(base: int, i: nat)
    ensures Doubled(base, i) == base * Pow2(i)
  {
    if i > 0 {
      DoubledIs(base, i - 1);
      Twice(base, Pow2(i - 1));
    }
  }

  lemma Twice(base: int, p: int)
    ensures base * (2 * p) == 2 * (base * p)
  {
  }

  /** Powers of two add up to the next one less one. */
  lemma {:induction false} DoubledSumIs(base: int, n: nat)
    ensures DoubledSum(base, n) == base * (Pow2(n) - 1)
  {
    DoubledSumByDoubling(base, n);
    DoubledIs(base, n);
    LessBase(base, Pow2(n));
  }

  lemma {:induction false} DoubledSumByDoubling(base: int, n: nat)
    ensures DoubledSum(base, n) == Doubled(base, n) - base
  {
    if n > 0 {
      DoubledSumByDoubling(base, n - 1);
    }
  }

  lemma LessBase(base: int, p: int)
    ensures base * (p - 1) == base * p - base
  {
  }

  lemma PauseWithin(o: Options, i: nat, factor: real)
    requires factor < 1.5
    ensures 1 <= Pause(o, i, factor) <= Cap(o)
    ensures !o.jitter ==> Pause(o, i, factor) <= Doubled(Base(o), i)
    ensures 2 * Pause(o, i, factor) <= 3 * Doubled(Base(o), i)
  {
    PauseBounds(o, i, factor);
    DoubledIs(Base(o), i);
  }

  lemma OneMore(n: int, cap: int)
    ensures (n + 1) * cap == n * cap + cap
  {
  }

  lemma {:induction false} TotalWithinCap(o: Options, w: World, n: nat)
    requires FactorsInRange(w)
    ensures n <= Sum(Pauses(o, w, n)) <= n * Cap(o)
  {
    if n > 0 {
      TotalWithinCap(o, w, n - 1);
      SumSnoc(o, w, n - 1);
      PauseWithin(o, n - 1, w.factor(n - 1));
      OneMore(n - 1, Cap(o));
    }
  }

  lemma {:induction false} TotalWithinDoubled(o: Options, w: World, n: nat)
    requires FactorsInRange(w)
    ensures !o.jitter ==> Sum(Pauses(o, w, n)) <= DoubledSum(Base(o), n)
    ensures 2 * Sum(Pauses(o, w, n)) <= 3 * DoubledSum(Base(o), n)
  {
    if n > 0 {
      TotalWithinDoubled(o, w, n - 1);
      SumSnoc(o, w, n - 1);
      PauseWithin(o, n - 1, w.factor(n - 1));
    }
  }

  /** Total sleep after n pauses: at most n * cap, and base * (2^n - 1) without jitter, 1.5 times that with it. */
  lemma TotalSleep(o: Options, w: World, n: nat)
    requires FactorsInRange(w)
    ensures n <= Sum(Pauses(o, w, n)) <= n * Cap(o)
    ensures !o.jitter ==> Sum(Pauses(o, w, n)) <= Base(o) * (Pow2(n) - 1)
    ensures 2 * Sum(Pauses(o, w, n)) <= 3 * (Base(o) * (Pow2(n) - 1))
  {
    TotalWithinCap(o, w, n);
    TotalWithinDoubled(o, w, n);
    DoubledSumIs(Base(o), n);
  }

  lemma {:induction false} PauseTotalsGrow(o: Options, w: World, m: nat, n: nat)
    requires m <= n && FactorsInRange(w)
    ensures Sum(Pauses(o, w, m)) <= Sum(Pauses(o, w, n))
    decreases n
  {
    if m < n {
      SumSnoc(o, w, n - 1);
      PauseBounds(o, n - 1, w.factor(n - 1));
      PauseTotalsGrow(o, w, m, n - 1);
    }
  }

  /** However the calls go, a run of `withBackoff` with at most `retries` calls after the first sleeps within these bounds. */
  lemma BackoffBound(o: Options, w: World, retries: nat, calls: nat)
    requires FactorsInRange(w) && 1 <= calls <= retries + 1
    ensures WithinBounds(o, Sum(Pauses(o, w, calls - 1)), retries)
  {
    PauseTotalsGrow(o, w, calls - 1, retries);
    TotalSleep(o, w, retries);
  }

  lemma SleepsWithinBounds(o: Options, w: World, calls: nat)
    requires 1 <= calls <= Attempts(o)
    ensures FactorsInRange(w) ==> WithinBounds(o, Sum(Pauses(o, w, calls - 1)), Attempts(o) - 1)
  {
    if FactorsInRange(w) {
      BackoffBound(o, w, Attempts(o) - 1, calls);
    }
  }

  // ---------------------------------------------------------------- the schedule

  /** One entry: `random` in [0, 1) is drawn for it, `ratio` is already clamped to [0, 1]. */
  function Entry(base: int, cap: int, ratio: real, i: nat, random: real): int {
    var ideal := Ideal(base, cap, i);
    if ratio == 0.0 then ideal
    else
      var jitter := ideal as real * ratio;
      Max(1, Min(cap, (ideal as real + (random * 2.0 * jitter - jitter)).Floor))
  }

  function Clamp01(r: real): real {
    if r < 0.0 then 0.0 else if r > 1.0 then 1.0 else r
  }

  method ComputeBackoffSchedule(attempts: int, baseDelayMs: int, maxDelayMs: int, jitterRatio: real, random: nat -> real)
    returns (out: seq<int>)
    requires forall i: nat :: 0.0 <= random(i) < 1.0
    ensures |out| == Max(0, attempts)
    ensures var base := Max(1, baseDelayMs);
            var cap := Max(base, maxDelayMs);
            forall i | 0 <= i < |out| ::
              && out[i] == Entry(base, cap, Clamp01(jitterRatio), i, random(i))
              && 1 <= out[i] <= cap
  {
    out := [];
    var base := Max(1, baseDelayMs);
    var cap := Max(base, maxDelayMs);
    var ratio := Clamp01(jitterRatio);
    for i := 0 to Max(0, attempts)
      invariant |out| == i
      invariant forall k | 0 <= k < i :: out[k] == Entry(base, cap, ratio, k, random(k)) && 1 <= out[k] <= cap
    {
      EntryInRange(base, cap, ratio, i, random(i));
      out := out + [Entry(base, cap, ratio, i, random(i))];
    }
  }

  lemma EntryInRange(base: int, cap: int, ratio: real, i: nat, random: real)
    requires 1 <= base <= cap
    ensures 1 <= Entry(base, cap, ratio, i, random) <= cap
  {
    Pow2Positive(i);
    Grows(base, Pow2(i));
  }

  /** Without jitter the schedule never decreases. */
  lemma {:induction false} IdealMonotone(base: int, cap: int, i: nat, j: nat)
    requires 1 <= base <= cap && i <= j
    ensures Ideal(base, cap, i) <= Ideal(base, cap, j)
    decreases j
  {
    if i < j {
      IdealMonotone(base, cap, i, j - 1);
      Pow2Positive(j - 1);
      assert base * Pow2(j) == base * Pow2(j - 1) + base * Pow2(j - 1);
      Grows(base, Pow2(j - 1));
    }
  }

  // ---------------------------------------------------------------- the delays themselves

  /** Delays start at the base and double until the cap stops them. */
  lemma DelaysDouble(base: int, cap: int, i: nat)
    requires 1 <= base <= cap
    ensures Ideal(base, cap, 0) == base
    ensures Ideal(base, cap, i + 1) == if 2 * Ideal(base, cap, i) <= cap then 2 * Ideal(base, cap, i) else cap
  {
    assert Pow2(0) == 1;
    Pow2Positive(i);
    Grows(base, Pow2(i));
    Twice(base, Pow2(i));
  }

  /** Five attempts, 250 ms and 5 s unless told otherwise; never below one attempt, 1 ms, and a cap of the base. */
  lemma OptionsMean(o: Options)
    ensures o.attempts == None ==> Attempts(o) == 5
    ensures o.baseDelayMs == None ==> Base(o) == 250
    ensures o.maxDelayMs == None && Base(o) <= 5000 ==> Cap(o) == 5000
    ensures forall n :: o.attempts == Some(n) ==> Attempts(o) == if n < 1 then 1 else n
    ensures forall n :: o.baseDelayMs == Some(n) ==> Base(o) == if n < 1 then 1 else n
    ensures forall n :: o.maxDelayMs == Some(n) ==> Cap(o) == if n < Base(o) then Base(o) else n
  {
  }

  lemma HalvedAtLeast(d: real, factor: real, x: real)
    requires d >= 0.0 && factor >= 0.5 && x == d * factor
    ensures x >= d * 0.5
  {
    ProductNonNegative(d, factor - 0.5);
    assert d * (factor - 0.5) == x - d * 0.5;
  }

  lemma FloorAtLeast(x: real, d: int)
    requires x >= d as real * 0.5
    ensures 2 * x.Floor >= d - 1
  {
    var f := x.Floor;
    assert x < f as real + 1.0;
    assert (d as real) < (2 * f + 2) as real;
  }

  lemma RoundedPause(cap: int, delay: int, x: real)
    requires 1 <= delay <= cap && delay as real * 0.5 <= x <= delay as real * 1.5
    ensures delay - 1 <= 2 * Max(1, Min(cap, x.Floor)) <= 3 * delay
  {
    FloorAtLeast(x, delay);
    FloorAtMost(x, delay);
  }

  /** Without jitter a pause is the delay itself; with it, between half of it, rounded down, and one and a half times it. */
  lemma PauseMeans(o: Options, i: nat, factor: real)
    requires 0.5 <= factor < 1.5
    ensures var delay := Ideal(Base(o), Cap(o), i);
            && (!o.jitter ==> Pause(o, i, factor) == delay)
            && (o.jitter ==> delay - 1 <= 2 * Pause(o, i, factor) <= 3 * delay)
  {
    var cap, delay := Cap(o), Ideal(Base(o), Cap(o), i);
    IdealBounds(Base(o), cap, i);
    SleptMeans(cap, delay, o.jitter, factor);
  }

  lemma SleptMeans(cap: int, delay: int, jitter: bool, factor: real)
    requires 1 <= delay <= cap && 0.5 <= factor < 1.5
    ensures !jitter ==> Slept(cap, delay, jitter, factor) == delay
    ensures jitter ==> delay - 1 <= 2 * Slept(cap, delay, jitter, factor) <= 3 * delay
  {
    var d := delay as real;
    var x := d * factor;
    HalvedAtLeast(d, factor, x);
    ScaledAtMost(d, factor, x);
    RoundedPause(cap, delay, x);
  }

  lemma SpreadWithin(random: real, jitter: real)
    requires 0.0 <= random < 1.0 && jitter >= 0.0
    ensures -jitter <= random * 2.0 * jitter - jitter <= jitter
  {
    ProductNonNegative(random, jitter);
    ProductNonNegative(1.0 - random, jitter);
    assert (1.0 - random) * jitter == jitter - random * jitter;
    assert random * 2.0 * jitter == 2.0 * (random * jitter);
  }

  /** A jittered entry is its delay moved by at most the ratio's share of it, then rounded and clamped. */
  lemma EntryOffset(base: int, cap: int, ratio: real, i: nat, random: real, stray: real) returns (offset: real)
    requires ratio != 0.0 && 0.0 <= random < 1.0
    requires stray == Ideal(base, cap, i) as real * ratio && stray >= 0.0
    ensures -stray <= offset <= stray
    ensures Entry(base, cap, ratio, i, random) == Max(1, Min(cap, (Ideal(base, cap, i) as real + offset).Floor))
  {
    offset := random * 2.0 * stray - stray;
    SpreadWithin(random, stray);
  }

  /** An entry of the schedule strays from its delay by no more than the ratio allows, and by nothing without one. */
  lemma EntryStrays(base: int, cap: int, ratio: real, i: nat, random: real, stray: real)
    requires 1 <= base <= cap && 0.0 <= ratio <= 1.0 && 0.0 <= random < 1.0
    requires stray == Ideal(base, cap, i) as real * ratio
    ensures var delay := Ideal(base, cap, i);
            && (ratio == 0.0 ==> Entry(base, cap, ratio, i, random) == delay)
            && (ratio != 0.0 ==>
                delay as real - stray - 1.0 < Entry(base, cap, ratio, i, random) as real <= delay as real + stray)
  {
    var delay := Ideal(base, cap, i);
    IdealBounds(base, cap, i);
    if ratio != 0.0 {
      ProductNonNegative(delay as real, ratio);
      var offset := EntryOffset(base, cap, ratio, i, random, stray);
      EntryRounds(cap, delay, stray, offset);
    }
  }

  lemma EntryRounds(cap: int, delay: int, j: real, offset: real)
    requires 1 <= delay <= cap && 0.0 <= j && -j <= offset <= j
    ensures var e := Max(1, Min(cap, (delay as real + offset).Floor));
            delay as real - j - 1.0 < e as real <= delay as real + j
  {
    var x := delay as real + offset;
    var f := x.Floor;
    assert f as real <= x < f as real + 1.0;
  }

  /** A ratio out of range counts as the nearer end of it. */
  lemma RatioClamped(r: real)
    ensures 0.0 <= Clamp01(r) <= 1.0
    ensures 0.0 <= r <= 1.0 ==> Clamp01(r) == r
    ensures r < 0.0 ==> Clamp01(r) == 0.0
    ensures r > 1.0 ==> Clamp01(r) == 1.0
  {
  }
}
