/** Cached feature flags against their uncached meaning. */
module FeatureFlags {
  import opened Common
  import opened Strings

  function ToLower(c: char): char {
    if 'A' <= c <= 'Z' then (c as int + 32) as char else c
  }

  function LowerCase(s: string): string {
    seq(|s|, i requires 0 <= i < |s| => ToLower(s[i]))
  }

  const TRUTHY: set<string> := {"1", "true", "yes", "on"}
  const FALSY: set<string> := {"0", "false", "no", "off"}

  function ParseBool(value: Option<string>, fallback: bool): bool {
    if value.None? then fallback
    else
      var v := LowerCase(Trim(value.value));
      if v in TRUTHY then true else if v in FALSY then false else fallback
  }

  /** The value decides by itself, whatever the fallback. */
  predicate Decisive(value: string) {
    LowerCase(Trim(value)) in TRUTHY + FALSY
  }

  /** A manifest flag: its environment names in priority order and its default. */
  datatype Flag = Flag(env: seq<string>, default: bool)

  datatype Config = Config(manifest: map<string, Flag>, env: map<string, string>)

  datatype State = State(overrides: map<string, string>, cache: map<string, bool>)

  function FirstSet(names: seq<string>, env: map<string, string>): Option<string> {
    if names == [] then None
    else if names[0] in env then Some(env[names[0]])
    else FirstSet(names[1..], env)
  }

  function RawValue(c: Config, st: State, key: string): Option<string> {
    if key in st.overrides then Some(st.overrides[key])
    else if key in c.manifest then FirstSet(c.manifest[key].env, c.env)
    else None
  }

  function Default(c: Config, key: string, fallback: Option<bool>): bool {
    if key in c.manifest then c.manifest[key].default else if fallback.Some? then fallback.value else false
  }

  /** What the flag means right now, computed without the cache. */
  function Meaning(c: Config, st: State, key: string, fallback: Option<bool>): bool {
    ParseBool(RawValue(c, st, key), Default(c, key, fallback))
  }

  datatype Op =
    | Enabled(key: string, fallback: Option<bool>)
    | SetOverride(key: string, value: Option<string>)
    | Reset

  predicate Cacheable(c: Config, st: State, key: string) {
    key in c.manifest || RawValue(c, st, key).Some?
  }

  /** What `enabled` returns and the cache it leaves. */
  function Ask(c: Config, st: State, key: string, fallback: Option<bool>): (State, bool) {
    if Cacheable(c, st, key) && key in st.cache then (st, st.cache[key])
    else
      var value := Meaning(c, st, key, fallback);
      (if Cacheable(c, st, key) then st.(cache := st.cache[key := value]) else st, value)
  }

  function Apply(c: Config, st: State, op: Op): State {
    match op
    case Enabled(key, fallback) => Ask(c, st, key, fallback).0
    case SetOverride(key, value) =>
      State(if value.Some? then st.overrides[key := value.value] else st.overrides - {key}, st.cache - {key})
    case Reset => State(map[], map[])
  }

  function Run(c: Config, st: State, ops: seq<Op>): State
    decreases |ops|
  {
    if ops == [] then st else Run(c, Apply(c, st, ops[0]), ops[1..])
  }

  const INITIAL: State := State(map[], map[])

  class FeatureGate {
    const manifest: map<string, Flag>
    var env: map<string, string>
    var overrides: map<string, string>
    var cache: map<string, bool>

    function View(): State
      reads this
    {
      State(overrides, cache)
    }

    function Configuration(): Config
      reads this
    {
      Config(manifest, env)
    }

    constructor (manifest: map<string, Flag>, env: map<string, string>)
      ensures View() == INITIAL && Configuration() == Config(manifest, env)
    {
      this.manifest, this.env, overrides, cache := manifest, env, map[], map[];
    }

    method Raw(key: string) returns (value: Option<string>)
      ensures value == RawValue(Configuration(), View(), key)
    {
      if key in overrides {
        return Some(overrides[key]);
      }
      var names := if key in manifest then manifest[key].env else [];
      for i := 0 to |names|
        invariant FirstSet(names, env) == FirstSet(names[i..], env)
      {
        if names[i] in env {
          return Some(env[names[i]]);
        }
        assert names[i..][1..] == names[i + 1..];
      }
      value := None;
    }

    method Enabled(key: string, fallback: Option<bool>) returns (on: bool)
      modifies this`cache
      ensures (View(), on) == Ask(Configuration(), old(View()), key, fallback)
    {
      var raw := Raw(key);
      if (key in manifest || raw.Some?) && key in cache {
        return cache[key];
      }
      on := ParseBool(raw, Default(Configuration(), key, fallback));
      if key in manifest || raw.Some? {
        cache := cache[key := on];
      }
    }

    method SetOverride(key: string, value: Option<string>)
      modifies this`cache, this`overrides
      ensures View() == Apply(Configuration(), old(View()), Op.SetOverride(key, value))
    {
      cache := cache - {key};
      if value.None? {
        overrides := overrides - {key};
      } else {
        overrides := overrides[key := value.value];
      }
    }

    method Reset()
      modifies this`cache, this`overrides
      ensures View() == INITIAL
    {
      overrides, cache := map[], map[];
    }

    method SetEnvProvider(newEnv: map<string, string>)
      modifies this
      ensures View() == INITIAL && Configuration() == Config(manifest, newEnv)
    {
      env, cache, overrides := newEnv, map[], map[];
    }
  }

  // ---------------------------------------------------------------- the cache is invisible

  /** A manifest key, or an unknown key whose override, if any, decides by itself. */
  predicate Determined(c: Config, st: State, key: string) {
    key in c.manifest || key !in st.overrides || Decisive(st.overrides[key])
  }

  /** Every cached value of a determined key is its meaning now, under any fallback. */
  ghost predicate Coherent(c: Config, st: State) {
    && (forall key | key in st.cache :: Cacheable(c, st, key))
    && (forall key, fallback | key in st.cache && Determined(c, st, key) :: st.cache[key] == Meaning(c, st, key, fallback))
  }

  lemma ApplyCoherent(c: Config, st: State, op: Op)
    requires Coherent(c, st)
    ensures Coherent(c, Apply(c, st, op))
  {
    var st' := Apply(c, st, op);
    forall key | key in st'.cache ensures Cacheable(c, st', key) {
      if key in st.cache {
        assert Cacheable(c, st, key);
        assert RawValue(c, st', key) == RawValue(c, st, key);
      }
    }
    forall key, fallback | key in st'.cache && Determined(c, st', key)
      ensures st'.cache[key] == Meaning(c, st', key, fallback)
    {
      assert RawValue(c, st', key) == RawValue(c, st, key);
      if key in st.cache {
        assert st.cache[key] == Meaning(c, st, key, fallback);
      }
    }
  }

  lemma {:induction false} RunCoherent(c: Config, st: State, ops: seq<Op>)
    requires Coherent(c, st)
    ensures Coherent(c, Run(c, st, ops))
    decreases |ops|
  {
    if ops != [] {
      ApplyCoherent(c, st, ops[0]);
      RunCoherent(c, Apply(c, st, ops[0]), ops[1..]);
    }
  }

  lemma {:induction false} RunSnoc(c: Config, st: State, ops: seq<Op>, op: Op)
    ensures Run(c, st, ops + [op]) == Apply(c, Run(c, st, ops), op)
    decreases |ops|
  {
    if ops == [] {
      assert ops + [op] == [op] && [op][1..] == [];
    } else {
      assert (ops + [op])[1..] == ops[1..] + [op];
      RunSnoc(c, Apply(c, st, ops[0]), ops[1..], op);
    }
  }

  /** The fallback the flag was first asked with since its override was last set or everything was reset. */
  function FirstAsked(ops: seq<Op>, key: string): Option<Option<bool>> {
    if ops == [] then None
    else
      var earlier := FirstAsked(ops[..|ops| - 1], key);
      match ops[|ops| - 1]
      case Enabled(k, fallback) => if k == key && earlier.None? then Some(fallback) else earlier
      case SetOverride(k, _) => if k == key then None else earlier
      case Reset => None
  }

  /** For a key that is not determined the cache holds the default it was first asked with. */
  lemma {:induction false} CacheIsFirstAsked(c: Config, ops: seq<Op>, key: string)
    requires !Determined(c, Run(c, INITIAL, ops), key)
    ensures var st := Run(c, INITIAL, ops);
            var asked := FirstAsked(ops, key);
            && (key in st.cache <==> asked.Some?)
            && (asked.Some? ==> st.cache[key] == Default(c, key, asked.value))
  {
    if ops != [] {
      var earlier, op := ops[..|ops| - 1], ops[|ops| - 1];
      assert ops == earlier + [op];
      RunSnoc(c, INITIAL, earlier, op);
      if !op.Reset? && !(op.SetOverride? && op.key == key) {
        CacheIsFirstAsked(c, earlier, key);
      }
    }
  }

  /**
   After any history `enabled` answers with the flag's meaning for every determined key; for an
   unknown key with an indecisive override it does so exactly when it was not asked since the
   override was set, or was first asked with the default asked with now.
   */
  lemma EnabledIffMeaning(c: Config, ops: seq<Op>, key: string, fallback: Option<bool>)
    ensures var st := Run(c, INITIAL, ops);
            var asked := FirstAsked(ops, key);
            Ask(c, st, key, fallback).1 == Meaning(c, st, key, fallback) <==>
            (Determined(c, st, key) || asked.None? || Default(c, key, asked.value) == Default(c, key, fallback))
  {
    RunCoherent(c, INITIAL, ops);
    if !Determined(c, Run(c, INITIAL, ops), key) {
      CacheIsFirstAsked(c, ops, key);
    }
  }

  /** The exception is real: the first fallback asked with sticks to a malformed override. */
  lemma FirstFallbackSticks(c: Config, key: string, value: string)
    requires key !in c.manifest && !Decisive(value)
    ensures var st := Run(c, INITIAL, [SetOverride(key, Some(value)), Enabled(key, Some(true))]);
            Ask(c, st, key, Some(false)).1 == true && Meaning(c, st, key, Some(false)) == false
  {
    var first, second := SetOverride(key, Some(value)), Op.Enabled(key, Some(true));
    assert [first, second][1..] == [second] && [second][1..] == [];
    var st1 := Apply(c, INITIAL, first);
    assert Run(c, INITIAL, [first, second]) == Run(c, st1, [second]);
    assert Run(c, st1, [second]) == Run(c, Apply(c, st1, second), []);
  }

  // ---------------------------------------------------------------- what values mean

  /** The word in some mixture of letter cases. */
  predicate CaseVariant(w: string, word: string) {
    |w| == |word| && forall j | 0 <= j < |word| :: w[j] == word[j] || ('a' <= word[j] <= 'z' && w[j] as int == word[j] as int - 32)
  }

  predicate Lower(word: string) {
    forall j | 0 <= j < |word| :: 'a' <= word[j] <= 'z' || '0' <= word[j] <= '9'
  }

  lemma LowerCaseIff(w: string, word: string)
    requires Lower(word)
    ensures LowerCase(w) == word <==> CaseVariant(w, word)
  {
    if LowerCase(w) == word {
      assert forall j | 0 <= j < |w| :: ToLower(w[j]) == word[j];
    }
    if CaseVariant(w, word) {
      assert forall j | 0 <= j < |w| :: ToLower(w[j]) == word[j];
    }
  }

  predicate SaysYes(w: string) {
    CaseVariant(w, "1") || CaseVariant(w, "true") || CaseVariant(w, "yes") || CaseVariant(w, "on")
  }

  predicate SaysNo(w: string) {
    CaseVariant(w, "0") || CaseVariant(w, "false") || CaseVariant(w, "no") || CaseVariant(w, "off")
  }

  lemma WordsByCase(w: string)
    ensures LowerCase(w) in TRUTHY <==> SaysYes(w)
    ensures LowerCase(w) in FALSY <==> SaysNo(w)
    ensures !(SaysYes(w) && SaysNo(w))
  {
    LowerCaseIff(w, "1");
    LowerCaseIff(w, "true");
    LowerCaseIff(w, "yes");
    LowerCaseIff(w, "on");
    LowerCaseIff(w, "0");
    LowerCaseIff(w, "false");
    LowerCaseIff(w, "no");
    LowerCaseIff(w, "off");
    TruthyApart(LowerCase(w));
  }

  lemma TruthyApart(v: string)
    ensures !(v in TRUTHY && v in FALSY)
  {
    assert |"0"| == |"1"| == 1 && "0"[0] != "1"[0];
    assert "no"[0] != "on"[0] && |"yes"| == |"off"| == 3 && "yes"[0] != "off"[0];
  }

  /**
   `1`, `true`, `yes` and `on` switch on, `0`, `false`, `no` and `off` switch off, in any letter case
   and with white space around; anything else, or nothing, leaves the fallback.
   */
  lemma ParseBoolMeans(value: string, fallback: bool)
    ensures ParseBool(Some(value), fallback) == if SaysYes(Trim(value)) then true else if SaysNo(Trim(value)) then false else fallback
    ensures ParseBool(None, fallback) == fallback
  {
    WordsByCase(Trim(value));
  }

  /** In particular with white space around the word. */
  lemma SpacedWord(before: string, w: string, after: string, fallback: bool)
    requires (forall c | c in before :: IsSpace(c)) && (forall c | c in after :: IsSpace(c))
    ensures SaysYes(w) ==> ParseBool(Some(before + w + after), fallback) == true
    ensures SaysNo(w) ==> ParseBool(Some(before + w + after), fallback) == false
  {
    if SaysYes(w) || SaysNo(w) {
      WordsByCase(w);
      VariantIsTrimmed(w);
      TrimCuts(before, w, after);
    }
  }

  lemma VariantIsTrimmed(w: string)
    requires LowerCase(w) in TRUTHY || LowerCase(w) in FALSY
    ensures Trimmed(w)
  {
    var v := LowerCase(w);
    assert v[0] == ToLower(w[0]) && v[|v| - 1] == ToLower(w[|w| - 1]);
    WordEnds(v);
  }

  lemma WordEnds(v: string)
    requires v in TRUTHY || v in FALSY
    ensures v != "" && !IsSpace(v[0]) && !IsSpace(v[|v| - 1])
  {
  }

  /** The environment names of a flag are tried in order; the first one set wins. */
  lemma {:induction false} FirstSetIff(names: seq<string>, env: map<string, string>, value: string)
    ensures FirstSet(names, env) == Some(value) <==>
            exists i :: 0 <= i < |names| && names[i] in env && env[names[i]] == value && forall j | 0 <= j < i :: names[j] !in env
  {
    if names != [] {
      FirstSetIff(names[1..], env, value);
      if names[0] !in env {
        if i :| 0 <= i < |names[1..]| && names[1..][i] in env && env[names[1..][i]] == value && forall j | 0 <= j < i :: names[1..][j] !in env {
          assert names[i + 1] in env && env[names[i + 1]] == value;
          forall j | 0 <= j < i + 1 ensures names[j] !in env {
            assert j > 0 ==> names[j] == names[1..][j - 1];
          }
        }
        if i :| 0 <= i < |names| && names[i] in env && env[names[i]] == value && forall j | 0 <= j < i :: names[j] !in env {
          assert i > 0 && names[1..][i - 1] == names[i];
          assert forall j | 0 <= j < i - 1 :: names[1..][j] == names[j + 1];
        }
      }
    }
  }

  /** An override that names a truth value decides from then on, over environment and defaults, until it is changed. */
  lemma {:induction false} OverrideDecides(c: Config, ops: seq<Op>, key: string, value: string, more: seq<Op>, fallback: Option<bool>)
    requires Decisive(value)
    requires forall op | op in more :: !op.Reset? && !(op.SetOverride? && op.key == key)
    ensures var st := Run(c, INITIAL, ops + [SetOverride(key, Some(value))] + more);
            Ask(c, st, key, fallback).1 == ParseBool(Some(value), false)
  {
    var all := ops + [SetOverride(key, Some(value))] + more;
    OverrideStays(c, ops, key, value, more);
    RunCoherent(c, INITIAL, all);
    EnabledIffMeaning(c, all, key, fallback);
  }

  lemma {:induction false} OverrideStays(c: Config, ops: seq<Op>, key: string, value: string, more: seq<Op>)
    requires forall op | op in more :: !op.Reset? && !(op.SetOverride? && op.key == key)
    ensures var st := Run(c, INITIAL, ops + [SetOverride(key, Some(value))] + more);
            key in st.overrides && st.overrides[key] == value
    decreases |more|
  {
    var before := ops + [SetOverride(key, Some(value))];
    if more == [] {
      RunSnoc(c, INITIAL, ops, SetOverride(key, Some(value)));
      assert before + more == before;
    } else {
      var init, last := more[..|more| - 1], more[|more| - 1];
      assert last in more && forall op | op in init :: op in more;
      OverrideStays(c, ops, key, value, init);
      RunSnoc(c, INITIAL, before + init, last);
      assert before + more == before + init + [last];
    }
  }

  /** Without an override a flag of the manifest follows its environment, and without that its default. */
  lemma FlagWithoutOverride(c: Config, ops: seq<Op>, key: string, fallback: Option<bool>)
    requires key in c.manifest && key !in Run(c, INITIAL, ops).overrides
    ensures Ask(c, Run(c, INITIAL, ops), key, fallback).1 ==
            ParseBool(FirstSet(c.manifest[key].env, c.env), c.manifest[key].default)
  {
    EnabledIffMeaning(c, ops, key, fallback);
  }

  /** A key nobody knows has the fallback asked with, and false without one. */
  lemma UnknownFlag(c: Config, ops: seq<Op>, key: string, fallback: Option<bool>)
    requires key !in c.manifest && key !in Run(c, INITIAL, ops).overrides
    ensures Ask(c, Run(c, INITIAL, ops), key, fallback).1 == (fallback == Some(true))
  {
  }
}
