/** `${NAME}` and `${NAME:-default}` interpolation: one left-to-right pass of a global regex replace. */
module EnvInterpolation {
  import opened Common
  import opened Strings

  type Env = map<string, string>

  /** A reference as the regex captures it. */
  datatype Ref = Ref(name: string, default: Option<string>)

  predicate IsNameChar(c: char) {
    'A' <= c <= 'Z' || 'a' <= c <= 'z' || '0' <= c <= '9' || c == '_'
  }

  /** The longest run of name characters at the front. */
  function NameLength(s: string): (n: nat)
    ensures n <= |s|
    ensures forall j | 0 <= j < n :: IsNameChar(s[j])
    ensures n < |s| ==> !IsNameChar(s[n])
  {
    if s == "" || !IsNameChar(s[0]) then 0 else 1 + NameLength(s[1..])
  }

  /** A lazy default stops at the first brace; a line terminator stops it for good. */
  function DefaultLength(s: string): (n: nat)
    ensures n <= |s|
    ensures forall j | 0 <= j < n :: s[j] != '}' && !IsLineTerminator(s[j])
    ensures n < |s| ==> s[n] == '}' || IsLineTerminator(s[n])
  {
    if s == "" || s[0] == '}' || IsLineTerminator(s[0]) then 0 else 1 + DefaultLength(s[1..])
  }

  /** The rest of a match once its name is read. */
  function MatchRest(name: string, rest: string): (m: Option<(Ref, nat)>)
    ensures m.Some? ==> |name| < m.value.1 <= |name| + |rest| + 2
  {
    if rest != "" && rest[0] == '}' then Some((Ref(name, None), |name| + 3))
    else if !(|rest| >= 2 && rest[0] == ':' && rest[1] == '-') then None
    else
      var d := DefaultLength(rest[2..]);
      if d < |rest[2..]| && rest[2..][d] == '}' then Some((Ref(name, Some(rest[2..][..d])), |name| + d + 5)) else None
  }

  /** The match that begins at the front of the text, with its length. */
  function MatchAt(s: string): (m: Option<(Ref, nat)>)
    ensures m.Some? ==> 0 < m.value.1 <= |s|
  {
    if !(|s| >= 2 && s[0] == '$' && s[1] == '{') then None
    else
      var n := NameLength(s[2..]);
      if n == 0 then None else MatchRest(s[2..][..n], s[2..][n..])
  }

  /** The replacement callback. */
  function ValueOf(r: Ref, env: Env): string {
    if r.name in env && env[r.name] != "" then env[r.name]
    else if r.default.Some? then r.default.value
    else ""
  }

  predicate Unresolved(r: Ref, env: Env) {
    r.default.None? && (r.name !in env || env[r.name] == "")
  }

  function Replaced(s: string, env: Env): string
    decreases |s|
  {
    if s == "" then ""
    else
      var m := MatchAt(s);
      if m.Some? then ValueOf(m.value.0, env) + Replaced(s[m.value.1..], env)
      else [s[0]] + Replaced(s[1..], env)
  }

  /** The matches of the global regex, left to right. */
  function Matches(s: string): seq<Ref>
    decreases |s|
  {
    if s == "" then []
    else
      var m := MatchAt(s);
      if m.Some? then [m.value.0] + Matches(s[m.value.1..]) else Matches(s[1..])
  }

  /** A Set in insertion order. */
  function Added(names: seq<string>, name: string): seq<string> {
    if name in names then names else names + [name]
  }

  function Used(names: seq<string>, refs: seq<Ref>): seq<string>
    decreases |refs|
  {
    if refs == [] then names else Used(Added(names, refs[0].name), refs[1..])
  }

  function Missing(names: seq<string>, refs: seq<Ref>, env: Env): seq<string>
    decreases |refs|
  {
    if refs == [] then names
    else Missing(if Unresolved(refs[0], env) then Added(names, refs[0].name) else names, refs[1..], env)
  }

  predicate HasEnvRef(s: string) {
    s != "" && (MatchAt(s).Some? || HasEnvRef(s[1..]))
  }

  /** What a pass has produced so far, with what it is to produce on the rest, makes the whole. */
  predicate Completes(value: string, used: seq<string>, missing: seq<string>, rest: string, env: Env,
                      whole: string, allUsed: seq<string>, allMissing: seq<string>)
  {
    && value + Replaced(rest, env) == whole
    && Used(used, Matches(rest)) == allUsed
    && Missing(missing, Matches(rest), env) == allMissing
  }

  method InterpolateInto(input: string, env: Env, refsUsed: seq<string>, unresolved: seq<string>)
    returns (value: string, refsUsed': seq<string>, unresolved': seq<string>)
    ensures value == Replaced(input, env)
    ensures refsUsed' == Used(refsUsed, Matches(input))
    ensures unresolved' == Missing(unresolved, Matches(input), env)
  {
    value, refsUsed', unresolved' := "", refsUsed, unresolved;
    ghost var whole, allUsed, allMissing := Replaced(input, env), Used(refsUsed, Matches(input)), Missing(unresolved, Matches(input), env);
    var pos := 0;
    while pos < |input|
      invariant pos <= |input|
      invariant Completes(value, refsUsed', unresolved', input[pos..], env, whole, allUsed, allMissing)
    {
      var rest := input[pos..];
      var m := MatchAt(rest);
      if m.Some? {
        var (r, length) := m.value;
        MatchCompletes(value, refsUsed', unresolved', rest, r, length, env, whole, allUsed, allMissing);
        refsUsed' := Added(refsUsed', r.name);
        if Unresolved(r, env) {
          unresolved' := Added(unresolved', r.name);
        }
        value := value + ValueOf(r, env);
        pos := pos + length;
        assert rest[length..] == input[pos..];
      } else {
        LiteralStep(rest, env);
        Assoc(value, [rest[0]], Replaced(rest[1..], env));
        value := value + [rest[0]];
        pos := pos + 1;
        assert rest[1..] == input[pos..];
      }
    }
  }

  lemma MatchCompletes(value: string, used: seq<string>, missing: seq<string>, rest: string, r: Ref, length: nat, env: Env,
                       whole: string, allUsed: seq<string>, allMissing: seq<string>)
    requires rest != "" && MatchAt(rest) == Some((r, length))
    requires Completes(value, used, missing, rest, env, whole, allUsed, allMissing)
    ensures length <= |rest|
    ensures Completes(value + ValueOf(r, env), Added(used, r.name), if Unresolved(r, env) then Added(missing, r.name) else missing,
                      rest[length..], env, whole, allUsed, allMissing)
  {
    MatchStep(rest, r, length, env);
    Assoc(value, ValueOf(r, env), Replaced(rest[length..], env));
  }

  lemma MatchStep(s: string, r: Ref, length: nat, env: Env)
    requires s != "" && MatchAt(s) == Some((r, length))
    ensures length <= |s|
    ensures Replaced(s, env) == ValueOf(r, env) + Replaced(s[length..], env)
    ensures forall names :: Used(names, Matches(s)) == Used(Added(names, r.name), Matches(s[length..]))
    ensures forall names :: Missing(names, Matches(s), env) ==
                            Missing(if Unresolved(r, env) then Added(names, r.name) else names, Matches(s[length..]), env)
  {
    assert Matches(s) == [r] + Matches(s[length..]);
  }

  lemma LiteralStep(s: string, env: Env)
    requires s != "" && MatchAt(s).None?
    ensures Replaced(s, env) == [s[0]] + Replaced(s[1..], env)
    ensures Matches(s) == Matches(s[1..])
  {
  }

  /** Every element of an array is interpolated into the same two sets. */
  method InterpolateEnvArray(input: seq<string>, env: Env) returns (value: seq<string>, refsUsed: seq<string>, unresolved: seq<string>)
    ensures value == ReplacedAll(input, env)
    ensures refsUsed == Used([], AllMatches(input))
    ensures unresolved == Missing([], AllMatches(input), env)
  {
    value, refsUsed, unresolved := [], [], [];
    for i := 0 to |input|
      invariant value == ReplacedAll(input[..i], env)
      invariant refsUsed == Used([], AllMatches(input[..i]))
      invariant unresolved == Missing([], AllMatches(input[..i]), env)
    {
      var element;
      element, refsUsed, unresolved := InterpolateInto(input[i], env, refsUsed, unresolved);
      value := value + [element];
      OneMoreElement(input, i, env);
    }
    assert input[..|input|] == input;
  }

  function ReplacedAll(input: seq<string>, env: Env): (values: seq<string>)
    ensures |values| == |input|
    ensures forall i | 0 <= i < |input| :: values[i] == Replaced(input[i], env)
  {
    if input == [] then [] else ReplacedAll(input[..|input| - 1], env) + [Replaced(input[|input| - 1], env)]
  }

  function AllMatches(input: seq<string>): seq<Ref> {
    if input == [] then [] else AllMatches(input[..|input| - 1]) + Matches(input[|input| - 1])
  }

  lemma OneMoreElement(input: seq<string>, i: nat, env: Env)
    requires i < |input|
    ensures ReplacedAll(input[..i + 1], env) == ReplacedAll(input[..i], env) + [Replaced(input[i], env)]
    ensures var before, after := AllMatches(input[..i]), AllMatches(input[..i + 1]);
            && Used([], after) == Used(Used([], before), Matches(input[i]))
            && Missing([], after, env) == Missing(Missing([], before, env), Matches(input[i]), env)
  {
    assert input[..i + 1][..i] == input[..i];
    UsedAppend([], AllMatches(input[..i]), Matches(input[i]));
    MissingAppend([], AllMatches(input[..i]), Matches(input[i]), env);
  }

  lemma {:induction false} UsedAppend(names: seq<string>, a: seq<Ref>, b: seq<Ref>)
    ensures Used(names, a + b) == Used(Used(names, a), b)
    decreases |a|
  {
    if a == [] {
      assert a + b == b;
    } else {
      assert (a + b)[1..] == a[1..] + b;
      UsedAppend(Added(names, a[0].name), a[1..], b);
    }
  }

  lemma {:induction false} MissingAppend(names: seq<string>, a: seq<Ref>, b: seq<Ref>, env: Env)
    ensures Missing(names, a + b, env) == Missing(Missing(names, a, env), b, env)
    decreases |a|
  {
    if a == [] {
      assert a + b == b;
    } else {
      assert (a + b)[1..] == a[1..] + b;
      MissingAppend(if Unresolved(a[0], env) then Added(names, a[0].name) else names, a[1..], b, env);
    }
  }

  // ---------------------------------------------------------------- what the sets hold

  lemma {:induction false} UsedExactly(names: seq<string>, refs: seq<Ref>, name: string)
    ensures name in Used(names, refs) <==> name in names || exists r :: r in refs && r.name == name
    decreases |refs|
  {
    if refs != [] {
      UsedExactly(Added(names, refs[0].name), refs[1..], name);
      assert forall r :: r in refs <==> r == refs[0] || r in refs[1..];
    }
  }

  lemma {:induction false} MissingExactly(names: seq<string>, refs: seq<Ref>, env: Env, name: string)
    ensures name in Missing(names, refs, env) <==> name in names || exists r :: r in refs && r.name == name && Unresolved(r, env)
    decreases |refs|
  {
    if refs != [] {
      var names' := if Unresolved(refs[0], env) then Added(names, refs[0].name) else names;
      MissingExactly(names', refs[1..], env, name);
      assert forall r :: r in refs <==> r == refs[0] || r in refs[1..];
    }
  }

  /** `hasEnvRef` is false exactly when nothing is referenced, and then the text is unchanged. */
  lemma {:induction false} HasEnvRefIff(s: string, env: Env)
    ensures HasEnvRef(s) <==> Matches(s) != []
    ensures !HasEnvRef(s) ==> Replaced(s, env) == s
    decreases |s|
  {
    if s != "" && MatchAt(s).None? {
      HasEnvRefIff(s[1..], env);
      assert s == [s[0]] + s[1..];
    }
  }

  // ---------------------------------------------------------------- texts built from segments

  datatype Segment = Lit(text: string) | Var(ref: Ref)

  predicate HasOpening(s: string) {
    |s| >= 2 && ((s[0] == '$' && s[1] == '{') || HasOpening(s[1..]))
  }

  predicate GoodRef(r: Ref) {
    && r.name != "" && (forall c | c in r.name :: IsNameChar(c))
    && (r.default.Some? ==> forall c | c in r.default.value :: c != '}' && !IsLineTerminator(c))
  }

  /** Literals hold no `${`, no two of them are adjacent, and references are well formed. */
  predicate GoodSegments(segments: seq<Segment>) {
    && (forall i | 0 <= i < |segments| && segments[i].Lit? :: !HasOpening(segments[i].text))
    && (forall i | 0 <= i < |segments| && segments[i].Var? :: GoodRef(segments[i].ref))
    && (forall i | 0 <= i < |segments| - 1 :: segments[i].Var? || segments[i + 1].Var?)
  }

  /** What follows the name of a reference. */
  function RenderTail(r: Ref): string {
    if r.default.Some? then ":-" + (r.default.value + "}") else "}"
  }

  function RenderRef(r: Ref): string {
    "${" + (r.name + RenderTail(r))
  }

  function Render(segments: seq<Segment>): string {
    if segments == [] then ""
    else (if segments[0].Lit? then segments[0].text else RenderRef(segments[0].ref)) + Render(segments[1..])
  }

  function Values(segments: seq<Segment>, env: Env): string {
    if segments == [] then ""
    else (if segments[0].Lit? then segments[0].text else ValueOf(segments[0].ref, env)) + Values(segments[1..], env)
  }

  function Refs(segments: seq<Segment>): seq<Ref> {
    if segments == [] then []
    else (if segments[0].Var? then [segments[0].ref] else []) + Refs(segments[1..])
  }

  lemma NameLengthOf(name: string, rest: string)
    requires (forall c | c in name :: IsNameChar(c)) && rest != "" && !IsNameChar(rest[0])
    ensures NameLength(name + rest) == |name|
  {
    var n := NameLength(name + rest);
    assert forall j | 0 <= j < |name| :: (name + rest)[j] == name[j] && name[j] in name;
    assert (name + rest)[|name|] == rest[0];
  }

  lemma DefaultLengthOf(text: string, rest: string)
    requires (forall c | c in text :: c != '}' && !IsLineTerminator(c)) && rest != "" && rest[0] == '}'
    ensures DefaultLength(text + rest) == |text|
  {
    assert forall j | 0 <= j < |text| :: (text + rest)[j] == text[j] && text[j] in text;
    assert (text + rest)[|text|] == '}';
  }

  /** The regex on text that begins like a reference with a name followed by `tail`. */
  lemma MatchAfterName(name: string, tail: string)
    requires name != "" && (forall c | c in name :: IsNameChar(c)) && tail != "" && !IsNameChar(tail[0])
    ensures MatchAt("${" + (name + tail)) == MatchRest(name, tail)
  {
    DropPrefix("${", name + tail);
    NameLengthOf(name, tail);
    DropPrefix(name, tail);
    assert (name + tail)[..|name|] == name;
  }

  lemma RenderedText(r: Ref, rest: string)
    ensures RenderRef(r) + rest == "${" + (r.name + (RenderTail(r) + rest))
    ensures r.default.Some? ==> RenderTail(r) + rest == ":-" + (r.default.value + ("}" + rest))
  {
    Assoc("${", r.name + RenderTail(r), rest);
    Assoc(r.name, RenderTail(r), rest);
    if r.default.Some? {
      Assoc(":-", r.default.value + "}", rest);
      Assoc(r.default.value, "}", rest);
    }
  }

  lemma DefaultInTail(value: string, close: string)
    requires (forall c | c in value :: c != '}' && !IsLineTerminator(c)) && close != "" && close[0] == '}'
    ensures var tail := ":-" + (value + close);
            && |tail| >= 2 && tail[0] == ':' && tail[1] == '-'
            && DefaultLength(tail[2..]) == |value| < |tail[2..]|
            && tail[2..][|value|] == '}' && tail[2..][..|value|] == value
  {
    DropPrefix(":-", value + close);
    DefaultLengthOf(value, close);
  }

  lemma MatchTail(r: Ref, rest: string)
    requires GoodRef(r)
    ensures var tail := if r.default.Some? then ":-" + (r.default.value + ("}" + rest)) else "}" + rest;
            tail != "" && !IsNameChar(tail[0]) && MatchRest(r.name, tail) == Some((r, |RenderRef(r)|))
  {
    if r.default.Some? {
      DefaultInTail(r.default.value, "}" + rest);
    }
  }

  lemma MatchRendered(r: Ref, rest: string)
    requires GoodRef(r)
    ensures MatchAt(RenderRef(r) + rest) == Some((r, |RenderRef(r)|))
  {
    RenderedText(r, rest);
    MatchTail(r, rest);
    MatchAfterName(r.name, RenderTail(r) + rest);
  }

  lemma {:induction false} LiteralPasses(text: string, rest: string, env: Env)
    requires !HasOpening(text) && (rest == "" || rest[0] == '$')
    ensures Replaced(text + rest, env) == text + Replaced(rest, env)
    ensures Matches(text + rest) == Matches(rest)
    decreases |text|
  {
    if text == "" {
      assert text + rest == rest;
    } else {
      var s := text + rest;
      DropPrefix([text[0]], text[1..] + rest);
      Assoc([text[0]], text[1..], rest);
      assert [text[0]] + text[1..] == text;
      assert s[1..] == text[1..] + rest;
      LiteralHeadNoMatch(text, rest);
      LiteralPasses(text[1..], rest, env);
      LiteralStep(s, env);
      Assoc([text[0]], text[1..], Replaced(rest, env));
    }
  }

  lemma LiteralHeadNoMatch(text: string, rest: string)
    requires text != "" && !HasOpening(text) && (rest == "" || rest[0] == '$')
    ensures MatchAt(text + rest).None?
  {
    var s := text + rest;
    assert |s| >= 2 ==> s[1] == if |text| >= 2 then text[1] else rest[0];
  }

  /**
   A text rendered from segments comes out as the concatenation of the segments' values, with
   nothing substituted scanned again, and its matches are exactly its references in order.
   */
  lemma {:induction false} InterpolateSegments(segments: seq<Segment>, env: Env)
    requires GoodSegments(segments)
    ensures Replaced(Render(segments), env) == Values(segments, env)
    ensures Matches(Render(segments)) == Refs(segments)
    decreases |segments|
  {
    if segments != [] {
      var head, tail := segments[0], segments[1..];
      var rest := Render(tail);
      assert forall i | 0 <= i < |tail| :: tail[i] == segments[i + 1];
      InterpolateSegments(tail, env);
      if head.Var? {
        var text := RenderRef(head.ref);
        MatchRendered(head.ref, rest);
        DropPrefix(text, rest);
        MatchStep(text + rest, head.ref, |text|, env);
        assert Matches(text + rest) == [head.ref] + Matches(rest);
      } else {
        assert tail != [] ==> tail[0] == segments[1];
        RestBeginsReference(tail);
        LiteralPasses(head.text, rest, env);
        assert Refs(segments) == Refs(tail);
      }
    }
  }

  lemma RestBeginsReference(segments: seq<Segment>)
    requires segments != [] ==> segments[0].Var?
    ensures Render(segments) == "" || Render(segments)[0] == '$'
  {
  }

  lemma {:induction false} RefsAreVars(segments: seq<Segment>, r: Ref)
    ensures r in Refs(segments) <==> Var(r) in segments
  {
    if segments != [] {
      RefsAreVars(segments[1..], r);
      assert segments == [segments[0]] + segments[1..];
    }
  }

  /** `refsUsed` and `unresolved` hold exactly the names the segments call for. */
  lemma SegmentNames(segments: seq<Segment>, env: Env, name: string)
    requires GoodSegments(segments)
    ensures name in Used([], Matches(Render(segments))) <==> exists r :: Var(r) in segments && r.name == name
    ensures name in Missing([], Matches(Render(segments)), env) <==>
            Var(Ref(name, None)) in segments && (name !in env || env[name] == "")
  {
    InterpolateSegments(segments, env);
    forall r ensures r in Refs(segments) <==> Var(r) in segments {
      RefsAreVars(segments, r);
    }
    UsedExactly([], Refs(segments), name);
    MissingExactly([], Refs(segments), env, name);
    assert forall r: Ref :: r.name == name && Unresolved(r, env) <==> r == Ref(name, None) && (name !in env || env[name] == "");
  }

  // ---------------------------------------------------------------- single references

  function Range(first: char, n: nat): (s: string)
    requires first as int + n < 128
    ensures forall c :: c in s <==> first <= c && (c as int) < first as int + n
  {
    if n == 0 then "" else Range(first, n - 1) + [(first as int + n - 1) as char]
  }

  /** Names are made of the 26 ASCII letters in either case, the ten digits and the underscore. */
  lemma NameCharIff(c: char)
    ensures IsNameChar(c) <==> c in Range('A', 26) + Range('a', 26) + Range('0', 10) + "_"
  {
  }

  /** A set variable beats its default, an empty one counts as unset, and without a default it vanishes. */
  lemma ReferenceReads(r: Ref, env: Env)
    requires GoodRef(r)
    ensures var isSet := r.name in env && env[r.name] != "";
            && (isSet ==> Replaced(RenderRef(r), env) == env[r.name])
            && (!isSet && r.default.Some? ==> Replaced(RenderRef(r), env) == r.default.value)
            && (!isSet && r.default.None? ==> Replaced(RenderRef(r), env) == "")
  {
    assert RenderRef(r) + "" == RenderRef(r);
    MatchRendered(r, "");
    assert RenderRef(r)[|RenderRef(r)|..] == "";
  }

  /** Without a dollar sign before a brace nothing is replaced. */
  lemma {:induction false} PlainTextStays(s: string, env: Env)
    requires !HasOpening(s)
    ensures Replaced(s, env) == s && Matches(s) == [] && !HasEnvRef(s)
  {
    if s != "" {
      PlainTextStays(s[1..], env);
      assert s == [s[0]] + s[1..];
    }
  }

  /** A brace that closes on a later line only closes no default, and a name must not be empty. */
  lemma UnfinishedReferenceStays(name: string, default: string, rest: string)
    requires name != "" && (forall c | c in name :: IsNameChar(c))
    requires (forall c | c in default :: c != '}' && !IsLineTerminator(c))
    requires rest == "" || IsLineTerminator(rest[0])
    ensures MatchAt("${" + (name + (":-" + (default + rest)))).None?
    ensures MatchAt("${}" + rest).None?
  {
    var tail := ":-" + (default + rest);
    MatchAfterName(name, tail);
    DropPrefix(":-", default + rest);
    var d := DefaultLength(tail[2..]);
    assert forall j | 0 <= j < |default| :: (default + rest)[j] == default[j] && default[j] in default;
    assert rest != "" ==> (default + rest)[|default|] == rest[0];
    assert ("${}" + rest)[2] == '}';
  }

  // ---------------------------------------------------------------- the order of names

  predicate AllDifferent(names: seq<string>) {
    forall i, j | 0 <= i < j < |names| :: names[i] != names[j]
  }

  /** A set grows at its end and holds no name twice. */
  lemma {:induction false} UsedGrows(names: seq<string>, refs: seq<Ref>)
    ensures names <= Used(names, refs)
    ensures AllDifferent(names) ==> AllDifferent(Used(names, refs))
    decreases |refs|
  {
    if refs != [] {
      UsedGrows(Added(names, refs[0].name), refs[1..]);
    }
  }

  lemma {:induction false} MissingGrows(names: seq<string>, refs: seq<Ref>, env: Env)
    ensures names <= Missing(names, refs, env)
    ensures AllDifferent(names) ==> AllDifferent(Missing(names, refs, env))
    decreases |refs|
  {
    if refs != [] {
      MissingGrows(if Unresolved(refs[0], env) then Added(names, refs[0].name) else names, refs[1..], env);
    }
  }

  /** Names are listed once each, in the order in which they are first met: what a beginning of the text lists, the whole text lists first. */
  lemma NamesInOrder(refs: seq<Ref>, more: seq<Ref>, env: Env)
    ensures Used([], refs) <= Used([], refs + more) && AllDifferent(Used([], refs + more))
    ensures Missing([], refs, env) <= Missing([], refs + more, env) && AllDifferent(Missing([], refs + more, env))
  {
    UsedAppend([], refs, more);
    UsedGrows(Used([], refs), more);
    UsedGrows([], refs);
    MissingAppend([], refs, more, env);
    MissingGrows(Missing([], refs, env), more, env);
    MissingGrows([], refs, env);
  }
}
