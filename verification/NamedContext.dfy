/** Context packs in a prompt: the subheader that tags a pack, and reading it back. */
module NamedContext {
  import opened Common
  import opened Strings

  datatype Body = Markdown(text: string) | Json(text: string)

  datatype Pack = Pack(id: string, version: string, title: string, priority: Option<int>, body: Body, source: string)

  datatype Context = Context(name: string, content: Body, priority: int, subheader: Option<string>)

  /** What identifies a pack in a subheader. */
  datatype Tag = Tag(id: string, version: string, source: string)

  datatype PackRef = PackRef(id: string, version: string, title: string, source: string)

  const SOURCE_OPEN: string := " (source: "

  function TagOf(pack: Pack): Tag {
    Tag(pack.id, pack.version, pack.source)
  }

  function FormatPackSubheader(t: Tag): string {
    t.id + (" v" + (t.version + (SOURCE_OPEN + (t.source + ")"))))
  }

  /** The end of the longest run without white space. */
  function WordEnd(s: string): (n: nat)
    ensures n <= |s|
    ensures forall j | 0 <= j < n :: !IsSpace(s[j])
    ensures n < |s| ==> IsSpace(s[n])
  {
    if s == "" || IsSpace(s[0]) then 0 else 1 + WordEnd(s[1..])
  }

  predicate Word(s: string) {
    s != "" && forall c | c in s :: !IsSpace(c)
  }

  predicate Line(s: string) {
    s != "" && forall c | c in s :: !IsLineTerminator(c)
  }

  /** A word and what follows it, when that begins with `separator`. */
  function WordThen(s: string, separator: string): Option<(string, string)> {
    var n := WordEnd(s);
    if n > 0 && StartsWith(s[n..], separator) then Some((s[..n], s[n..][|separator|..])) else None
  }

  /** The match of `^(\S+) v(\S+) \(source: (.+)\)$`. */
  function ParsePackSubheader(subheader: Option<string>): Option<Tag> {
    if subheader.None? || subheader.value == "" then None
    else
      var first := WordThen(subheader.value, " v");
      if first.None? then None
      else
        var second := WordThen(first.value.1, SOURCE_OPEN);
        if second.None? then None
        else
          var tail := second.value.1;
          if tail != "" && tail[|tail| - 1] == ')' && Line(tail[..|tail| - 1])
          then Some(Tag(first.value.0, second.value.0, tail[..|tail| - 1]))
          else None
  }

  function PackToNamedContext(pack: Pack): Context {
    Context(pack.title, pack.body, if pack.priority.Some? then pack.priority.value else 3, Some(FormatPackSubheader(TagOf(pack))))
  }

  function PacksToNamedContexts(packs: seq<Pack>): (contexts: seq<Context>)
    ensures |contexts| == |packs|
    ensures forall i | 0 <= i < |packs| :: contexts[i] == PackToNamedContext(packs[i])
  {
    seq(|packs|, i requires 0 <= i < |packs| => PackToNamedContext(packs[i]))
  }

  function RefIn(ctx: Context): seq<PackRef> {
    var parsed := ParsePackSubheader(ctx.subheader);
    if parsed.Some? then [PackRef(parsed.value.id, parsed.value.version, ctx.name, parsed.value.source)] else []
  }

  function RefsIn(contexts: seq<Context>): seq<PackRef> {
    FlatMap(RefIn, contexts)
  }

  method ExtractContextPacks(contexts: seq<Context>) returns (refs: seq<PackRef>)
    ensures refs == RefsIn(contexts)
  {
    refs := [];
    for i := 0 to |contexts|
      invariant refs == RefsIn(contexts[..i])
    {
      assert contexts[..i + 1][..i] == contexts[..i];
      var parsed := ParsePackSubheader(contexts[i].subheader);
      if parsed.Some? {
        refs := refs + [PackRef(parsed.value.id, parsed.value.version, contexts[i].name, parsed.value.source)];
      }
    }
    assert contexts[..|contexts|] == contexts;
  }

  // ---------------------------------------------------------------- the two directions

  /** Ids and versions without white space, sources on one line; parentheses are welcome. */
  predicate GoodTag(t: Tag) {
    Word(t.id) && Word(t.version) && Line(t.source)
  }

  lemma WordThenOf(word: string, separator: string, rest: string)
    requires Word(word) && separator != "" && IsSpace(separator[0])
    ensures WordThen(word + (separator + rest), separator) == Some((word, rest))
  {
    var s := word + (separator + rest);
    DropPrefix(word, separator + rest);
    DropPrefix(separator, rest);
    assert forall j | 0 <= j < |word| :: s[j] == word[j] && word[j] in word;
    assert s[|word|] == separator[0];
    assert WordEnd(s) == |word|;
    assert s[..|word|] == word;
  }

  lemma WordThenSound(s: string, separator: string)
    requires WordThen(s, separator).Some?
    ensures var (word, rest) := WordThen(s, separator).value;
            Word(word) && s == word + (separator + rest)
  {
    var n := WordEnd(s);
    assert s == s[..n] + s[n..];
    assert s[n..] == separator + s[n..][|separator|..];
  }

  lemma ComposeSubheader(s: string, id: string, afterId: string, version: string, tail: string, source: string)
    requires s == id + (" v" + afterId) && afterId == version + (SOURCE_OPEN + tail) && tail == source + ")"
    ensures FormatPackSubheader(Tag(id, version, source)) == s
  {
  }

  /** Whatever parses was formatted: printing the parsed tag gives the subheader back. */
  lemma FormatOfParsed(s: string)
    requires ParsePackSubheader(Some(s)).Some?
    ensures GoodTag(ParsePackSubheader(Some(s)).value)
    ensures FormatPackSubheader(ParsePackSubheader(Some(s)).value) == s
  {
    var t := ParsePackSubheader(Some(s)).value;
    var afterId := WordThen(s, " v").value.1;
    var tail := WordThen(afterId, SOURCE_OPEN).value.1;
    WordThenSound(s, " v");
    WordThenSound(afterId, SOURCE_OPEN);
    ClosingSplit(tail);
    ComposeSubheader(s, t.id, afterId, t.version, tail, t.source);
  }

  lemma ClosingSplit(tail: string)
    requires tail != "" && tail[|tail| - 1] == ')'
    ensures tail == tail[..|tail| - 1] + ")"
  {
  }

  /** A formatted tag is read back exactly when it is a good one. */
  lemma ParseOfFormattedIff(t: Tag)
    ensures ParsePackSubheader(Some(FormatPackSubheader(t))) == Some(t) <==> GoodTag(t)
  {
    var s := FormatPackSubheader(t);
    if GoodTag(t) {
      var tail := t.source + ")";
      WordThenOf(t.version, SOURCE_OPEN, tail);
      WordThenOf(t.id, " v", t.version + (SOURCE_OPEN + tail));
      assert tail[..|tail| - 1] == t.source;
    } else if ParsePackSubheader(Some(s)).Some? {
      FormatOfParsed(s);
    }
  }

  function RefOf(pack: Pack): PackRef {
    PackRef(pack.id, pack.version, pack.title, pack.source)
  }

  function RefsOf(packs: seq<Pack>): (refs: seq<PackRef>)
    ensures |refs| == |packs|
    ensures forall i | 0 <= i < |packs| :: refs[i] == RefOf(packs[i])
  {
    seq(|packs|, i requires 0 <= i < |packs| => RefOf(packs[i]))
  }

  lemma OnePackIff(pack: Pack)
    ensures |RefIn(PackToNamedContext(pack))| <= 1
    ensures RefIn(PackToNamedContext(pack)) == [RefOf(pack)] <==> GoodTag(TagOf(pack))
  {
    ParseOfFormattedIff(TagOf(pack));
  }

  /** Extracting from rendered packs returns exactly their references, in order, if and only if every tag is good. */
  lemma ExtractionIff(packs: seq<Pack>)
    ensures RefsIn(PacksToNamedContexts(packs)) == RefsOf(packs) <==> forall p | p in packs :: GoodTag(TagOf(p))
  {
    var contexts, refs := PacksToNamedContexts(packs), RefsOf(packs);
    forall i | 0 <= i < |packs|
      ensures |RefIn(contexts[i])| <= 1
      ensures RefIn(contexts[i]) == [refs[i]] <==> GoodTag(TagOf(packs[i]))
    {
      OnePackIff(packs[i]);
    }
    FlatMapIs(RefIn, contexts, refs);
    assert (forall p | p in packs :: GoodTag(TagOf(p))) <==> (forall i | 0 <= i < |packs| :: GoodTag(TagOf(packs[i])));
  }

  /** Contexts that are not packs are skipped wherever they stand. */
  lemma ForeignContextsIgnored(before: seq<Context>, ctx: Context, after: seq<Context>)
    requires ParsePackSubheader(ctx.subheader).None?
    ensures RefsIn(before + [ctx] + after) == RefsIn(before + after)
  {
    SkippedElement(RefIn, before, ctx, after);
  }

  lemma SkippedElement<S, T>(f: S -> seq<T>, before: seq<S>, x: S, after: seq<S>)
    requires f(x) == []
    ensures FlatMap(f, before + [x] + after) == FlatMap(f, before + after)
  {
    FlatMapAppend(f, before + [x], after);
    FlatMapAppend(f, before, after);
    FlatMapSnoc(f, before, x);
  }

  // ---------------------------------------------------------------- the format itself

  /** Parsing is matching: a word, ` v`, a word, ` (source: `, a non-empty single line and `)`. */
  lemma ParseIff(s: string, id: string, version: string, source: string)
    ensures ParsePackSubheader(Some(s)) == Some(Tag(id, version, source)) <==>
            && id != "" && (forall c | c in id :: !IsSpace(c))
            && version != "" && (forall c | c in version :: !IsSpace(c))
            && source != "" && (forall c | c in source :: !IsLineTerminator(c))
            && s == id + " v" + version + " (source: " + source + ")"
  {
    var t := Tag(id, version, source);
    FormatFlat(t);
    if ParsePackSubheader(Some(s)) == Some(t) {
      FormatOfParsed(s);
    }
    if GoodTag(t) {
      ParseOfFormattedIff(t);
    }
  }

  lemma FormatFlat(t: Tag)
    ensures FormatPackSubheader(t) == t.id + " v" + t.version + " (source: " + t.source + ")"
  {
    var tail := t.source + ")";
    assert SOURCE_OPEN == " (source: ";
    Assoc4(t.id, " v", t.version, SOURCE_OPEN + tail);
    Assoc(t.id + " v" + t.version, SOURCE_OPEN, tail);
    Assoc(t.id + " v" + t.version + SOURCE_OPEN, t.source, ")");
  }

  /** The pack a context was rendered from, with the priority spelled out. */
  function PackOf(ctx: Context): Option<Pack> {
    var tag := ParsePackSubheader(ctx.subheader);
    if tag.None? then None
    else Some(Pack(tag.value.id, tag.value.version, ctx.name, Some(ctx.priority), ctx.content, tag.value.source))
  }

  /** Rendering loses nothing of a well-tagged pack; an unset priority becomes 3. */
  lemma RenderingLosesNothing(pack: Pack)
    requires GoodTag(TagOf(pack))
    ensures PackOf(PackToNamedContext(pack)) == Some(pack.(priority := if pack.priority == None then Some(3) else pack.priority))
  {
    ParseOfFormattedIff(TagOf(pack));
  }
}
