/** The dotenv printer and parser of the environment merge script. */
module DotEnv {
  import opened Common
  import opened Strings

  // ---------------------------------------------------------------- printing

  function PrintLine(key: string, value: string): string {
    key + "=" + value
  }

  function JoinLines(lines: seq<string>): string {
    if lines == [] then "" else lines[0] + "\n" + JoinLines(lines[1..])
  }

  /** Lexicographic order of lines. */
  predicate LineLess(a: string, b: string) {
    b != "" && (a == "" || a[0] < b[0] || (a[0] == b[0] && LineLess(a[1..], b[1..])))
  }

  function InsertLine(line: string, sorted: seq<string>): (r: seq<string>)
    ensures multiset(r) == multiset(sorted) + multiset{line}
  {
    if sorted == [] || !LineLess(sorted[0], line) then [line] + sorted
    else
      assert sorted == [sorted[0]] + sorted[1..];
      [sorted[0]] + InsertLine(line, sorted[1..])
  }

  function SortLines(lines: seq<string>): (r: seq<string>)
    ensures multiset(r) == multiset(lines)
  {
    if lines == [] then []
    else
      assert lines == [lines[0]] + lines[1..];
      InsertLine(lines[0], SortLines(lines[1..]))
  }

  /** An object's entries; None stands for null and undefined. */
  type Entries = seq<(string, Option<string>)>

  function PrintEntries(entries: Entries): seq<string> {
    if entries == [] then []
    else
      PrintEntries(entries[..|entries| - 1]) +
      var last := entries[|entries| - 1];
      if last.1.Some? then [PrintLine(last.0, last.1.value)] else []
  }

  function Flatten(entries: Entries): string {
    JoinFile(SortLines(PrintEntries(entries)))
  }

  /** `lines.join('\n') + '\n'`: a lone newline when there are no lines. */
  function JoinFile(lines: seq<string>): string {
    if lines == [] then "\n" else JoinLines(lines)
  }

  method FlattenToDotEnv(entries: Entries) returns (text: string)
    ensures text == Flatten(entries)
  {
    var lines := [];
    for i := 0 to |entries|
      invariant lines == PrintEntries(entries[..i])
    {
      assert entries[..i + 1][..i] == entries[..i];
      if entries[i].1.Some? {
        lines := lines + [PrintLine(entries[i].0, entries[i].1.value)];
      }
    }
    assert entries[..|entries|] == entries;
    text := JoinFile(SortLines(lines));
  }

  // ---------------------------------------------------------------- parsing

  predicate Wrapped(t: string, quote: char) {
    t != "" && t[0] == quote && t[|t| - 1] == quote
  }

  function StripQuotes(value: string): string {
    var t := Trim(value);
    if Wrapped(t, '"') || Wrapped(t, '\'') then (if |t| >= 2 then t[1..|t| - 1] else "") else t
  }

  /** The home directory and the platform's path joining. */
  datatype Platform = Platform(home: string, join: (string, string) -> string)

  predicate IsTilde(value: string) {
    value == "~" || StartsWith(value, "~/")
  }

  function ExpandTilde(value: string, os: Platform): string {
    if value == "~" then os.home
    else if StartsWith(value, "~/") then os.join(os.home, value[2..])
    else value
  }

  /** A line trimmed and freed of `export`. */
  function ParseBare(line: string, os: Platform): Option<(string, string)> {
    var eq := IndexOf(line, '=');
    if eq == |line| then None
    else
      var key := Trim(line[..eq]);
      var value := ExpandTilde(StripQuotes(Trim(line[eq + 1..])), os);
      if key != "" then Some((key, value)) else None
  }

  function ParseLine(raw: string, os: Platform): Option<(string, string)> {
    var trimmed := Trim(raw);
    if raw == "" || trimmed == "" || StartsWith(trimmed, "#") then None
    else ParseBare(if StartsWith(trimmed, "export ") then Trim(trimmed[7..]) else trimmed, os)
  }

  function DropCarriageReturn(line: string): string {
    if line != "" && line[|line| - 1] == '\r' then line[..|line| - 1] else line
  }

  /** `text.split(/\r?\n/)`. */
  function SplitLines(text: string): seq<string>
    decreases |text|
  {
    var i := IndexOf(text, '\n');
    if i == |text| then [text] else [DropCarriageReturn(text[..i])] + SplitLines(text[i + 1..])
  }

  function ParseLines(lines: seq<string>, os: Platform): (entries: seq<Option<(string, string)>>)
    ensures |entries| == |lines|
    ensures forall i | 0 <= i < |lines| :: entries[i] == ParseLine(lines[i], os)
  {
    seq(|lines|, i requires 0 <= i < |lines| => ParseLine(lines[i], os))
  }

  /** Later lines overwrite earlier ones. */
  function Collect(entries: seq<Option<(string, string)>>): map<string, string> {
    if entries == [] then map[]
    else
      var env := Collect(entries[..|entries| - 1]);
      var last := entries[|entries| - 1];
      if last.Some? then env[last.value.0 := last.value.1] else env
  }

  function Load(text: string, os: Platform): map<string, string> {
    Collect(ParseLines(SplitLines(text), os))
  }

  method LoadSecureLocal(text: string, os: Platform) returns (env: map<string, string>)
    ensures env == Load(text, os)
  {
    var lines := SplitLines(text);
    ghost var entries := ParseLines(lines, os);
    env := map[];
    for i := 0 to |lines|
      invariant env == Collect(entries[..i])
    {
      assert entries[..i + 1][..i] == entries[..i];
      var entry := ParseLine(lines[i], os);
      assert entry == entries[i];
      if entry.Some? {
        env := env[entry.value.0 := entry.value.1];
      }
    }
    assert entries[..|lines|] == entries;
  }

  // ---------------------------------------------------------------- one line

  predicate CleanKey(key: string) {
    && key != "" && Trimmed(key)
    && '=' !in key
    && !StartsWith(key, "#") && !StartsWith(key, "export ")
  }

  predicate CleanValue(value: string) {
    && Trimmed(value)
    && !Wrapped(value, '"') && !Wrapped(value, '\'')
    && !IsTilde(value)
  }

  predicate CleanEntry(key: string, value: string) {
    CleanKey(key) && CleanValue(value) && '\n' !in key && '\n' !in value
  }

  lemma BareLineReads(key: string, value: string, os: Platform)
    requires CleanKey(key) && CleanValue(value)
    ensures ParseBare(PrintLine(key, value), os) == Some((key, value))
  {
    var line := PrintLine(key, value);
    TrimIff(key);
    TrimIff(value);
    IndexOfIs(line, '=', |key|);
    assert line[..|key|] == key && line[|key| + 1..] == value;
  }

  /** `=` signs in the value do no harm: the first one ends the key. */
  lemma ParsePrintedLine(key: string, value: string, os: Platform)
    requires CleanKey(key) && CleanValue(value)
    ensures ParseLine(PrintLine(key, value), os) == Some((key, value))
  {
    var line := PrintLine(key, value);
    assert line[0] == key[0];
    assert line[|line| - 1] == if value == "" then '=' else value[|value| - 1];
    if StartsWith(line, "export ") {
      ExportPrefix(key, value);
    }
    TrimmedLineReads(line, os);
    BareLineReads(key, value, os);
  }

  /** The first seven characters of a line that begins with `export ` lie in its key. */
  lemma ExportPrefix(key: string, value: string)
    requires StartsWith(PrintLine(key, value), "export ")
    ensures StartsWith(key, "export ")
  {
    var line := PrintLine(key, value);
    assert line[|key|] == '=';
    assert forall i | 0 <= i < 7 :: line[i] == "export "[i] && line[i] != '=';
    assert key[..7] == line[..7];
  }

  // ---------------------------------------------------------------- whole files

  predicate SingleLine(line: string) {
    '\n' !in line && (line == "" || line[|line| - 1] != '\r')
  }

  lemma {:induction false} SplitJoined(lines: seq<string>)
    requires forall l | l in lines :: SingleLine(l)
    ensures SplitLines(JoinLines(lines)) == lines + [""]
  {
    if lines != [] {
      assert lines[0] in lines && forall l | l in lines[1..] :: l in lines;
      SplitJoined(lines[1..]);
      SplitFirst(lines[0], JoinLines(lines[1..]));
      assert [lines[0]] + (lines[1..] + [""]) == lines + [""];
    }
  }

  lemma SplitFirst(line: string, rest: string)
    requires SingleLine(line)
    ensures SplitLines(line + "\n" + rest) == [line] + SplitLines(rest)
  {
    var text := line + "\n" + rest;
    IndexOfIs(text, '\n', |line|);
    assert text[..|line|] == line && text[|line| + 1..] == rest;
  }

  lemma PrintedIsSingleLine(key: string, value: string)
    requires CleanEntry(key, value)
    ensures SingleLine(PrintLine(key, value))
  {
    var line := PrintLine(key, value);
    assert forall c :: c in line ==> c in key || c == '=' || c in value;
    assert line[|line| - 1] == if value == "" then '=' else value[|value| - 1];
  }

  predicate CleanMap(m: map<string, string>) {
    forall k | k in m :: CleanEntry(k, m[k])
  }

  ghost predicate PrintedFrom(line: string, m: map<string, string>) {
    exists k :: k in m && line == PrintLine(k, m[k])
  }

  /** The lines are those of the map, in any order and even repeated. */
  ghost predicate LinesOf(lines: seq<string>, m: map<string, string>) {
    && (forall l | l in lines :: PrintedFrom(l, m))
    && (forall k | k in m :: PrintLine(k, m[k]) in lines)
  }

  predicate EntryOf(entry: Option<(string, string)>, m: map<string, string>) {
    entry.Some? ==> entry.value.0 in m && entry.value.1 == m[entry.value.0]
  }

  lemma ParsePrinted(line: string, m: map<string, string>, os: Platform)
    requires CleanMap(m) && PrintedFrom(line, m)
    ensures SingleLine(line)
    ensures EntryOf(ParseLine(line, os), m)
  {
    var k :| k in m && line == PrintLine(k, m[k]);
    ParsePrintedLine(k, m[k], os);
    PrintedIsSingleLine(k, m[k]);
  }

  lemma {:induction false} CollectAgrees(entries: seq<Option<(string, string)>>, m: map<string, string>)
    requires forall e | e in entries :: EntryOf(e, m)
    ensures forall k | k in Collect(entries) :: k in m && Collect(entries)[k] == m[k]
  {
    if entries != [] {
      var init, last := entries[..|entries| - 1], entries[|entries| - 1];
      assert last in entries && forall e | e in init :: e in entries;
      CollectAgrees(init, m);
    }
  }

  lemma {:induction false} CollectFinds(entries: seq<Option<(string, string)>>, i: nat)
    requires i < |entries| && entries[i].Some?
    ensures entries[i].value.0 in Collect(entries)
  {
    var n := |entries| - 1;
    if i < n {
      CollectFinds(entries[..n], i);
    }
  }

  /** Entries that agree with the map and cover its keys collect to the map. */
  lemma CollectIs(entries: seq<Option<(string, string)>>, m: map<string, string>)
    requires forall e | e in entries :: EntryOf(e, m)
    requires forall k | k in m :: Some((k, m[k])) in entries
    ensures Collect(entries) == m
  {
    CollectAgrees(entries, m);
    forall k | k in m ensures k in Collect(entries) {
      var i :| 0 <= i < |entries| && entries[i] == Some((k, m[k]));
      CollectFinds(entries, i);
    }
  }

  lemma BlankLine(os: Platform)
    ensures ParseLine("", os) == None
  {
  }

  /** The lines a map's file splits into: the printed lines and blank ones. */
  lemma FileLines(lines: seq<string>)
    requires forall l | l in lines :: SingleLine(l)
    ensures exists blanks :: SplitLines(JoinFile(lines)) == lines + blanks && forall b | b in blanks :: b == ""
  {
    if lines == [] {
      assert SplitLines("\n") == [] + ["", ""] by { SplitLoneNewline(); }
    } else {
      SplitJoined(lines);
    }
  }

  lemma SplitLoneNewline()
    ensures SplitLines("\n") == ["", ""]
  {
    assert "\n"[1..] == "";
  }

  /** Parsing the joined lines of a clean map gives the map back, whatever order the lines are in. */
  lemma RoundTrip(lines: seq<string>, m: map<string, string>, os: Platform)
    requires CleanMap(m) && LinesOf(lines, m)
    ensures Load(JoinFile(lines), os) == m
  {
    forall l | l in lines ensures SingleLine(l) && EntryOf(ParseLine(l, os), m) {
      ParsePrinted(l, m, os);
    }
    FileLines(lines);
    var blanks :| SplitLines(JoinFile(lines)) == lines + blanks && forall b | b in blanks :: b == "";
    BlankLine(os);
    var all := lines + blanks;
    var entries := ParseLines(all, os);
    forall e | e in entries ensures EntryOf(e, m) {
      var i :| 0 <= i < |entries| && entries[i] == e;
      assert all[i] in lines || all[i] in blanks;
    }
    forall k | k in m ensures Some((k, m[k])) in entries {
      var i :| 0 <= i < |lines| && lines[i] == PrintLine(k, m[k]);
      ParsePrintedLine(k, m[k], os);
      assert entries[i] == ParseLine(all[i], os) && all[i] == lines[i];
    }
    CollectIs(entries, m);
  }

  predicate DistinctKeys(entries: Entries) {
    forall i, j | 0 <= i < j < |entries| :: entries[i].0 != entries[j].0
  }

  /** The entries that are printed, as a map. */
  function Present(entries: Entries): map<string, string> {
    if entries == [] then map[]
    else
      var last := entries[|entries| - 1];
      var m := Present(entries[..|entries| - 1]);
      if last.1.Some? then m[last.0 := last.1.value] else m
  }

  lemma {:induction false} PresentKeys(entries: Entries, k: string)
    requires k in Present(entries)
    ensures exists i | 0 <= i < |entries| :: entries[i].0 == k
  {
    var n := |entries| - 1;
    if entries[n].0 != k {
      PresentKeys(entries[..n], k);
      var i :| 0 <= i < |entries[..n]| && entries[..n][i].0 == k;
      assert entries[i].0 == k;
    }
  }

  lemma {:induction false} PrintedLinesOf(entries: Entries)
    requires DistinctKeys(entries)
    ensures LinesOf(PrintEntries(entries), Present(entries))
  {
    if entries != [] {
      var n := |entries| - 1;
      var init, last := entries[..n], entries[n];
      var before, after := Present(init), Present(entries);
      PrintedLinesOf(init);
      if last.0 in before {
        PresentKeys(init, last.0);
      }
      forall l | l in PrintEntries(entries) ensures PrintedFrom(l, after) {
        if l in PrintEntries(init) {
          var k :| k in before && l == PrintLine(k, before[k]);
          assert k in after && after[k] == before[k];
        } else {
          assert last.0 in after;
        }
      }
    }
  }

  /** Flattening an object with clean entries and loading the file gives the object back. */
  lemma FlattenThenLoad(entries: Entries, os: Platform)
    requires DistinctKeys(entries) && CleanMap(Present(entries))
    ensures Load(Flatten(entries), os) == Present(entries)
  {
    var printed := PrintEntries(entries);
    PrintedLinesOf(entries);
    var lines := SortLines(printed);
    assert forall l :: l in lines <==> l in multiset(lines);
    assert forall l :: l in printed <==> l in multiset(printed);
    RoundTrip(lines, Present(entries), os);
  }

  // ---------------------------------------------------------------- what the loader forgives

  /** One pair of quotes around a value comes off, of either kind; white space outside them goes with it. */
  lemma QuotesComeOff(value: string, quote: char, before: string, after: string)
    requires quote == '"' || quote == '\''
    requires (forall c | c in before :: IsSpace(c)) && (forall c | c in after :: IsSpace(c))
    ensures StripQuotes(before + ([quote] + value + [quote]) + after) == value
  {
    var t := [quote] + value + [quote];
    TrimCuts(before, t, after);
    assert t[0] == quote && t[|t| - 1] == quote && t[1..|t| - 1] == value;
  }

  /** Anything else is only trimmed. */
  lemma UnquotedIsTrimmed(value: string)
    requires Trimmed(value)
    requires value != "" && value[0] == value[|value| - 1] ==> value[0] != '"' && value[0] != '\''
    ensures StripQuotes(value) == value
  {
    TrimIff(value);
  }

  /** A tilde stands for the home directory alone or before a slash, and nowhere else. */
  lemma TildeMeans(path: string, os: Platform)
    ensures ExpandTilde("~", os) == os.home
    ensures ExpandTilde("~/" + path, os) == os.join(os.home, path)
    ensures path != "~" && !("~/" <= path) ==> ExpandTilde(path, os) == path
  {
    DropPrefix("~/", path);
  }

  /** Lines that hold nothing: blank ones, comments, and those without an equals sign. */
  lemma IgnoredLine(line: string, os: Platform)
    requires Trimmed(line) && (line == "" || line[0] == '#' || '=' !in line)
    ensures ParseLine(line, os) == None
  {
    TrimIff(line);
    var bare := if StartsWith(line, "export ") then Trim(line[7..]) else line;
    if '=' !in line && StartsWith(line, "export ") {
      TrimKeepsAbsence(line[7..], '=');
      assert forall c | c in line[7..] :: c in line;
    }
    var i := IndexOf(bare, '=');
    if '=' !in line {
      assert i < |bare| ==> '=' in bare;
    }
  }

  lemma {:induction false} TrimStartKeepsAbsence(s: string, c: char)
    requires c !in s
    ensures c !in TrimStart(s)
  {
    if s != "" && IsSpace(s[0]) {
      assert forall x | x in s[1..] :: x in s;
      TrimStartKeepsAbsence(s[1..], c);
    }
  }

  lemma TrimKeepsAbsence(s: string, c: char)
    requires c !in s
    ensures c !in Trim(s)
  {
    TrimStartKeepsAbsence(s, c);
    var t := TrimStart(s);
    assert forall x | x in TrimEnd(t) :: x in t;
  }

  predicate Blank(s: string) {
    forall c | c in s :: IsSpace(c)
  }

  /** A line as people write it: `export`, white space around the parts, and quotes. */
  function Written(exported: bool, key: string, gap: string, space: string, quote: string, value: string): string {
    (if exported then "export " else "") + (key + gap + "=" + (space + (quote + value + quote)))
  }

  /** The one line that is lost: a key `export` before white space is taken for the keyword. */
  predicate TakenForExport(exported: bool, key: string, gap: string) {
    !exported && key == "export" && StartsWith(gap, " ")
  }

  /** All of that is forgiven: such a line reads as its key and value, unless its key is taken for `export`. */
  lemma WrittenLineReads(exported: bool, key: string, gap: string, space: string, quote: string, value: string, os: Platform)
    requires CleanKey(key) && Blank(gap) && Blank(space) && quote in {"\"", "'"} && !IsTilde(value)
    ensures ParseLine(Written(exported, key, gap, space, quote, value), os) ==
            if TakenForExport(exported, key, gap) then None else Some((key, value))
  {
    var quoted := quote + value + quote;
    assert quoted[|quoted| - 1] == quote[0];
    ExportIsDropped(exported, key, gap, space + quoted, os);
    KeyEnds(key, gap, space + quoted);
    QuotedValueReads(space, quote, value);
    TrimCuts("", key, gap);
    assert "" + key + gap == key + gap;
  }

  lemma QuotedValueReads(space: string, quote: string, value: string)
    requires Blank(space) && quote in {"\"", "'"}
    ensures StripQuotes(Trim(space + (quote + value + quote))) == value
  {
    var quoted := quote + value + quote;
    assert quoted[0] == quote[0] && quoted[|quoted| - 1] == quote[0];
    assert space + quoted + "" == space + quoted;
    TrimCuts(space, quoted, "");
    QuotesComeOff(value, quote[0], "", "");
    assert "" + ([quote[0]] + value + [quote[0]]) + "" == quoted;
  }

  lemma KeyEnds(key: string, gap: string, rest: string)
    requires '=' !in key && Blank(gap)
    ensures var line := key + gap + "=" + rest;
            IndexOf(line, '=') == |key + gap| && line[..|key + gap|] == key + gap && line[|key + gap| + 1..] == rest
  {
    var line := key + gap + "=" + rest;
    forall j | 0 <= j < |key + gap| ensures line[j] != '=' {
      assert line[j] == (key + gap)[j] && ((key + gap)[j] in key || (key + gap)[j] in gap);
    }
    IndexOfIs(line, '=', |key + gap|);
  }

  lemma TrimmedLineReads(line: string, os: Platform)
    requires Trimmed(line) && line != "" && line[0] != '#'
    ensures ParseLine(line, os) == ParseBare(if StartsWith(line, "export ") then Trim(line[7..]) else line, os)
  {
    TrimIff(line);
  }

  lemma ExportIsDropped(exported: bool, key: string, gap: string, rest: string, os: Platform)
    requires CleanKey(key) && Blank(gap) && rest != "" && !IsSpace(rest[|rest| - 1])
    ensures var line := key + gap + "=" + rest;
            ParseLine((if exported then "export " else "") + line, os) ==
            if TakenForExport(exported, key, gap) then None else ParseBare(line, os)
  {
    var line := key + gap + "=" + rest;
    assert line[0] == key[0] && line[|line| - 1] == rest[|rest| - 1];
    TrimIff(line);
    if exported {
      ExportedLine(line, os);
    } else {
      assert "" + line == line;
      TrimmedLineReads(line, os);
      KeyHoldsExportIff(key, gap, rest);
      if StartsWith(line, "export ") {
        NothingBeforeEquals(line, gap, rest);
        EmptyKeyIsLost(Trim(line[7..]), os);
      }
    }
  }

  lemma ExportedLine(line: string, os: Platform)
    requires Trimmed(line) && line != ""
    ensures ParseLine("export " + line, os) == ParseBare(line, os)
  {
    var raw := "export " + line;
    assert raw[0] == 'e' && raw[|raw| - 1] == line[|line| - 1] && raw[7..] == line;
    TrimIff(line);
    TrimmedLineReads(raw, os);
  }

  lemma EmptyKeyIsLost(line: string, os: Platform)
    requires line != "" && line[0] == '='
    ensures ParseBare(line, os) == None
  {
    IndexOfIs(line, '=', 0);
    assert line[..0] == "";
    TrimIff("");
  }

  /** After the keyword only white space is left before the equals sign. */
  lemma NothingBeforeEquals(line: string, gap: string, rest: string)
    requires gap != "" && Blank(gap) && rest != "" && !IsSpace(rest[|rest| - 1])
    requires line == "export" + gap + "=" + rest
    ensures Trim(line[7..]) == "=" + rest
  {
    assert line[7..] == gap[1..] + ("=" + rest) + "";
    assert forall c | c in gap[1..] :: c in gap;
    TrimCuts(gap[1..], "=" + rest, "");
  }

  lemma KeyHoldsExportIff(key: string, gap: string, rest: string)
    requires CleanKey(key) && Blank(gap)
    ensures StartsWith(key + gap + "=" + rest, "export ") <==> key == "export" && StartsWith(gap, " ")
  {
    var line := key + gap + "=" + rest;
    assert forall i | 0 <= i < |key| :: line[i] == key[i];
    if |key| >= 7 {
      assert line[..7] == key[..7];
    } else if StartsWith(line, "export ") {
      assert forall i | 0 <= i < 7 :: line[i] == "export "[i];
      assert gap != "" ==> gap[0] in gap && line[|key|] == gap[0];
      assert line[|key|] == "export "[|key|];
      assert key == "export "[..|key|];
    }
    if key == "export" && StartsWith(gap, " ") {
      assert line[..6] == key && line[6] == gap[0];
    }
  }

  /** Lines may end in carriage return and newline as well. */
  function JoinCrLf(lines: seq<string>): string {
    if lines == [] then "" else lines[0] + "\r\n" + JoinCrLf(lines[1..])
  }

  lemma {:induction false} CarriageReturnsDrop(lines: seq<string>)
    requires forall i | 0 <= i < |lines| :: '\n' !in lines[i]
    ensures SplitLines(JoinCrLf(lines)) == lines + [""]
  {
    if lines != [] {
      var first, more := lines[0], lines[1..];
      CarriageReturnsDrop(more);
      SplitFirstCrLf(first, JoinCrLf(more));
      Assoc([first], more, [""]);
      assert [first] + more == lines;
    }
  }

  lemma SplitFirstCrLf(line: string, rest: string)
    requires '\n' !in line
    ensures SplitLines(line + "\r\n" + rest) == [line] + SplitLines(rest)
  {
    var text, first := line + "\r\n" + rest, line + "\r";
    forall j | 0 <= j < |first| ensures text[j] != '\n' {
      assert text[j] == first[j] && (j < |line| ==> line[j] in line);
    }
    IndexOfIs(text, '\n', |first|);
    assert text[..|first|] == first && text[|first| + 1..] == rest;
    assert first[..|first| - 1] == line;
  }

  /** Of several entries for a key the last one counts. */
  lemma {:induction false} LastEntryCounts(entries: seq<Option<(string, string)>>, i: nat)
    requires i < |entries| && entries[i].Some?
    requires forall j | i < j < |entries| :: entries[j].None? || entries[j].value.0 != entries[i].value.0
    ensures entries[i].value.0 in Collect(entries) && Collect(entries)[entries[i].value.0] == entries[i].value.1
  {
    var n := |entries| - 1;
    if i < n {
      LastEntryCounts(entries[..n], i);
    }
  }

  // ---------------------------------------------------------------- the printer's order

  /** The texts agree up to position `i`, where the first has the smaller character. */
  predicate DiffersAt(a: string, b: string, i: nat) {
    i < |a| && i < |b| && a[..i] == b[..i] && a[i] < b[i]
  }

  lemma {:induction false} DifferenceDecides(a: string, b: string, i: nat)
    requires DiffersAt(a, b, i)
    ensures LineLess(a, b)
  {
    if i > 0 {
      assert a[0] == a[..i][0] == b[..i][0] == b[0];
      assert a[1..][..i - 1] == a[..i][1..] == b[..i][1..] == b[1..][..i - 1];
      DifferenceDecides(a[1..], b[1..], i - 1);
    }
  }

  lemma {:induction false} BeginningComesFirst(a: string, b: string)
    requires a <= b && a != b
    ensures LineLess(a, b)
  {
    if a != "" {
      assert a[0] == b[0] && a[1..] <= b[1..];
      assert a == [a[0]] + a[1..] && b == [b[0]] + b[1..];
      BeginningComesFirst(a[1..], b[1..]);
    }
  }

  lemma {:induction false} LessByDifference(a: string, b: string)
    requires LineLess(a, b) && !(a <= b)
    ensures exists i: nat :: DiffersAt(a, b, i)
  {
    if a[0] == b[0] {
      assert a == [a[0]] + a[1..] && b == [b[0]] + b[1..];
      LessByDifference(a[1..], b[1..]);
      var i: nat :| DiffersAt(a[1..], b[1..], i);
      assert a[..i + 1] == [a[0]] + a[1..][..i] && b[..i + 1] == [b[0]] + b[1..][..i];
      assert DiffersAt(a, b, i + 1);
    } else {
      assert a[..0] == b[..0];
      assert DiffersAt(a, b, 0);
    }
  }

  /** The order of lines: a beginning comes first, otherwise the first difference decides. */
  lemma LineLessIff(a: string, b: string)
    ensures LineLess(a, b) <==> (a <= b && a != b) || exists i: nat :: DiffersAt(a, b, i)
  {
    if a <= b && a != b {
      BeginningComesFirst(a, b);
    }
    if i: nat :| DiffersAt(a, b, i) {
      DifferenceDecides(a, b, i);
    }
    if LineLess(a, b) {
      LineOrderTotal(a, b);
      if !(a <= b) {
        LessByDifference(a, b);
      }
    }
  }

  predicate InOrder(lines: seq<string>) {
    forall i, j | 0 <= i < j < |lines| :: !LineLess(lines[j], lines[i])
  }

  lemma {:induction false} LineOrderTotal(a: string, b: string)
    ensures !(LineLess(a, b) && LineLess(b, a))
    ensures !LineLess(a, b) && !LineLess(b, a) ==> a == b
  {
    if a != "" && b != "" && a[0] == b[0] {
      LineOrderTotal(a[1..], b[1..]);
      assert a == [a[0]] + a[1..] && b == [b[0]] + b[1..];
    }
  }

  lemma {:induction false} LineOrderTransitive(a: string, b: string, c: string)
    requires !LineLess(b, a) && !LineLess(c, b)
    ensures !LineLess(c, a)
  {
    if a != "" && b != "" && c != "" && a[0] == b[0] == c[0] {
      LineOrderTransitive(a[1..], b[1..], c[1..]);
    }
  }

  lemma {:induction false} InsertOrdered(line: string, sorted: seq<string>)
    requires InOrder(sorted)
    ensures InOrder(InsertLine(line, sorted))
  {
    var r := InsertLine(line, sorted);
    if sorted != [] && !LineLess(sorted[0], line) {
      forall j | 0 <= j < |sorted| ensures !LineLess(sorted[j], line) {
        if j > 0 {
          LineOrderTransitive(line, sorted[0], sorted[j]);
        }
      }
    } else if sorted != [] {
      var rest := InsertLine(line, sorted[1..]);
      InsertOrdered(line, sorted[1..]);
      LineOrderTotal(sorted[0], line);
      forall j | 0 <= j < |rest| ensures !LineLess(rest[j], sorted[0]) {
        assert rest[j] in multiset(rest);
        assert rest[j] == line || rest[j] in sorted[1..];
      }
    }
  }

  /** The printed file has its lines in order. */
  lemma {:induction false} SortedInOrder(lines: seq<string>)
    ensures InOrder(SortLines(lines))
  {
    if lines != [] {
      SortedInOrder(lines[1..]);
      InsertOrdered(lines[0], SortLines(lines[1..]));
    }
  }

  /** Lines joined by newlines. */
  function JoinedBy(lines: seq<string>): string {
    if lines == [] then "" else if |lines| == 1 then lines[0] else lines[0] + "\n" + JoinedBy(lines[1..])
  }

  /** A file is its lines joined by newlines and one newline more, even without lines. */
  lemma {:induction false} FileIsJoined(lines: seq<string>)
    ensures JoinFile(lines) == JoinedBy(lines) + "\n"
  {
    if |lines| > 1 {
      FileIsJoined(lines[1..]);
      Assoc(lines[0] + "\n", JoinedBy(lines[1..]), "\n");
    } else if |lines| == 1 {
      assert JoinLines(lines[1..]) == "";
    }
  }
}
