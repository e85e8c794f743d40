/** The string operations of the JavaScript runtime that the codecs use. */
module Strings {
  import opened Common

  /** What `trim` removes and what `\s` matches. */
  predicate IsSpace(c: char) {
    var u := c as int;
    9 <= u <= 13 || u == 32 || u == 0xA0 || u == 0x1680 || 0x2000 <= u <= 0x200A
    || u == 0x2028 || u == 0x2029 || u == 0x202F || u == 0x205F || u == 0x3000 || u == 0xFEFF
  }

  /** What `.` does not match. */
  predicate IsLineTerminator(c: char) {
    c == '\n' || c == '\r' || c as int == 0x2028 || c as int == 0x2029
  }

  function TrimStart(s: string): (r: string)
    ensures |r| <= |s|
    ensures r == "" || !IsSpace(r[0])
    ensures s != "" && !IsSpace(s[0]) ==> r == s
  {
    if s != "" && IsSpace(s[0]) then TrimStart(s[1..]) else s
  }

  function TrimEnd(s: string): (r: string)
    ensures |r| <= |s| && r == s[..|r|]
    ensures r == "" || !IsSpace(r[|r| - 1])
    ensures s != "" && !IsSpace(s[|s| - 1]) ==> r == s
  {
    if s != "" && IsSpace(s[|s| - 1]) then TrimEnd(s[..|s| - 1]) else s
  }

  function Trim(s: string): string {
    TrimEnd(TrimStart(s))
  }

  predicate Trimmed(s: string) {
    s == "" || (!IsSpace(s[0]) && !IsSpace(s[|s| - 1]))
  }

  /** Trimming leaves exactly the trimmed strings alone. */
  lemma TrimIff(s: string)
    ensures Trimmed(Trim(s)) && |Trim(s)| <= |s|
    ensures Trim(s) == s <==> Trimmed(s)
  {
    var t := TrimStart(s);
    var r := TrimEnd(t);
    assert r != "" ==> r[0] == t[0];
  }

  /** `s.indexOf(c)`, with the length for -1. */
  function IndexOf(s: string, c: char): (i: nat)
    ensures i <= |s|
    ensures forall j | 0 <= j < i :: s[j] != c
    ensures i < |s| ==> s[i] == c
  {
    if s == "" || s[0] == c then 0 else 1 + IndexOf(s[1..], c)
  }

  lemma IndexOfIs(s: string, c: char, i: nat)
    requires i <= |s|
    requires forall j | 0 <= j < i :: s[j] != c
    requires i < |s| ==> s[i] == c
    ensures IndexOf(s, c) == i
  {
  }

  /** `split` at every occurrence of a character. */
  function Split(s: string, c: char): (parts: seq<string>)
    ensures parts != []
    decreases |s|
  {
    var i := IndexOf(s, c);
    if i == |s| then [s] else [s[..i]] + Split(s[i + 1..], c)
  }

  lemma SplitFree(s: string, c: char)
    requires c !in s
    ensures Split(s, c) == [s]
  {
    forall j | 0 <= j < |s| ensures s[j] != c {
      assert s[j] in s;
    }
    IndexOfIs(s, c, |s|);
  }

  /** A separator between two texts separates their parts. */
  lemma {:induction false} SplitBetween(a: string, c: char, b: string)
    ensures Split(a + [c] + b, c) == Split(a, c) + Split(b, c)
    decreases |a|
  {
    var s, i := a + [c] + b, IndexOf(a, c);
    assert forall j | 0 <= j < |a| :: s[j] == a[j];
    assert s[|a|] == c;
    IndexOfIs(s, c, i);
    if i == |a| {
      assert s[..i] == a && s[i + 1..] == b;
    } else {
      assert s[..i] == a[..i] && s[i + 1..] == a[i + 1..] + [c] + b;
      SplitBetween(a[i + 1..], c, b);
      Assoc([a[..i]], Split(a[i + 1..], c), Split(b, c));
    }
  }

  /** White space is what sections 12.2 and 12.3 of ECMA-262 list: tabs, line ends, blanks and the byte order mark. */
  lemma SpaceIff(c: char)
    ensures IsSpace(c) <==>
            || c as int in {0x9, 0xA, 0xB, 0xC, 0xD, 0x20, 0xA0, 0x1680, 0x2028, 0x2029, 0x202F, 0x205F, 0x3000, 0xFEFF}
            || c as int in {0x2000, 0x2001, 0x2002, 0x2003, 0x2004, 0x2005, 0x2006, 0x2007, 0x2008, 0x2009, 0x200A}
  {
  }

  /** Lines end in a line feed, a carriage return, or one of the two Unicode separators. */
  lemma LineTerminatorIff(c: char)
    ensures IsLineTerminator(c) <==> c as int in {0xA, 0xD, 0x2028, 0x2029}
  {
  }

  /** Trimming takes white space off both ends and stops at anything else. */
  lemma {:induction false} TrimCuts(a: string, s: string, b: string)
    requires (forall c | c in a :: IsSpace(c)) && (forall c | c in b :: IsSpace(c)) && Trimmed(s)
    ensures Trim(a + s + b) == s
  {
    TrimStartCuts(a, s + b);
    Assoc(a, s, b);
    if s == "" {
      assert s + b == b + "";
      TrimStartCuts(b, "");
    } else {
      assert (s + b)[0] == s[0];
      TrimEndCuts(s, b);
    }
  }

  lemma {:induction false} TrimStartCuts(a: string, s: string)
    requires forall c | c in a :: IsSpace(c)
    ensures TrimStart(a + s) == TrimStart(s)
  {
    if a == "" {
      assert a + s == s;
    } else {
      assert a[0] in a && forall c | c in a[1..] :: c in a;
      assert (a + s)[1..] == a[1..] + s;
      TrimStartCuts(a[1..], s);
    }
  }

  lemma {:induction false} TrimEndCuts(s: string, b: string)
    requires forall c | c in b :: IsSpace(c)
    ensures TrimEnd(s + b) == TrimEnd(s)
    decreases |b|
  {
    if b == "" {
      assert s + b == s;
    } else {
      var init, last := b[..|b| - 1], b[|b| - 1];
      assert last in b && forall c | c in init :: c in b;
      assert (s + b)[..|s + b| - 1] == s + init;
      TrimEndCuts(s, init);
    }
  }
}
