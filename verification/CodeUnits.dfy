/** Strings as the code sees them: sequences of UTF-16 code units, ordered code unit by code unit. */
module CodeUnits {

  type CodeUnit = c: int | 0 <= c < 0x1_0000

  type Text = seq<CodeUnit>

  /** The text of a literal; the literals of this project are ASCII. */
  function Ascii(s: string): Text {
    seq(|s|, i requires 0 <= i < |s| => if s[i] as int < 0x1_0000 then s[i] as int else 0xFFFD)
  }

  /** The `<` of strings. */
  predicate Less(a: Text, b: Text) {
    b != [] && (a == [] || a[0] < b[0] || (a[0] == b[0] && Less(a[1..], b[1..])))
  }

  lemma {:induction false} LessTrichotomy(a: Text, b: Text)
    ensures !(Less(a, b) && Less(b, a))
    ensures a == b ==> !Less(a, b)
    ensures Less(a, b) || Less(b, a) || a == b
  {
    if a != [] && b != [] && a[0] == b[0] {
      LessTrichotomy(a[1..], b[1..]);
      assert a == [a[0]] + a[1..] && b == [b[0]] + b[1..];
    }
  }

  lemma {:induction false} LessTransitive(a: Text, b: Text, c: Text)
    requires Less(a, b) && Less(b, c)
    ensures Less(a, c)
  {
    if a != [] && a[0] == b[0] == c[0] {
      LessTransitive(a[1..], b[1..], c[1..]);
    }
  }

  predicate Sorted(s: seq<Text>) {
    forall i, j | 0 <= i < j < |s| :: Less(s[i], s[j])
  }

  /** Insertion into a strictly sorted list. */
  function Insert(k: Text, s: seq<Text>): (r: seq<Text>)
    requires Sorted(s) && k !in s
    ensures Sorted(r)
    ensures forall x :: x in r <==> x == k || x in s
  {
    if s == [] then [k]
    else if Less(k, s[0]) then
      assert forall j | 0 < j < |s| :: Less(k, s[j]) by {
        forall j | 0 < j < |s| ensures Less(k, s[j]) { LessTransitive(k, s[0], s[j]); }
      }
      [k] + s
    else
      LessTrichotomy(k, s[0]);
      assert forall x :: x in s <==> x == s[0] || x in s[1..];
      var rest := Insert(k, s[1..]);
      assert forall x :: x in rest ==> Less(s[0], x);
      [s[0]] + rest
  }

  predicate NoDuplicates<T(==)>(s: seq<T>) {
    forall i, j | 0 <= i < j < |s| :: s[i] != s[j]
  }

  /** `keys.sort()` on distinct keys. */
  function Sort(s: seq<Text>): (r: seq<Text>)
    requires NoDuplicates(s)
    ensures Sorted(r)
    ensures forall x :: x in r <==> x in s
  {
    if s == [] then []
    else
      assert s[0] !in s[1..];
      assert forall x :: x in s <==> x == s[0] || x in s[1..];
      Insert(s[0], Sort(s[1..]))
  }

  lemma HeadIsLeast(s: seq<Text>, x: Text)
    requires Sorted(s) && x in s
    ensures s[0] == x || Less(s[0], x)
  {
  }

  lemma TailOfSorted(s: seq<Text>)
    requires Sorted(s) && s != []
    ensures forall x :: x in s[1..] <==> x in s && x != s[0]
  {
    forall x | x in s[1..] ensures x != s[0] {
      var i :| 1 <= i < |s| && s[i] == x;
      LessTrichotomy(s[0], s[i]);
    }
  }

  lemma NonEmptyHasMember(s: seq<Text>)
    ensures s != [] <==> exists x :: x in s
  {
    if s != [] {
      assert s[0] in s;
    }
  }

  /** A set of keys has one sorted listing. */
  lemma {:induction false} SortedUnique(a: seq<Text>, b: seq<Text>)
    requires Sorted(a) && Sorted(b)
    requires forall x :: x in a <==> x in b
    ensures a == b
  {
    if a != [] && b != [] {
      HeadIsLeast(a, b[0]);
      HeadIsLeast(b, a[0]);
      LessTrichotomy(a[0], b[0]);
      TailOfSorted(a);
      TailOfSorted(b);
      SortedUnique(a[1..], b[1..]);
    } else {
      NonEmptyHasMember(a);
      NonEmptyHasMember(b);
    }
  }
}
