/** Small vocabulary shared by the other modules. */
module Common {

  datatype Option<+T> = None | Some(value: T)

  predicate StartsWith<T(==)>(s: seq<T>, prefix: seq<T>) {
    prefix <= s
  }

  lemma Assoc<T>(a: seq<T>, b: seq<T>, c: seq<T>)
    ensures (a + b) + c == a + (b + c)
  {
  }

  lemma Assoc4<T>(a: seq<T>, b: seq<T>, c: seq<T>, d: seq<T>)
    ensures ((a + b) + c) + d == a + (b + (c + d))
  {
    Assoc(a + b, c, d);
    Assoc(a, b, c + d);
  }

  /** Equal concatenations with equally long heads have equal parts. */
  lemma SplitAt<T>(a: seq<T>, x: seq<T>, b: seq<T>, y: seq<T>)
    requires a + x == b + y && |a| == |b|
    ensures a == b && x == y
  {
    assert a == (a + x)[..|a|] && b == (b + y)[..|b|];
    assert x == (a + x)[|a|..] && y == (b + y)[|b|..];
  }

  lemma DropPrefix<T>(a: seq<T>, x: seq<T>)
    ensures (a + x)[|a|..] == x
    ensures a != [] ==> (a + x)[0] == a[0]
  {
  }

  /** The results of `f` on each element, one after the other. */
  function FlatMap<S, T>(f: S -> seq<T>, s: seq<S>): seq<T> {
    if s == [] then [] else FlatMap(f, s[..|s| - 1]) + f(s[|s| - 1])
  }

  lemma FlatMapSnoc<S, T>(f: S -> seq<T>, s: seq<S>, x: S)
    ensures FlatMap(f, s + [x]) == FlatMap(f, s) + f(x)
  {
    assert (s + [x])[..|s|] == s;
  }

  lemma {:induction false} FlatMapAppend<S, T>(f: S -> seq<T>, a: seq<S>, b: seq<S>)
    ensures FlatMap(f, a + b) == FlatMap(f, a) + FlatMap(f, b)
    decreases |b|
  {
    if b == [] {
      assert a + b == a;
    } else {
      var init, last := b[..|b| - 1], b[|b| - 1];
      FlatMapAppend(f, a, init);
      FlatMapSnoc(f, a + init, last);
      assert a + b == (a + init) + [last];
      Assoc(FlatMap(f, a), FlatMap(f, init), f(last));
    }
  }

  /** Functions with at most one result each give the expected results exactly when each one does. */
  lemma {:induction false} FlatMapIs<S, T>(f: S -> seq<T>, s: seq<S>, expected: seq<T>)
    requires |expected| == |s| && forall i | 0 <= i < |s| :: |f(s[i])| <= 1
    ensures |FlatMap(f, s)| <= |s|
    ensures FlatMap(f, s) == expected <==> forall i | 0 <= i < |s| :: f(s[i]) == [expected[i]]
  {
    if s != [] {
      var n := |s| - 1;
      var init, last := FlatMap(f, s[..n]), f(s[n]);
      FlatMapIs(f, s[..n], expected[..n]);
      assert expected == expected[..n] + [expected[n]];
      if init + last == expected[..n] + [expected[n]] {
        SplitAt(init, last, expected[..n], [expected[n]]);
      }
      assert (forall i | 0 <= i < |s| :: f(s[i]) == [expected[i]]) <==>
             (forall i | 0 <= i < n :: f(s[..n][i]) == [expected[..n][i]]) && last == [expected[n]];
    }
  }

  function Pow2(n: nat): int {
    if n == 0 then 1 else 2 * Pow2(n - 1)
  }

  lemma {:induction false} Pow2Positive(n: nat)
    ensures Pow2(n) >= 1
  {
    if n > 0 {
      Pow2Positive(n - 1);
    }
  }
}
