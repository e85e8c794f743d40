/** The orders in which stores compare keys, as orders on UTF-16 texts. */
module KeyOrder {
  import opened CodeUnits

  /** How a store compares keys: code unit by code unit, or byte by byte in UTF-8. */
  datatype Order = Units | Utf8Bytes

  predicate Surrogate(u: CodeUnit) {
    0xD800 <= u < 0xE000
  }

  /** In UTF-8 the characters written with surrogates come after all others. */
  function Rank(order: Order, u: CodeUnit): nat {
    if order == Utf8Bytes && Surrogate(u) then u + 0x1_0000 else u
  }

  predicate Before(order: Order, a: Text, b: Text) {
    b != [] && (a == [] || Rank(order, a[0]) < Rank(order, b[0]) || (a[0] == b[0] && Before(order, a[1..], b[1..])))
  }

  /** Without ranks it is the `<` of strings. */
  lemma {:induction false} UnitsIsLess(a: Text, b: Text)
    ensures Before(Units, a, b) <==> Less(a, b)
  {
    if a != [] && b != [] {
      UnitsIsLess(a[1..], b[1..]);
    }
  }

  // ---------------------------------------------------------------- the order of UTF-8 bytes

  /** A Unicode scalar value. */
  type Scalar = c: int | 0 <= c < 0xD800 || 0xE000 <= c < 0x11_0000

  function Utf16Of(c: Scalar): Text {
    if c < 0x1_0000 then [c] else [0xD800 + (c - 0x1_0000) / 0x400, 0xDC00 + (c - 0x1_0000) % 0x400]
  }

  function Utf16(s: seq<Scalar>): Text {
    if s == [] then [] else Utf16Of(s[0]) + Utf16(s[1..])
  }

  /** Section 3 of RFC 3629: one to four bytes. */
  function Utf8Of(c: Scalar): Text {
    if c < 0x80 then [c]
    else if c < 0x800 then [0xC0 + c / 0x40, 0x80 + c % 0x40]
    else if c < 0x1_0000 then [0xE0 + c / 0x1000, 0x80 + c / 0x40 % 0x40, 0x80 + c % 0x40]
    else [0xF0 + c / 0x4_0000, 0x80 + c / 0x1000 % 0x40, 0x80 + c / 0x40 % 0x40, 0x80 + c % 0x40]
  }

  function Utf8(s: seq<Scalar>): Text {
    if s == [] then [] else Utf8Of(s[0]) + Utf8(s[1..])
  }

  predicate ScalarsBefore(a: seq<Scalar>, b: seq<Scalar>) {
    b != [] && (a == [] || a[0] < b[0] || (a[0] == b[0] && ScalarsBefore(a[1..], b[1..])))
  }

  /** Equal heads do not matter to an order. */
  lemma {:induction false} BeforeSkips(order: Order, p: Text, a: Text, b: Text)
    ensures Before(order, p + a, p + b) <==> Before(order, a, b)
  {
    if p == [] {
      assert p + a == a && p + b == b;
    } else {
      assert (p + a)[1..] == p[1..] + a && (p + b)[1..] == p[1..] + b;
      BeforeSkips(order, p[1..], a, b);
    }
  }

  /** The first difference decides. */
  lemma {:induction false} FirstDifference(order: Order, x: Text, y: Text, i: nat)
    requires i < |x| && i < |y| && x[..i] == y[..i] && Rank(order, x[i]) < Rank(order, y[i])
    ensures Before(order, x, y) && !Before(order, y, x)
  {
    if i > 0 {
      assert x[0] == x[..i][0] == y[..i][0] == y[0];
      assert x[1..][..i - 1] == x[..i][1..] == y[..i][1..] == y[1..][..i - 1];
      FirstDifference(order, x[1..], y[1..], i - 1);
    }
  }

  lemma HeadOrder(order: Order, p: Text, q: Text, a: Text, b: Text, i: nat)
    requires i < |p| && i < |q| && p[..i] == q[..i] && Rank(order, p[i]) < Rank(order, q[i])
    ensures Before(order, p + a, q + b) && !Before(order, q + b, p + a)
  {
    assert (p + a)[..i] == p[..i] && (q + b)[..i] == q[..i];
    FirstDifference(order, p + a, q + b, i);
  }

  /** The encodings of different characters differ somewhere, the right way round. */
  lemma Utf16Differs(c: Scalar, d: Scalar) returns (i: nat)
    requires c < d
    ensures i < |Utf16Of(c)| && i < |Utf16Of(d)| && Utf16Of(c)[..i] == Utf16Of(d)[..i]
    ensures Rank(Utf8Bytes, Utf16Of(c)[i]) < Rank(Utf8Bytes, Utf16Of(d)[i])
  {
    i := if Utf16Of(c)[0] == Utf16Of(d)[0] then 1 else 0;
  }

  lemma Utf8Differs(c: Scalar, d: Scalar) returns (i: nat)
    requires c < d
    ensures i < |Utf8Of(c)| && i < |Utf8Of(d)| && Utf8Of(c)[..i] == Utf8Of(d)[..i]
    ensures Rank(Units, Utf8Of(c)[i]) < Rank(Units, Utf8Of(d)[i])
  {
    var x, y := Utf8Of(c), Utf8Of(d);
    Utf8HeadOrder(c, d);
    if x[0] < y[0] {
      return 0;
    }
    SixBitDigits(c);
    SixBitDigits(d);
    if |x| == 2 || x[1] < y[1] {
      return 1;
    }
    assert x[..2] == [x[0], x[1]] && y[..2] == [y[0], y[1]];
    if |x| == 3 || x[2] < y[2] {
      return 2;
    }
    assert x[..3] == [x[0], x[1], x[2]] && y[..3] == [y[0], y[1], y[2]];
    i := 3;
  }

  lemma Utf8HeadOrder(c: Scalar, d: Scalar)
    requires c < d
    ensures Utf8Of(c)[0] <= Utf8Of(d)[0]
    ensures Utf8Of(c)[0] == Utf8Of(d)[0] ==> 2 <= |Utf8Of(c)| == |Utf8Of(d)|
  {
  }

  lemma SixBitDigits(c: nat)
    ensures c == 0x40 * (c / 0x40) + c % 0x40
    ensures c / 0x40 == 0x40 * (c / 0x1000) + c / 0x40 % 0x40
    ensures c / 0x1000 == 0x40 * (c / 0x4_0000) + c / 0x1000 % 0x40
  {
  }

  lemma {:induction false} Utf16Order(s: seq<Scalar>, t: seq<Scalar>)
    ensures Before(Utf8Bytes, Utf16(s), Utf16(t)) <==> ScalarsBefore(s, t)
  {
    if s != [] && t != [] {
      if s[0] < t[0] {
        var i := Utf16Differs(s[0], t[0]);
        HeadOrder(Utf8Bytes, Utf16Of(s[0]), Utf16Of(t[0]), Utf16(s[1..]), Utf16(t[1..]), i);
      } else if t[0] < s[0] {
        var i := Utf16Differs(t[0], s[0]);
        HeadOrder(Utf8Bytes, Utf16Of(t[0]), Utf16Of(s[0]), Utf16(t[1..]), Utf16(s[1..]), i);
      } else {
        BeforeSkips(Utf8Bytes, Utf16Of(s[0]), Utf16(s[1..]), Utf16(t[1..]));
        Utf16Order(s[1..], t[1..]);
      }
    }
  }

  lemma {:induction false} Utf8Order(s: seq<Scalar>, t: seq<Scalar>)
    ensures Before(Units, Utf8(s), Utf8(t)) <==> ScalarsBefore(s, t)
  {
    if s != [] && t != [] {
      if s[0] < t[0] {
        var i := Utf8Differs(s[0], t[0]);
        HeadOrder(Units, Utf8Of(s[0]), Utf8Of(t[0]), Utf8(s[1..]), Utf8(t[1..]), i);
      } else if t[0] < s[0] {
        var i := Utf8Differs(t[0], s[0]);
        HeadOrder(Units, Utf8Of(t[0]), Utf8Of(s[0]), Utf8(t[1..]), Utf8(s[1..]), i);
      } else {
        BeforeSkips(Units, Utf8Of(s[0]), Utf8(s[1..]), Utf8(t[1..]));
        Utf8Order(s[1..], t[1..]);
      }
    }
  }

  /** Comparing UTF-16 texts with surrogates last is comparing their UTF-8 bytes. */
  lemma Utf8BytesIsByteOrder(s: seq<Scalar>, t: seq<Scalar>)
    ensures Before(Utf8Bytes, Utf16(s), Utf16(t)) <==> Before(Units, Utf8(s), Utf8(t))
  {
    Utf16Order(s, t);
    Utf8Order(s, t);
  }
}
