/**
 `computeIdempotency`: FNV-1a (section 2 of draft-eastlake-fnv) over UTF-16 code units with a
 32-bit state, printed in hexadecimal.
 */
module PromptHash {
  import opened Common
  import opened CodeUnits

  const SEPARATOR: CodeUnit := 124

  type Word = x: int | 0 <= x < 0x1_0000_0000

  /** Exclusive or, lowest bit first. */
  function Xor(a: nat, b: nat): nat {
    if a == 0 && b == 0 then 0 else (if a % 2 == b % 2 then 0 else 1) + 2 * Xor(a / 2, b / 2)
  }

  lemma XorUnfold(a: nat, b: nat)
    ensures Xor(a, b) % 2 == if a % 2 == b % 2 then 0 else 1
    ensures Xor(a, b) / 2 == Xor(a / 2, b / 2)
  {
  }

  lemma {:induction false} XorBound(a: nat, b: nat, n: nat)
    requires a < Pow2(n) && b < Pow2(n)
    ensures Xor(a, b) < Pow2(n)
  {
    if n > 0 {
      XorBound(a / 2, b / 2, n - 1);
    }
  }

  lemma {:induction false} XorCommutes(a: nat, b: nat)
    ensures Xor(a, b) == Xor(b, a)
  {
    if a != 0 || b != 0 {
      XorCommutes(a / 2, b / 2);
    }
  }

  /** Exclusive or with a fixed operand undoes itself. */
  lemma {:induction false} XorUndoes(a: nat, b: nat)
    ensures Xor(Xor(a, b), b) == a
  {
    if a != 0 || b != 0 {
      XorUndoes(a / 2, b / 2);
      XorUnfold(a, b);
      XorUnfold(Xor(a, b), b);
    }
  }

  /** `Math.imul(h, 16777619) >>> 0`. */
  function TimesPrime(h: Word): Word {
    h * 16777619 % 0x1_0000_0000
  }

  function Mixed(h: Word, c: CodeUnit): Word {
    XorWithin32(h, c);
    Xor(h, c)
  }

  lemma XorWithin32(h: Word, c: CodeUnit)
    ensures Xor(h, c) < 0x1_0000_0000
  {
    assert Pow2(6) == 64;
    assert Pow2(12) == 4096;
    assert Pow2(18) == 262144;
    assert Pow2(24) == 16777216;
    assert Pow2(28) == 268435456;
    assert Pow2(32) == 4294967296;
    XorBound(h, c, 32);
  }

  /** One round: exclusive or with the code unit, then multiplication by the prime. */
  function Round(h: Word, c: CodeUnit): Word {
    TimesPrime(Mixed(h, c))
  }

  function Fnv(h: Word, s: Text): Word
    decreases |s|
  {
    if s == [] then h else Fnv(Round(h, s[0]), s[1..])
  }

  const OFFSET_BASIS: Word := 2166136261

  /** `h.toString(16)`, as digit values. */
  function Hex(h: nat): (digits: seq<nat>)
    ensures digits != [] && forall i | 0 <= i < |digits| :: digits[i] < 16
  {
    if h < 16 then [h] else Hex(h / 16) + [h % 16]
  }

  function Base(prompt: Text, correlationId: Text): Text {
    correlationId + [SEPARATOR] + prompt
  }

  /** The digits of the key. */
  function Key(prompt: Text, correlationId: Text): seq<nat> {
    Hex(Fnv(OFFSET_BASIS, Base(prompt, correlationId)))
  }

  function DigitChar(d: nat): (c: char)
    requires d < 16
    ensures c == "0123456789abcdef"[d]
  {
    if d < 10 then ('0' as int + d) as char else ('a' as int + d - 10) as char
  }

  function HexText(h: nat): (text: string)
    ensures |text| == |Hex(h)| && forall i | 0 <= i < |text| :: text[i] == DigitChar(Hex(h)[i])
  {
    var digits := Hex(h);
    seq(|digits|, i requires 0 <= i < |digits| => DigitChar(digits[i]))
  }

  function KeyText(prompt: Text, correlationId: Text): string {
    "h" + HexText(Fnv(OFFSET_BASIS, Base(prompt, correlationId)))
  }

  method ComputeIdempotency(prompt: Text, correlationId: Text) returns (key: string)
    ensures key == KeyText(prompt, correlationId)
  {
    var base := Base(prompt, correlationId);
    var h: Word := OFFSET_BASIS;
    for i := 0 to |base|
      invariant Fnv(h, base[i..]) == Fnv(OFFSET_BASIS, base)
    {
      h := Round(h, base[i]);
      assert base[i..][1..] == base[i + 1..];
    }
    key := "h" + HexText(h);
  }

  // ---------------------------------------------------------------- injectivity

  /** The prime is odd: 16777619 * 899433627 == 1 + 3513497 * 2^32. */
  lemma TimesPrimeInjective(x: Word, y: Word)
    requires TimesPrime(x) == TimesPrime(y)
    ensures x == y
  {
    var p, q := x * 16777619 / 0x1_0000_0000, y * 16777619 / 0x1_0000_0000;
    assert (x - y) * 16777619 == (p - q) * 0x1_0000_0000;
    assert x - y == ((p - q) * 899433627 - (x - y) * 3513497) * 0x1_0000_0000;
  }

  /** For a fixed code unit a round is injective in the state, for a fixed state in the code unit. */
  lemma RoundInjective(g: Word, h: Word, c: CodeUnit, d: CodeUnit)
    requires Round(g, c) == Round(h, d)
    ensures c == d ==> g == h
    ensures g == h ==> c == d
  {
    TimesPrimeInjective(Mixed(g, c), Mixed(h, d));
    if c == d {
      XorUndoes(g, c);
      XorUndoes(h, d);
    }
    if g == h {
      XorCommutes(g, c);
      XorCommutes(h, d);
      XorUndoes(c, g);
      XorUndoes(d, h);
    }
  }

  /** From different states the same text leads to different states. */
  lemma {:induction false} FnvInjectiveInState(g: Word, h: Word, s: Text)
    requires Fnv(g, s) == Fnv(h, s)
    ensures g == h
    decreases |s|
  {
    if s != [] {
      FnvInjectiveInState(Round(g, s[0]), Round(h, s[0]), s[1..]);
      RoundInjective(g, h, s[0], s[0]);
    }
  }

  /** Texts of equal length that differ in at most the code unit at position `i` hash alike only when equal. */
  lemma {:induction false} FnvOneChange(h: Word, s: Text, t: Text, i: nat)
    requires |s| == |t| && i < |s|
    requires forall j | 0 <= j < |s| && j != i :: s[j] == t[j]
    requires Fnv(h, s) == Fnv(h, t)
    ensures s == t
    decreases i
  {
    if i == 0 {
      assert s[1..] == t[1..];
      FnvInjectiveInState(Round(h, s[0]), Round(h, t[0]), s[1..]);
      RoundInjective(h, h, s[0], t[0]);
    } else {
      FnvOneChange(Round(h, s[0]), s[1..], t[1..], i - 1);
      assert s == [s[0]] + s[1..] && t == [t[0]] + t[1..];
    }
  }

  lemma {:induction false} HexInjective(g: nat, h: nat)
    requires Hex(g) == Hex(h)
    ensures g == h
  {
    if |Hex(g)| >= 2 {
      SplitAt(Hex(g / 16), [g % 16], Hex(h / 16), [h % 16]);
      HexInjective(g / 16, h / 16);
    }
  }

  /** The printed keys are as good as the digits, and as the hashes. */
  lemma KeyTextIff(p: Text, c: Text, q: Text, d: Text)
    ensures KeyText(p, c) == KeyText(q, d) <==> Key(p, c) == Key(q, d)
    ensures KeyText(p, c) == KeyText(q, d) <==> Fnv(OFFSET_BASIS, Base(p, c)) == Fnv(OFFSET_BASIS, Base(q, d))
  {
    var g, h := Fnv(OFFSET_BASIS, Base(p, c)), Fnv(OFFSET_BASIS, Base(q, d));
    if KeyText(p, c) == KeyText(q, d) {
      SplitAt("h", HexText(g), "h", HexText(h));
      forall i | 0 <= i < |Hex(g)| ensures Hex(g)[i] == Hex(h)[i] {
        assert HexText(g)[i] == HexText(h)[i];
      }
    }
    if Key(p, c) == Key(q, d) {
      HexInjective(g, h);
    }
  }

  /** Keys never collide on base strings of equal length that differ in exactly one code unit. */
  lemma NoSingleChangeCollision(p: Text, q: Text, c: Text, d: Text, i: nat)
    requires |Base(p, c)| == |Base(q, d)| && i < |Base(p, c)|
    requires forall j | 0 <= j < |Base(p, c)| && j != i :: Base(p, c)[j] == Base(q, d)[j]
    ensures KeyText(p, c) == KeyText(q, d) <==> Base(p, c)[i] == Base(q, d)[i]
  {
    KeyTextIff(p, c, q, d);
    if Key(p, c) == Key(q, d) {
      HexInjective(Fnv(OFFSET_BASIS, Base(p, c)), Fnv(OFFSET_BASIS, Base(q, d)));
      FnvOneChange(OFFSET_BASIS, Base(p, c), Base(q, d), i);
    }
    if Base(p, c)[i] == Base(q, d)[i] {
      assert Base(p, c) == Base(q, d);
    }
  }

  /** With the correlation id fixed, replacing one character of a prompt by another changes the key. */
  lemma ReplacedCharacterChangesKey(prompt: Text, correlationId: Text, i: nat, c: CodeUnit)
    requires i < |prompt| && c != prompt[i]
    ensures KeyText(prompt[i := c], correlationId) != KeyText(prompt, correlationId)
  {
    var k := |correlationId| + 1 + i;
    assert Base(prompt, correlationId)[k] == prompt[i];
    assert Base(prompt[i := c], correlationId)[k] == c;
    NoSingleChangeCollision(prompt[i := c], prompt, correlationId, correlationId, k);
  }

  /** One id runs on into what the other base string has as separator and prompt. */
  predicate Overlap(p: Text, c: Text, q: Text, d: Text) {
    && |c| < |d|
    && c + [SEPARATOR] == d[..|c| + 1]
    && p == d[|c| + 1..] + [SEPARATOR] + q
  }

  /** Base strings are equal exactly for equal parts or when one id goes on with a separator and the start of the other's prompt. */
  lemma BaseIff(p: Text, c: Text, q: Text, d: Text)
    ensures Base(p, c) == Base(q, d) <==> (c == d && p == q) || Overlap(p, c, q, d) || Overlap(q, d, p, c)
  {
    if |c| < |d| {
      BaseOfLonger(p, c, q, d);
    } else if |d| < |c| {
      BaseOfLonger(q, d, p, c);
    } else if Base(p, c) == Base(q, d) {
      Assoc(c, [SEPARATOR], p);
      Assoc(d, [SEPARATOR], q);
      SplitAt(c, [SEPARATOR] + p, d, [SEPARATOR] + q);
      SplitAt([SEPARATOR], p, [SEPARATOR], q);
    }
  }

  lemma BaseOfLonger(p: Text, c: Text, q: Text, d: Text)
    requires |c| < |d|
    ensures Base(p, c) == Base(q, d) <==> Overlap(p, c, q, d)
  {
    var head, tail := d[..|c| + 1], d[|c| + 1..] + [SEPARATOR] + q;
    assert Base(q, d) == head + tail;
    if Base(p, c) == Base(q, d) {
      SplitAt(c + [SEPARATOR], p, head, tail);
    }
  }

  /** Ids free of the separator: the base string determines both parts. */
  lemma SeparatorFreeBaseIff(p: Text, c: Text, q: Text, d: Text)
    requires SEPARATOR !in c && SEPARATOR !in d
    ensures Base(p, c) == Base(q, d) <==> c == d && p == q
  {
    BaseIff(p, c, q, d);
    assert |c| < |d| ==> d[..|c| + 1][|c|] == d[|c|] && d[|c|] in d && (c + [SEPARATOR])[|c|] == SEPARATOR;
    assert |d| < |c| ==> c[..|d| + 1][|d|] == c[|d|] && c[|d|] in c && (d + [SEPARATOR])[|d|] == SEPARATOR;
  }

  /** Otherwise the separator does not separate: a `|` moved between id and prompt gives the same key. */
  lemma SeparatorIsAmbiguous(a: Text, b: Text, c: Text)
    ensures KeyText(c, a + [SEPARATOR] + b) == KeyText(b + [SEPARATOR] + c, a)
  {
    assert Base(c, a + [SEPARATOR] + b) == Base(b + [SEPARATOR] + c, a);
  }

  // ---------------------------------------------------------------- what the key is

  /** The i-th binary digit is a one. */
  predicate Bit(n: nat, i: nat) {
    if i == 0 then n % 2 == 1 else Bit(n / 2, i - 1)
  }

  /** Exclusive or works digit by digit. */
  lemma {:induction false} XorBits(a: nat, b: nat, i: nat)
    ensures Bit(Xor(a, b), i) <==> Bit(a, i) != Bit(b, i)
  {
    XorUnfold(a, b);
    if i > 0 {
      XorBits(a / 2, b / 2, i - 1);
    }
  }

  /** FNV-1a: each code unit is mixed in first, then the state is multiplied by the prime. */
  lemma {:induction false} FnvSnoc(h: Word, s: Text, c: CodeUnit)
    ensures Fnv(h, s + [c]) == Xor(Fnv(h, s), c) * 16777619 % 0x1_0000_0000
    decreases |s|
  {
    if s == [] {
      assert s + [c] == [c] && [c][1..] == [];
    } else {
      assert (s + [c])[1..] == s[1..] + [c];
      FnvSnoc(Round(h, s[0]), s[1..], c);
    }
  }

  /** The number hexadecimal digits stand for. */
  function Value(digits: seq<nat>): nat {
    if digits == [] then 0 else 16 * Value(digits[..|digits| - 1]) + digits[|digits| - 1]
  }

  /** A key is the hexadecimal form of the hash: small digits, no leading zero, the right value. */
  lemma {:induction false} HexMeans(h: nat)
    ensures Value(Hex(h)) == h
    ensures forall d | d in Hex(h) :: d < 16
    ensures Hex(h)[0] == 0 <==> h == 0
  {
    var d := Hex(h);
    if h >= 16 {
      HexMeans(h / 16);
      assert d[..|d| - 1] == Hex(h / 16) && d[|d| - 1] == h % 16;
    } else {
      assert d[..0] == [];
    }
  }

  /** From the offset basis of 32 bits over the id, a bar and the prompt. */
  lemma KeyMeans(prompt: Text, correlationId: Text)
    ensures Value(Key(prompt, correlationId)) == Fnv(2166136261, correlationId + Ascii("|") + prompt)
    ensures Fnv(2166136261, []) == 2166136261
  {
    HexMeans(Fnv(OFFSET_BASIS, Base(prompt, correlationId)));
    assert Ascii("|") == [SEPARATOR];
  }

  lemma XorZero(a: nat)
    ensures Xor(a, 0) == a
  {
  }

  lemma XorStep(a: nat, b: nat, r: nat)
    requires Xor(a / 2, b / 2) == r / 2 && r % 2 == if a % 2 == b % 2 then 0 else 1
    ensures Xor(a, b) == r
  {
    XorUnfold(a, b);
  }

  lemma XorOfA(h: nat, c: nat)
    requires h == 2166136261 && c == 97
    ensures Xor(h, c) == 2166136228
  {
    XorZero(16922939);
    XorStep(33845879, 1, 33845878);
    XorStep(67691758, 3, 67691757);
    XorStep(135383516, 6, 135383514);
    XorStep(270767032, 12, 270767028);
    XorStep(541534065, 24, 541534057);
    XorStep(1083068130, 48, 1083068114);
    XorStep(h, c, 2166136228);
  }

  lemma FnvOfOne(h: Word, c: CodeUnit)
    ensures Fnv(h, [c]) == Xor(h, c) * 16777619 % 0x1_0000_0000
  {
    FnvSnoc(h, [], c);
    assert [] + [c] == [c];
  }

  lemma ProductOfA(x: int)
    requires x == 2166136228
    ensures x * 16777619 % 0x1_0000_0000 == 0xE40C292C
  {
  }

  /** A published value: the hash of the text "a" is e40c292c. */
  lemma HashOfA(h: Word, c: CodeUnit)
    requires h == 2166136261 && c == 97
    ensures Fnv(h, [c]) == 0xE40C292C
  {
    FnvOfOne(h, c);
    XorOfA(h, c);
    ProductOfA(Xor(h, c));
  }
}
