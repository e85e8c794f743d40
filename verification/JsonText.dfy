/**
 `JSON.stringify` on values that came from JSON: its text determines the value, member order
 included (RFC 8259 sections 4 to 7, ECMA-262 section 25.5.2).
 */
module JsonText {
  import opened Common
  import opened CodeUnits

  datatype Json =
    | Null
    | Bool(b: bool)
    | Num(n: int)
    | Str(s: Text)
    | Arr(items: seq<Json>)
    | Obj(fields: seq<Field>)

  /** The members of an object in the order in which the engine enumerates them. */
  datatype Field = Field(key: Text, value: Json)

  const QUOTE: CodeUnit := 34
  const COMMA: CodeUnit := 44
  const MINUS: CodeUnit := 45
  const COLON: CodeUnit := 58
  const BACKSLASH: CodeUnit := 92
  const LOWER_U: CodeUnit := 117
  const NULL_TEXT: Text := [110, 117, 108, 108]
  const TRUE_TEXT: Text := [116, 114, 117, 101]
  const FALSE_TEXT: Text := [102, 97, 108, 115, 101]

  predicate High(c: CodeUnit) { 0xD800 <= c <= 0xDBFF }

  predicate Low(c: CodeUnit) { 0xDC00 <= c <= 0xDFFF }

  function HexDigit(d: int): CodeUnit
    requires 0 <= d < 16
  {
    if d < 10 then 48 + d else 87 + d
  }

  function HexValue(c: CodeUnit): int {
    if c <= 57 then c - 48 else c - 87
  }

  /** A code unit that is not printed as itself; lone surrogates are escaped too. */
  predicate NeedsEscape(c: CodeUnit) {
    c < 32 || c == QUOTE || c == BACKSLASH || High(c) || Low(c)
  }

  function EscapeUnit(c: CodeUnit): Text {
    if !NeedsEscape(c) then [c]
    else if c == 8 then [BACKSLASH, 98]
    else if c == 9 then [BACKSLASH, 116]
    else if c == 10 then [BACKSLASH, 110]
    else if c == 12 then [BACKSLASH, 102]
    else if c == 13 then [BACKSLASH, 114]
    else if c == QUOTE || c == BACKSLASH then [BACKSLASH, c]
    else [BACKSLASH, LOWER_U, HexDigit(c / 4096), HexDigit(c / 256 % 16), HexDigit(c / 16 % 16), HexDigit(c % 16)]
  }

  /** A surrogate pair is printed verbatim. */
  function Escape(s: Text): Text {
    if s == [] then []
    else if |s| >= 2 && High(s[0]) && Low(s[1]) then [s[0], s[1]] + Escape(s[2..])
    else EscapeUnit(s[0]) + Escape(s[1..])
  }

  function Quote(s: Text): Text {
    [QUOTE] + Escape(s) + [QUOTE]
  }

  function Digits(n: nat): (t: Text)
    ensures t != [] && forall c | c in t :: 48 <= c <= 57
  {
    if n < 10 then [48 + n] else Digits(n / 10) + [48 + n % 10]
  }

  function Decimal(n: int): Text {
    if n < 0 then [MINUS] + Digits(-n) else Digits(n)
  }

  function Print(v: Json): Text
    decreases v
  {
    match v
    case Null => NULL_TEXT
    case Bool(b) => if b then TRUE_TEXT else FALSE_TEXT
    case Num(n) => Decimal(n)
    case Str(s) => Quote(s)
    case Arr(items) => [91] + PrintItems(items, true)
    case Obj(fields) => [123] + PrintFields(fields, true)
  }

  /** The remaining elements with their separators, and the closing bracket. */
  function PrintItems(items: seq<Json>, first: bool): Text
    decreases items
  {
    if items == [] then [93]
    else (if first then [] else [COMMA]) + Print(items[0]) + PrintItems(items[1..], false)
  }

  function PrintFields(fields: seq<Field>, first: bool): Text
    decreases fields
  {
    if fields == [] then [125]
    else (if first then [] else [COMMA]) + Quote(fields[0].key) + [COLON] + Print(fields[0].value) + PrintFields(fields[1..], false)
  }

  // ---------------------------------------------------------------- strings

  /** The code unit a string body begins with, and the length of its printed form. */
  function ReadUnit(t: Text): Option<(CodeUnit, nat)>
    requires t != []
  {
    if t[0] != BACKSLASH then Some((t[0], 1))
    else if |t| < 2 then None
    else if t[1] != LOWER_U then Some((Short(t[1]), 2))
    else if |t| < 6 then None
    else
      var c := 4096 * HexValue(t[2]) + 256 * HexValue(t[3]) + 16 * HexValue(t[4]) + HexValue(t[5]);
      if 0 <= c < 0x1_0000 then Some((c, 6)) else None
  }

  function Short(c: CodeUnit): CodeUnit {
    if c == 98 then 8 else if c == 116 then 9 else if c == 110 then 10 else if c == 102 then 12 else if c == 114 then 13 else c
  }

  /** Reads a string body up to its closing quote. */
  function Unescape(t: Text): Option<(Text, Text)>
    decreases |t|
  {
    if t == [] then None
    else if t[0] == QUOTE then Some(([], t[1..]))
    else
      var unit := ReadUnit(t);
      if unit.None? then None else Prepend(unit.value.0, Unescape(t[unit.value.1..]))
  }

  function Prepend(c: CodeUnit, r: Option<(Text, Text)>): Option<(Text, Text)> {
    if r.Some? then Some(([c] + r.value.0, r.value.1)) else None
  }

  lemma HexValueOfDigit(d: int)
    requires 0 <= d < 16
    ensures HexValue(HexDigit(d)) == d
  {
  }

  lemma HexDigitsOf(c: CodeUnit)
    ensures 4096 * (c / 4096) + 256 * (c / 256 % 16) + 16 * (c / 16 % 16) + c % 16 == c
  {
    assert c == 16 * (c / 16) + c % 16;
    assert c / 16 == 16 * (c / 256) + c / 16 % 16;
    assert c / 256 == 16 * (c / 4096) + c / 256 % 16;
  }

  lemma HexRoundTrip(c: CodeUnit)
    ensures 4096 * HexValue(HexDigit(c / 4096)) + 256 * HexValue(HexDigit(c / 256 % 16))
            + 16 * HexValue(HexDigit(c / 16 % 16)) + HexValue(HexDigit(c % 16)) == c
  {
    HexDigitsOf(c);
    HexValueOfDigit(c / 4096);
    HexValueOfDigit(c / 256 % 16);
    HexValueOfDigit(c / 16 % 16);
    HexValueOfDigit(c % 16);
  }

  lemma ReadEscaped(c: CodeUnit, rest: Text)
    ensures ReadUnit(EscapeUnit(c) + rest) == Some((c, |EscapeUnit(c)|))
    ensures EscapeUnit(c)[0] != QUOTE
  {
    var e := EscapeUnit(c);
    if |e| == 6 {
      HexRoundTrip(c);
    }
  }

  /** One unit printed either verbatim or escaped is read back as that unit. */
  lemma UnescapeUnit(c: CodeUnit, e: Text, rest: Text)
    requires e == EscapeUnit(c) || (e == [c] && c != QUOTE && c != BACKSLASH)
    ensures Unescape(e + rest) == Prepend(c, Unescape(rest))
  {
    ReadEscaped(c, rest);
    assert (e + rest)[|e|..] == rest;
    assert (e + rest)[0] == e[0];
  }

  lemma UnescapeStep(s: Text, n: nat, tail: Text)
    requires s != [] && n == if |s| >= 2 && High(s[0]) && Low(s[1]) then 2 else 1
    requires Unescape(Escape(s[n..]) + tail).Some?
    ensures Unescape(Escape(s) + tail) == Some((s[..n] + Unescape(Escape(s[n..]) + tail).value.0, Unescape(Escape(s[n..]) + tail).value.1))
  {
    var more := Escape(s[n..]) + tail;
    if n == 2 {
      UnescapeUnit(s[1], [s[1]], more);
      UnescapeUnit(s[0], [s[0]], [s[1]] + more);
      Assoc([s[0], s[1]], Escape(s[2..]), tail);
      Assoc([s[0]], [s[1]], more);
      Assoc([s[0]], [s[1]], Unescape(more).value.0);
      assert [s[0]] + [s[1]] == [s[0], s[1]] == s[..2];
    } else {
      UnescapeUnit(s[0], EscapeUnit(s[0]), more);
      Assoc(EscapeUnit(s[0]), Escape(s[1..]), tail);
      assert [s[0]] == s[..1];
    }
  }

  lemma {:induction false} UnescapeEscape(s: Text, rest: Text)
    ensures Unescape(Escape(s) + ([QUOTE] + rest)) == Some((s, rest))
  {
    if s == [] {
      assert Escape(s) + ([QUOTE] + rest) == [QUOTE] + rest;
      DropPrefix([QUOTE], rest);
    } else {
      var n := if |s| >= 2 && High(s[0]) && Low(s[1]) then 2 else 1;
      UnescapeEscape(s[n..], rest);
      UnescapeStep(s, n, [QUOTE] + rest);
      assert s[..n] + s[n..] == s;
    }
  }

  /** A quoted string ends where it says and determines the string. */
  lemma QuotePrefix(s: Text, t: Text, x: Text, y: Text)
    requires Quote(s) + x == Quote(t) + y
    ensures s == t && x == y
  {
    UnescapeEscape(s, x);
    UnescapeEscape(t, y);
    Assoc4([QUOTE], Escape(s), [QUOTE], x);
    Assoc4([QUOTE], Escape(t), [QUOTE], y);
    SplitAt([QUOTE], Escape(s) + ([QUOTE] + x), [QUOTE], Escape(t) + ([QUOTE] + y));
  }

  // ---------------------------------------------------------------- numbers

  /** The text after a number does not go on with a digit. */
  predicate Delimited(t: Text) {
    t == [] || !(48 <= t[0] <= 57)
  }

  lemma {:induction false} DigitsInjective(m: nat, n: nat)
    requires Digits(m) == Digits(n)
    ensures m == n
  {
    assert Digits(m)[|Digits(m)| - 1] == 48 + m % 10;
    assert Digits(n)[|Digits(n)| - 1] == 48 + n % 10;
    if m >= 10 && n >= 10 {
      assert Digits(m / 10) == Digits(m)[..|Digits(m)| - 1];
      assert Digits(n / 10) == Digits(n)[..|Digits(n)| - 1];
      DigitsInjective(m / 10, n / 10);
    }
  }

  function LeadingDigits(t: Text): nat {
    if t != [] && 48 <= t[0] <= 57 then 1 + LeadingDigits(t[1..]) else 0
  }

  lemma {:induction false} LeadingDigitsOf(d: Text, x: Text)
    requires Delimited(x) && forall c | c in d :: 48 <= c <= 57
    ensures LeadingDigits(d + x) == |d|
  {
    if d == [] {
      assert d + x == x;
    } else {
      assert d[0] in d;
      assert (d + x)[1..] == d[1..] + x;
      assert forall c | c in d[1..] :: c in d;
      LeadingDigitsOf(d[1..], x);
    }
  }

  lemma DigitsPrefix(m: nat, n: nat, x: Text, y: Text)
    requires Digits(m) + x == Digits(n) + y && Delimited(x) && Delimited(y)
    ensures m == n && x == y
  {
    LeadingDigitsOf(Digits(m), x);
    LeadingDigitsOf(Digits(n), y);
    SplitAt(Digits(m), x, Digits(n), y);
    DigitsInjective(m, n);
  }

  // ---------------------------------------------------------------- values

  /** The first code unit tells the kinds of value apart. */
  function Kind(v: Json): int {
    match v
    case Null => 0
    case Bool(b) => if b then 1 else 2
    case Num(n) => 3
    case Str(_) => 4
    case Arr(_) => 5
    case Obj(_) => 6
  }

  function KindOf(c: CodeUnit): int {
    if c == 110 then 0 else if c == 116 then 1 else if c == 102 then 2
    else if c == MINUS || 48 <= c <= 57 then 3
    else if c == QUOTE then 4 else if c == 91 then 5 else if c == 123 then 6 else 7
  }

  lemma FirstUnit(v: Json)
    ensures Print(v) != [] && KindOf(Print(v)[0]) == Kind(v)
  {
    if v.Num? {
      FirstUnitOfNumber(v.n);
    }
  }

  lemma FirstUnitOfNumber(n: int)
    ensures Decimal(n) != [] && (Decimal(n)[0] == MINUS <==> n < 0)
    ensures n >= 0 ==> 48 <= Decimal(n)[0] <= 57
  {
    if n >= 0 {
      assert Digits(n)[0] in Digits(n);
    }
  }

  lemma NumPrefix(m: int, n: int, x: Text, y: Text)
    requires Decimal(m) + x == Decimal(n) + y && Delimited(x) && Delimited(y)
    ensures m == n && x == y
  {
    FirstUnitOfNumber(m);
    FirstUnitOfNumber(n);
    DropPrefix(Decimal(m), x);
    DropPrefix(Decimal(n), y);
    if m < 0 {
      Uncons(MINUS, Digits(-m), x, Digits(-n), y);
      DigitsPrefix(-m, -n, x, y);
    } else {
      DigitsPrefix(m, n, x, y);
    }
  }

  lemma SameKind(a: Json, b: Json, x: Text, y: Text)
    requires Print(a) + x == Print(b) + y
    ensures Kind(a) == Kind(b)
  {
    FirstUnit(a);
    FirstUnit(b);
    DropPrefix(Print(a), x);
    DropPrefix(Print(b), y);
  }

  lemma Uncons(c: CodeUnit, s: Text, x: Text, t: Text, y: Text)
    requires ([c] + s) + x == ([c] + t) + y
    ensures s + x == t + y
  {
    Assoc([c], s, x);
    Assoc([c], t, y);
    SplitAt([c], s + x, [c], t + y);
  }

  lemma {:induction false} PrintPrefix(a: Json, b: Json, x: Text, y: Text)
    requires Print(a) + x == Print(b) + y && Delimited(x) && Delimited(y)
    ensures a == b && x == y
    decreases a, 1
  {
    SameKind(a, b, x, y);
    if a.Num? {
      NumPrefix(a.n, b.n, x, y);
    } else if a.Str? {
      QuotePrefix(a.s, b.s, x, y);
    } else if a.Arr? {
      Uncons(91, PrintItems(a.items, true), x, PrintItems(b.items, true), y);
      ItemsPrefix(a.items, b.items, true, x, y);
    } else if a.Obj? {
      Uncons(123, PrintFields(a.fields, true), x, PrintFields(b.fields, true), y);
      FieldsPrefix(a.fields, b.fields, true, x, y);
    } else {
      assert a == b;
      SplitAt(Print(a), x, Print(b), y);
    }
  }

  function Separator(first: bool): Text {
    if first then [] else [COMMA]
  }

  lemma UnfoldItems(items: seq<Json>, first: bool, x: Text)
    ensures items == [] ==> PrintItems(items, first) + x == [93] + x
    ensures items != [] ==>
              PrintItems(items, first) + x == Separator(first) + (Print(items[0]) + (PrintItems(items[1..], false) + x))
  {
    if items != [] {
      Assoc4(Separator(first), Print(items[0]), PrintItems(items[1..], false), x);
    }
  }

  lemma RestIsDelimited(items: seq<Json>, fields: seq<Field>, x: Text)
    ensures Delimited(PrintItems(items, false) + x) && Delimited(PrintFields(fields, false) + x)
  {
  }

  /** A closing bracket comes first exactly when no element is left. */
  lemma FirstOfItems(items: seq<Json>, first: bool, x: Text)
    ensures PrintItems(items, first) != []
    ensures (PrintItems(items, first) + x)[0] == 93 <==> items == []
  {
    if items != [] {
      FirstUnit(items[0]);
      assert PrintItems(items, true) == Print(items[0]) + PrintItems(items[1..], false);
      assert PrintItems(items, false)[0] == COMMA;
    }
    DropPrefix(PrintItems(items, first), x);
  }

  lemma {:induction false} ItemsPrefix(a: seq<Json>, b: seq<Json>, first: bool, x: Text, y: Text)
    requires PrintItems(a, first) + x == PrintItems(b, first) + y
    ensures a == b && x == y
    decreases a, 0
  {
    FirstOfItems(a, first, x);
    FirstOfItems(b, first, y);
    UnfoldItems(a, first, x);
    UnfoldItems(b, first, y);
    if a == [] {
      SplitAt([93], x, [93], y);
    } else {
      var moreA, moreB := PrintItems(a[1..], false) + x, PrintItems(b[1..], false) + y;
      SplitAt(Separator(first), Print(a[0]) + moreA, Separator(first), Print(b[0]) + moreB);
      RestIsDelimited(a[1..], [], x);
      RestIsDelimited(b[1..], [], y);
      PrintPrefix(a[0], b[0], moreA, moreB);
      ItemsPrefix(a[1..], b[1..], false, x, y);
      assert a == [a[0]] + a[1..] && b == [b[0]] + b[1..];
    }
  }

  lemma UnfoldFields(fields: seq<Field>, first: bool, x: Text)
    ensures fields == [] ==> PrintFields(fields, first) + x == [125] + x
    ensures fields != [] ==>
              var value := Print(fields[0].value) + (PrintFields(fields[1..], false) + x);
              PrintFields(fields, first) + x == Separator(first) + (Quote(fields[0].key) + ([COLON] + value))
  {
    if fields != [] {
      var value := Print(fields[0].value);
      var more := PrintFields(fields[1..], false);
      Assoc4(Separator(first) + Quote(fields[0].key), [COLON], value, more);
      Assoc(Separator(first) + Quote(fields[0].key), [COLON] + (value + more), x);
      Assoc4(Separator(first), Quote(fields[0].key), [COLON] + (value + more), x);
      Assoc4([COLON], value, more, x);
      Assoc([COLON], value + more, x);
      Assoc(value, more, x);
    }
  }

  lemma {:induction false} FieldsPrefix(a: seq<Field>, b: seq<Field>, first: bool, x: Text, y: Text)
    requires PrintFields(a, first) + x == PrintFields(b, first) + y
    ensures a == b && x == y
    decreases a, 0
  {
    UnfoldFields(a, first, x);
    UnfoldFields(b, first, y);
    assert (PrintFields(a, first) + x)[0] == (PrintFields(b, first) + y)[0];
    if a == [] {
      SplitAt([125], x, [125], y);
    } else {
      var moreA, moreB := PrintFields(a[1..], false) + x, PrintFields(b[1..], false) + y;
      var valueA, valueB := Print(a[0].value) + moreA, Print(b[0].value) + moreB;
      SplitAt(Separator(first), Quote(a[0].key) + ([COLON] + valueA), Separator(first), Quote(b[0].key) + ([COLON] + valueB));
      QuotePrefix(a[0].key, b[0].key, [COLON] + valueA, [COLON] + valueB);
      SplitAt([COLON], valueA, [COLON], valueB);
      RestIsDelimited([], a[1..], x);
      RestIsDelimited([], b[1..], y);
      PrintPrefix(a[0].value, b[0].value, moreA, moreB);
      FieldsPrefix(a[1..], b[1..], false, x, y);
      assert a == [a[0]] + a[1..] && b == [b[0]] + b[1..];
    }
  }

  /** The printer is injective. */
  lemma PrintInjective(a: Json, b: Json)
    requires Print(a) == Print(b)
    ensures a == b
  {
    assert Print(a) + [] == Print(b) + [];
    PrintPrefix(a, b, [], []);
  }

  // ---------------------------------------------------------------- the texts themselves

  /** What `join(separator)` makes of texts. */
  function Join(separator: Text, texts: seq<Text>): Text {
    if texts == [] then [] else if |texts| == 1 then texts[0] else texts[0] + separator + Join(separator, texts[1..])
  }

  function ItemTexts(items: seq<Json>): (texts: seq<Text>)
    ensures |texts| == |items| && forall i | 0 <= i < |items| :: texts[i] == Print(items[i])
  {
    if items == [] then [] else [Print(items[0])] + ItemTexts(items[1..])
  }

  function FieldText(f: Field): Text {
    Quote(f.key) + Ascii(":") + Print(f.value)
  }

  function FieldTexts(fields: seq<Field>): (texts: seq<Text>)
    ensures |texts| == |fields| && forall i | 0 <= i < |fields| :: texts[i] == FieldText(fields[i])
  {
    if fields == [] then [] else [FieldText(fields[0])] + FieldTexts(fields[1..])
  }

  lemma FirstField(fields: seq<Field>, first: bool)
    requires fields != []
    ensures PrintFields(fields, first) == (if first then [] else Ascii(",")) + (FieldText(fields[0]) + PrintFields(fields[1..], false))
  {
    var key, value, more := Quote(fields[0].key), Print(fields[0].value), PrintFields(fields[1..], false);
    assert Ascii(",") == [COMMA] && Ascii(":") == [COLON];
    var separator := if first then [] else [COMMA];
    Assoc4(separator, key, [COLON], value);
    Assoc(key, [COLON], value);
    Assoc(separator, key + [COLON] + value, more);
  }

  lemma FirstItem(items: seq<Json>, first: bool)
    requires items != []
    ensures PrintItems(items, first) == (if first then [] else Ascii(",")) + (Print(items[0]) + PrintItems(items[1..], false))
  {
    assert Ascii(",") == [COMMA];
    Assoc(if first then [] else [COMMA], Print(items[0]), PrintItems(items[1..], false));
  }

  lemma {:induction false} ItemsJoined(items: seq<Json>)
    ensures items != [] ==> PrintItems(items, true) == Join(Ascii(","), ItemTexts(items)) + Ascii("]")
    ensures items != [] ==> PrintItems(items, false) == Ascii(",") + PrintItems(items, true)
    ensures items == [] ==> PrintItems(items, true) == PrintItems(items, false) == Ascii("]")
  {
    if items != [] {
      var head, rest := Print(items[0]), items[1..];
      ItemsJoined(rest);
      FirstItem(items, true);
      FirstItem(items, false);
      assert [] + (head + PrintItems(rest, false)) == head + PrintItems(rest, false);
      assert ItemTexts(items) == [head] + ItemTexts(rest);
      if rest != [] {
        Assoc4(head, Ascii(","), Join(Ascii(","), ItemTexts(rest)), Ascii("]"));
        Assoc(head, Ascii(","), PrintItems(rest, true));
      }
    }
  }

  lemma {:induction false} FieldsJoined(fields: seq<Field>)
    ensures fields != [] ==> PrintFields(fields, true) == Join(Ascii(","), FieldTexts(fields)) + Ascii("}")
    ensures fields != [] ==> PrintFields(fields, false) == Ascii(",") + PrintFields(fields, true)
    ensures fields == [] ==> PrintFields(fields, true) == PrintFields(fields, false) == Ascii("}")
  {
    if fields != [] {
      var head, rest := FieldText(fields[0]), fields[1..];
      FieldsJoined(rest);
      FirstField(fields, true);
      FirstField(fields, false);
      assert [] + (head + PrintFields(rest, false)) == head + PrintFields(rest, false);
      assert FieldTexts(fields) == [head] + FieldTexts(rest);
      if rest != [] {
        Assoc4(head, Ascii(","), Join(Ascii(","), FieldTexts(rest)), Ascii("}"));
        Assoc(head, Ascii(","), PrintFields(rest, true));
      }
    }
  }

  lemma ArrayForm(items: seq<Json>)
    ensures Print(Arr(items)) == Ascii("[") + Join(Ascii(","), ItemTexts(items)) + Ascii("]")
  {
    var inner := Join(Ascii(","), ItemTexts(items));
    ItemsJoined(items);
    assert Ascii("[") == [91];
    assert PrintItems(items, true) == inner + Ascii("]");
    Assoc([91], inner, Ascii("]"));
  }

  lemma ObjectForm(fields: seq<Field>)
    ensures Print(Obj(fields)) == Ascii("{") + Join(Ascii(","), FieldTexts(fields)) + Ascii("}")
  {
    var inner := Join(Ascii(","), FieldTexts(fields));
    FieldsJoined(fields);
    assert Ascii("{") == [123];
    assert PrintFields(fields, true) == inner + Ascii("}");
    Assoc([123], inner, Ascii("}"));
  }

  /** The grammar of values (sections 3 to 5 of RFC 8259) without white space. */
  lemma PrintedForm(v: Json)
    ensures v.Null? ==> Print(v) == Ascii("null")
    ensures v.Bool? ==> Print(v) == if v.b then Ascii("true") else Ascii("false")
    ensures v.Arr? ==> Print(v) == Ascii("[") + Join(Ascii(","), ItemTexts(v.items)) + Ascii("]")
    ensures v.Obj? ==> Print(v) == Ascii("{") + Join(Ascii(","), FieldTexts(v.fields)) + Ascii("}")
  {
    if v.Arr? {
      ArrayForm(v.items);
    } else if v.Obj? {
      ObjectForm(v.fields);
    } else {
      LiteralForms();
    }
  }

  lemma LiteralForms()
    ensures NULL_TEXT == Ascii("null") && TRUE_TEXT == Ascii("true") && FALSE_TEXT == Ascii("false")
  {
  }

  /** The value of decimal digits. */
  function DecimalValue(digits: Text): int {
    if digits == [] then 0 else 10 * DecimalValue(digits[..|digits| - 1]) + (digits[|digits| - 1] as int - 48)
  }

  /** Canonical decimals: digits only and no leading zero. */
  predicate Canonical(digits: Text) {
    digits != [] && (forall c | c in digits :: 48 <= c <= 57) && (digits[0] == 48 ==> |digits| == 1)
  }

  /** A printed number is its canonical decimal. */
  lemma {:induction false} DigitsMean(n: nat)
    ensures DecimalValue(Digits(n)) == n && Canonical(Digits(n))
    ensures Digits(n)[0] == 48 <==> n == 0
  {
    var d := Digits(n);
    if n >= 10 {
      DigitsMean(n / 10);
      assert d[..|d| - 1] == Digits(n / 10) && d[|d| - 1] == 48 + n % 10;
    } else {
      assert d[..0] == [];
    }
  }

  /** No other text of digits is the decimal of a number. */
  lemma {:induction false} CanonicalIsDigits(d: Text)
    requires Canonical(d)
    ensures DecimalValue(d) >= 0 && Digits(DecimalValue(d)) == d
    ensures d[0] == 48 <==> DecimalValue(d) == 0
  {
    var init, last := d[..|d| - 1], d[|d| - 1];
    assert last in d && forall c | c in init :: c in d;
    if init != [] {
      CanonicalIsDigits(init);
      assert d == init + [last];
      assert DecimalValue(d) / 10 == DecimalValue(init) && DecimalValue(d) % 10 == last as int - 48;
    } else {
      assert d == [last];
    }
  }

  lemma NumberForm(n: int)
    ensures Decimal(n) == (if n < 0 then Ascii("-") else []) + Digits(if n < 0 then -n else n)
  {
    assert Ascii("-") == [MINUS];
  }

  /** Escapes (section 7 of RFC 8259): the short ones, then \\u with four lower-case hexadecimal digits. */
  lemma EscapeForm(c: CodeUnit)
    ensures EscapeUnit(8) == Ascii("\\b") && EscapeUnit(9) == Ascii("\\t") && EscapeUnit(10) == Ascii("\\n")
    ensures EscapeUnit(12) == Ascii("\\f") && EscapeUnit(13) == Ascii("\\r")
    ensures EscapeUnit(34) == Ascii("\\\"") && EscapeUnit(92) == Ascii("\\\\")
    ensures c < 32 || 0xD800 <= c < 0xE000 ==>
              c in {8, 9, 10, 12, 13} ||
              (|EscapeUnit(c)| == 6 && EscapeUnit(c)[..2] == Ascii("\\u") && HexadecimalValue(EscapeUnit(c)[2..]) == c)
    ensures 32 <= c && c != 34 && c != 92 && !(0xD800 <= c < 0xE000) ==> EscapeUnit(c) == [c]
  {
    if (c < 32 && c !in {8, 9, 10, 12, 13}) || 0xD800 <= c < 0xE000 {
      HexDigitsOf(c);
      var e := EscapeUnit(c);
      assert e[..2] == [BACKSLASH, LOWER_U] && e[2..] == [e[2], e[3], e[4], e[5]];
      HexadecimalOfFour(c / 4096, c / 256 % 16, c / 16 % 16, c % 16);
    }
  }

  const HEX_DIGITS: Text := Ascii("0123456789abcdef")

  /** The value of hexadecimal digits, by their place in the list of digits. */
  function HexadecimalValue(digits: Text): int {
    if digits == [] then 0
    else 16 * HexadecimalValue(digits[..|digits| - 1]) + Place(HEX_DIGITS, digits[|digits| - 1])
  }

  function Place(list: Text, c: CodeUnit): int {
    if list == [] || list[0] == c then 0 else 1 + Place(list[1..], c)
  }

  lemma {:induction false} PlaceOf(list: Text, i: nat)
    requires i < |list| && NoDuplicates(list)
    ensures Place(list, list[i]) == i
  {
    if i > 0 {
      assert forall j, k | 0 <= j < k < |list[1..]| :: list[1..][j] != list[1..][k];
      PlaceOf(list[1..], i - 1);
      assert list[1..][i - 1] == list[i];
    }
  }

  lemma HexDigitPlace(d: int)
    requires 0 <= d < 16
    ensures HexDigit(d) == HEX_DIGITS[d] && Place(HEX_DIGITS, HexDigit(d)) == d
  {
    PlaceOf(HEX_DIGITS, d);
  }

  lemma HexadecimalOfFour(a: int, b: int, c: int, d: int)
    requires 0 <= a < 16 && 0 <= b < 16 && 0 <= c < 16 && 0 <= d < 16
    ensures HexadecimalValue([HexDigit(a), HexDigit(b), HexDigit(c), HexDigit(d)]) == 4096 * a + 256 * b + 16 * c + d
  {
    var t := [HexDigit(a), HexDigit(b), HexDigit(c), HexDigit(d)];
    HexDigitPlace(a);
    HexDigitPlace(b);
    HexDigitPlace(c);
    HexDigitPlace(d);
    assert t[..3] == [t[0], t[1], t[2]] && t[..3][..2] == [t[0], t[1]] && t[..3][..2][..1] == [t[0]] && t[..3][..2][..1][..0] == [];
    assert HexadecimalValue(t[..3][..2][..1]) == a;
    assert HexadecimalValue(t[..3][..2]) == 16 * a + b;
    assert HexadecimalValue(t[..3]) == 256 * a + 16 * b + c;
  }

  /** A quoted string is the string between quotes exactly when nothing in it calls for an escape. */
  lemma QuotedPlain(s: Text)
    requires forall c | c in s :: 32 <= c && c != 34 && c != 92 && !(0xD800 <= c < 0xE000)
    ensures Quote(s) == Ascii("\"") + s + Ascii("\"")
  {
    EscapePlain(s);
    assert Ascii("\"") == [QUOTE];
  }

  lemma {:induction false} EscapePlain(s: Text)
    requires forall c | c in s :: 32 <= c && c != 34 && c != 92 && !(0xD800 <= c < 0xE000)
    ensures Escape(s) == s
  {
    if s != [] {
      assert s[0] in s && forall c | c in s[1..] :: c in s;
      EscapeForm(s[0]);
      EscapePlain(s[1..]);
    }
  }
}
