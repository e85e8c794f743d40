/** `redactSecrets`: recursive masking of nested log values. */
module Redaction {
  import opened Common
  import opened CodeUnits
  import opened JsonText

  /** Which bare strings look like secrets; the shapes themselves do not matter here. */
  type Shape = Text -> bool

  const MASK: Text := [42, 42, 42]

  /** Begins with `sk-` or `sk_`. */
  predicate SkPrefixed(s: Text) {
    |s| >= 3 && s[0] == 115 && s[1] == 107 && (s[2] == 45 || s[2] == 95)
  }

  function Shown(s: Text): nat {
    if SkPrefixed(s) then 3 else 2
  }

  /** Short strings vanish; of longer ones the first two characters stay, three after `sk-` or `sk_`, and the last four. */
  lemma MaskShows(s: Text)
    ensures |s| <= 6 ==> MaskString(s) == Ascii("***")
    ensures |s| > 6 && s[..3] != Ascii("sk-") && s[..3] != Ascii("sk_") ==> MaskString(s) == s[..2] + Ascii("***") + s[|s| - 4..]
    ensures |s| > 6 && (s[..3] == Ascii("sk-") || s[..3] == Ascii("sk_")) ==> MaskString(s) == s[..3] + Ascii("***") + s[|s| - 4..]
  {
    assert MASK == Ascii("***");
    assert Ascii("sk-") == [115, 107, 45] && Ascii("sk_") == [115, 107, 95];
    assert |s| > 6 ==> s[..3] == [s[0], s[1], s[2]];
  }

  function MaskString(s: Text): (m: Text)
    ensures m == MASK || (|m| <= 10 && |m| >= 9 && m[|m| - 7..|m| - 4] == MASK)
  {
    if |s| <= 6 then MASK
    else
      var prefix := s[..Shown(s)];
      var m := prefix + MASK + s[|s| - 4..];
      assert m[|prefix|..|prefix| + 3] == MASK;
      m
  }

  function ToLower(c: CodeUnit): CodeUnit {
    if 65 <= c <= 90 then c + 32 else c
  }

  predicate OccursAt(s: Text, word: Text, i: nat) {
    i + |word| <= |s| && forall j | 0 <= j < |word| :: ToLower(s[i + j]) == word[j]
  }

  /** `word` occurs in `s`, letter case aside. */
  predicate ContainsIgnoringCase(s: Text, word: Text) {
    exists i: nat | i <= |s| :: OccursAt(s, word, i)
  }

  const SENSITIVE_WORDS: seq<Text> :=
    [Ascii("key"), Ascii("token"), Ascii("secret"), Ascii("password"), Ascii("authorization"), Ascii("cookie"), Ascii("auth")]

  predicate SensitiveKey(key: Text) {
    exists i | 0 <= i < |SENSITIVE_WORDS| :: ContainsIgnoringCase(key, SENSITIVE_WORDS[i])
  }

  /** `name` is the last element of the key path: a member key, an index, or empty at the root. */
  function RedactAny(v: Json, name: Text, shape: Shape): Json
    decreases v, 1
  {
    match v
    case Str(s) => if SensitiveKey(name) || shape(s) then Str(MaskString(s)) else v
    case Arr(items) => Arr(RedactItems(items, 0, shape))
    case Obj(fields) => Obj(RedactFields(fields, shape))
    case _ => v
  }

  function RedactItems(items: seq<Json>, index: nat, shape: Shape): (r: seq<Json>)
    ensures |r| == |items|
    decreases items, 0
  {
    if items == [] then [] else [RedactAny(items[0], Digits(index), shape)] + RedactItems(items[1..], index + 1, shape)
  }

  function RedactField(f: Field, shape: Shape): Field
    decreases f, 0
  {
    if SensitiveKey(f.key) then
      if f.value.Str? then Field(f.key, Str(MaskString(f.value.s)))
      else if f.value.Arr? || f.value.Obj? then Field(f.key, RedactAny(f.value, f.key, shape))
      else Field(f.key, Str(MASK))
    else Field(f.key, RedactAny(f.value, f.key, shape))
  }

  function RedactFields(fields: seq<Field>, shape: Shape): (r: seq<Field>)
    ensures |r| == |fields|
    decreases fields, 0
  {
    if fields == [] then [] else [RedactField(fields[0], shape)] + RedactFields(fields[1..], shape)
  }

  function RedactSecrets(v: Json, shape: Shape): Json {
    RedactAny(v, [], shape)
  }

  // ---------------------------------------------------------------- idempotence

  lemma MaskIdempotent(s: Text)
    ensures MaskString(MaskString(s)) == MaskString(s)
  {
    if |s| > 6 {
      var prefix, tail := s[..Shown(s)], s[|s| - 4..];
      var m := prefix + MASK + tail;
      assert m[..|prefix|] == prefix && m[|m| - 4..] == tail;
      assert m[0] == s[0] && m[1] == s[1] && m[2] == if SkPrefixed(s) then s[2] else 42;
    }
  }

  /** Redacting twice is redacting once, whatever strings look like secrets. */
  lemma {:induction false} RedactIdempotent(v: Json, name: Text, shape: Shape)
    ensures RedactAny(RedactAny(v, name, shape), name, shape) == RedactAny(v, name, shape)
    decreases v, 1
  {
    match v
    case Str(s) => MaskIdempotent(s);
    case Arr(items) => RedactItemsIdempotent(items, 0, shape);
    case Obj(fields) => RedactFieldsIdempotent(fields, shape);
    case _ =>
  }

  lemma {:induction false} RedactItemsIdempotent(items: seq<Json>, index: nat, shape: Shape)
    ensures RedactItems(RedactItems(items, index, shape), index, shape) == RedactItems(items, index, shape)
    decreases items, 0
  {
    if items != [] {
      var once := RedactItems(items, index, shape);
      RedactIdempotent(items[0], Digits(index), shape);
      RedactItemsIdempotent(items[1..], index + 1, shape);
      assert once[1..] == RedactItems(items[1..], index + 1, shape);
    }
  }

  lemma {:induction false} RedactFieldIdempotent(f: Field, shape: Shape)
    ensures RedactField(RedactField(f, shape), shape) == RedactField(f, shape)
    decreases f, 0
  {
    if SensitiveKey(f.key) && f.value.Str? {
      MaskIdempotent(f.value.s);
    } else {
      RedactIdempotent(f.value, f.key, shape);
    }
  }

  lemma {:induction false} RedactFieldsIdempotent(fields: seq<Field>, shape: Shape)
    ensures RedactFields(RedactFields(fields, shape), shape) == RedactFields(fields, shape)
    decreases fields, 0
  {
    if fields != [] {
      var once := RedactFields(fields, shape);
      RedactFieldIdempotent(fields[0], shape);
      RedactFieldsIdempotent(fields[1..], shape);
      assert once[1..] == RedactFields(fields[1..], shape);
    }
  }

  // ---------------------------------------------------------------- shape and secrecy

  /**
   Same tree: arrays keep their lengths, objects their keys in order, other values may only turn
   into strings where a sensitive key holds them.
   */
  predicate SameTree(v: Json, r: Json)
    decreases v
  {
    match v
    case Arr(items) => r.Arr? && |r.items| == |items| && forall i | 0 <= i < |items| :: SameTree(items[i], r.items[i])
    case Obj(fields) =>
      r.Obj? && |r.fields| == |fields| &&
      forall i | 0 <= i < |fields| ::
        && r.fields[i].key == fields[i].key
        && SameTree(fields[i].value, r.fields[i].value)
    case _ => !r.Arr? && !r.Obj?
  }

  lemma {:induction false} RedactKeepsTree(v: Json, name: Text, shape: Shape)
    ensures SameTree(v, RedactAny(v, name, shape))
    decreases v, 1
  {
    if v.Arr? {
      RedactItemsKeepTree(v.items, 0, shape);
    } else if v.Obj? {
      RedactFieldsKeepTree(v.fields, shape);
    }
  }

  lemma {:induction false} RedactItemsKeepTree(items: seq<Json>, index: nat, shape: Shape)
    ensures forall i | 0 <= i < |items| :: SameTree(items[i], RedactItems(items, index, shape)[i])
    decreases items, 0
  {
    if items != [] {
      RedactKeepsTree(items[0], Digits(index), shape);
      RedactItemsKeepTree(items[1..], index + 1, shape);
      forall i | 0 <= i < |items| ensures SameTree(items[i], RedactItems(items, index, shape)[i]) {
        assert i > 0 ==> RedactItems(items, index, shape)[i] == RedactItems(items[1..], index + 1, shape)[i - 1];
      }
    }
  }

  lemma {:induction false} RedactFieldsKeepTree(fields: seq<Field>, shape: Shape)
    ensures forall i | 0 <= i < |fields| ::
              && RedactFields(fields, shape)[i].key == fields[i].key
              && SameTree(fields[i].value, RedactFields(fields, shape)[i].value)
    decreases fields, 0
  {
    if fields != [] {
      RedactKeepsTree(fields[0].value, fields[0].key, shape);
      RedactFieldsKeepTree(fields[1..], shape);
      forall i | 0 <= i < |fields|
        ensures RedactFields(fields, shape)[i].key == fields[i].key
        ensures SameTree(fields[i].value, RedactFields(fields, shape)[i].value)
      {
        assert i > 0 ==> RedactFields(fields, shape)[i] == RedactFields(fields[1..], shape)[i - 1];
      }
    }
  }

  /** What a masked string shows: nothing, or at most three characters, the mask, and the last four. */
  predicate Masked(s: Text) {
    s == MASK || (9 <= |s| <= 10 && s[|s| - 7..|s| - 4] == MASK)
  }

  /** At every depth a value directly under a sensitive key is a masked string or a container. */
  predicate Hidden(v: Json)
    decreases v, 1
  {
    match v
    case Arr(items) => forall i | 0 <= i < |items| :: Hidden(items[i])
    case Obj(fields) => forall i | 0 <= i < |fields| :: HiddenField(fields[i])
    case _ => true
  }

  predicate HiddenField(f: Field)
    decreases f, 0
  {
    && Hidden(f.value)
    && (SensitiveKey(f.key) ==> f.value.Arr? || f.value.Obj? || (f.value.Str? && Masked(f.value.s)))
  }

  lemma {:induction false} RedactHides(v: Json, name: Text, shape: Shape)
    ensures Hidden(RedactAny(v, name, shape))
    decreases v, 1
  {
    if v.Arr? {
      RedactItemsHide(v.items, 0, shape);
    } else if v.Obj? {
      RedactFieldsHide(v.fields, shape);
    }
  }

  lemma {:induction false} RedactItemsHide(items: seq<Json>, index: nat, shape: Shape)
    ensures forall i | 0 <= i < |items| :: Hidden(RedactItems(items, index, shape)[i])
    decreases items, 0
  {
    if items != [] {
      RedactHides(items[0], Digits(index), shape);
      RedactItemsHide(items[1..], index + 1, shape);
      forall i | 0 <= i < |items| ensures Hidden(RedactItems(items, index, shape)[i]) {
        assert i > 0 ==> RedactItems(items, index, shape)[i] == RedactItems(items[1..], index + 1, shape)[i - 1];
      }
    }
  }

  lemma {:induction false} RedactFieldsHide(fields: seq<Field>, shape: Shape)
    ensures forall i | 0 <= i < |fields| :: HiddenField(RedactFields(fields, shape)[i])
    decreases fields, 0
  {
    if fields != [] {
      RedactHides(fields[0].value, fields[0].key, shape);
      RedactFieldsHide(fields[1..], shape);
      forall i | 0 <= i < |fields| ensures HiddenField(RedactFields(fields, shape)[i]) {
        assert i > 0 ==> RedactFields(fields, shape)[i] == RedactFields(fields[1..], shape)[i - 1];
      }
    }
  }

  // ---------------------------------------------------------------- which strings come out masked

  lemma WordsAreLetters(i: nat)
    requires i < |SENSITIVE_WORDS|
    ensures SENSITIVE_WORDS[i] != [] && 97 <= SENSITIVE_WORDS[i][0] <= 122
  {
  }

  /** An array index is never a sensitive key. */
  lemma IndexIsNotSensitive(n: nat)
    ensures !SensitiveKey(Digits(n))
  {
    assert forall k | 0 <= k < |Digits(n)| :: Digits(n)[k] in Digits(n);
    forall i, k: nat | 0 <= i < |SENSITIVE_WORDS| && k <= |Digits(n)| ensures !OccursAt(Digits(n), SENSITIVE_WORDS[i], k) {
      WordsAreLetters(i);
      assert k + |SENSITIVE_WORDS[i]| <= |Digits(n)| ==> ToLower(Digits(n)[k + 0]) <= 57;
    }
  }

  /** In an array a string is masked exactly when it looks like a secret, whatever key holds the array. */
  lemma {:induction false} RedactItemsAt(items: seq<Json>, index: nat, shape: Shape, i: nat)
    requires i < |items| && items[i].Str?
    ensures RedactItems(items, index, shape)[i] == if shape(items[i].s) then Str(MaskString(items[i].s)) else items[i]
    decreases items
  {
    IndexIsNotSensitive(index);
    if i > 0 {
      RedactItemsAt(items[1..], index + 1, shape, i - 1);
    }
  }

  /** Every string of `v` below a sensitive key has become its mask in `r`; `below` says whether `v` itself is below one. */
  predicate ComesOutMasked(v: Json, r: Json, below: bool)
    requires SameTree(v, r)
    decreases v
  {
    match v
    case Str(s) => below ==> r == Str(MaskString(s))
    case Arr(items) => forall i | 0 <= i < |items| :: ComesOutMasked(items[i], r.items[i], below)
    case Obj(fields) =>
      forall i | 0 <= i < |fields| :: ComesOutMasked(fields[i].value, r.fields[i].value, below || SensitiveKey(fields[i].key))
    case _ => true
  }

  /** Every string below a sensitive key is directly under one, looks like a secret, or is its own mask. */
  predicate Covered(v: Json, below: bool, direct: bool, shape: Shape)
    decreases v
  {
    match v
    case Str(s) => below ==> direct || shape(s) || MaskString(s) == s
    case Arr(items) => forall i | 0 <= i < |items| :: Covered(items[i], below, false, shape)
    case Obj(fields) =>
      forall i | 0 <= i < |fields| ::
        var sensitive := SensitiveKey(fields[i].key);
        Covered(fields[i].value, below || sensitive, sensitive, shape)
    case _ => true
  }

  /** A value keeps no string below a sensitive key unmasked if and only if all of those are covered. */
  lemma {:induction false} MaskedBelowIff(v: Json, name: Text, below: bool, shape: Shape)
    requires SameTree(v, RedactAny(v, name, shape))
    ensures ComesOutMasked(v, RedactAny(v, name, shape), below) <==> Covered(v, below, SensitiveKey(name), shape)
    decreases v, 1
  {
    if v.Arr? {
      var r := RedactItems(v.items, 0, shape);
      forall i | 0 <= i < |v.items| ensures ComesOutMasked(v.items[i], r[i], below) <==> Covered(v.items[i], below, false, shape) {
        ItemRedacted(v.items, 0, shape, i);
        IndexIsNotSensitive(i);
        MaskedBelowIff(v.items[i], Digits(i), below, shape);
      }
    } else if v.Obj? {
      var r := RedactFields(v.fields, shape);
      forall i | 0 <= i < |v.fields|
        ensures ComesOutMasked(v.fields[i].value, r[i].value, below || SensitiveKey(v.fields[i].key)) <==>
                Covered(v.fields[i].value, below || SensitiveKey(v.fields[i].key), SensitiveKey(v.fields[i].key), shape)
      {
        FieldRedacted(v.fields, shape, i);
        MaskedBelowIffInField(v.fields[i], below, shape);
      }
    }
  }

  lemma {:induction false} MaskedBelowIffInField(f: Field, below: bool, shape: Shape)
    requires SameTree(f.value, RedactField(f, shape).value)
    ensures var sensitive := SensitiveKey(f.key);
            ComesOutMasked(f.value, RedactField(f, shape).value, below || sensitive) <==>
            Covered(f.value, below || sensitive, sensitive, shape)
    decreases f, 0
  {
    if f.value.Arr? || f.value.Obj? || !SensitiveKey(f.key) {
      MaskedBelowIff(f.value, f.key, below || SensitiveKey(f.key), shape);
    }
  }

  lemma {:induction false} ItemRedacted(items: seq<Json>, index: nat, shape: Shape, i: nat)
    requires i < |items|
    ensures RedactItems(items, index, shape)[i] == RedactAny(items[i], Digits(index + i), shape)
    decreases i
  {
    if i > 0 {
      ItemRedacted(items[1..], index + 1, shape, i - 1);
    }
  }

  lemma {:induction false} FieldRedacted(fields: seq<Field>, shape: Shape, i: nat)
    requires i < |fields|
    ensures RedactFields(fields, shape)[i] == RedactField(fields[i], shape)
    decreases i
  {
    if i > 0 {
      FieldRedacted(fields[1..], shape, i - 1);
    }
  }

  /**
   `redactSecrets` masks every string anywhere below a sensitive key if and only if each of them is
   directly under one, looks like a secret, or is its own mask.
   */
  lemma AllMaskedIff(v: Json, shape: Shape)
    ensures SameTree(v, RedactSecrets(v, shape))
    ensures ComesOutMasked(v, RedactSecrets(v, shape), false) <==> Covered(v, false, false, shape)
  {
    RedactKeepsTree(v, [], shape);
    MaskedBelowIff(v, [], false, shape);
    if !v.Arr? && !v.Obj? {
      assert Covered(v, false, SensitiveKey([]), shape) <==> Covered(v, false, false, shape);
    }
  }

  /** The condition fails for every harmless-looking string in an array under a sensitive key. */
  lemma ArrayUnderSensitiveKeyKept(s: Text, shape: Shape)
    requires !shape(s) && MaskString(s) != s
    ensures var key := Ascii("token");
            && SensitiveKey(key)
            && RedactSecrets(Obj([Field(key, Arr([Str(s)]))]), shape) == Obj([Field(key, Arr([Str(s)]))])
            && !Covered(Obj([Field(key, Arr([Str(s)]))]), false, false, shape)
  {
    var key := Ascii("token");
    assert SENSITIVE_WORDS[1] == key && OccursAt(key, key, 0);
    RedactItemsAt([Str(s)], 0, shape, 0);
    assert RedactItems([Str(s)], 0, shape) == [Str(s)];
    var f := Field(key, Arr([Str(s)]));
    assert RedactField(f, shape) == f;
    assert RedactFields([f], shape) == [f];
    assert !Covered(Str(s), true, false, shape);
    assert !Covered(f.value, true, true, shape) by { assert f.value.items[0] == Str(s); }
    assert [f][0] == f;
  }

  // ---------------------------------------------------------------- what a mask hides

  /** Exactly which strings share a mask: short ones, and longer ones that agree at both ends. */
  lemma MaskForgetsMiddle(s: Text, t: Text)
    ensures MaskString(s) == MaskString(t) <==>
            || (|s| <= 6 && |t| <= 6)
            || (|s| > 6 && |t| > 6 && Shown(s) == Shown(t) && s[..Shown(s)] == t[..Shown(t)] && s[|s| - 4..] == t[|t| - 4..])
  {
    if |s| > 6 && |t| > 6 && MaskString(s) == MaskString(t) {
      var p, q := s[..Shown(s)], t[..Shown(t)];
      assert |p + MASK + s[|s| - 4..]| == |q + MASK + t[|t| - 4..]|;
      Assoc(p, MASK, s[|s| - 4..]);
      Assoc(q, MASK, t[|t| - 4..]);
      SplitAt(p, MASK + s[|s| - 4..], q, MASK + t[|t| - 4..]);
      SplitAt(MASK, s[|s| - 4..], MASK, t[|t| - 4..]);
    }
  }

  /** All the characters of the string are in its mask: the mask was merely put in. */
  predicate Disclosed(s: Text) {
    exists k: nat | k <= |s| :: MaskString(s) == s[..k] + MASK + s[k..]
  }

  /** The mask fails to hide anything exactly for seven-character strings in `sk-` or `sk_`, and for the empty one. */
  lemma DisclosedIff(s: Text)
    ensures Disclosed(s) <==> s == [] || (|s| == 7 && SkPrefixed(s))
  {
    if s == [] {
      assert MaskString(s) == s[..0] + MASK + s[0..];
    } else if |s| == 7 && SkPrefixed(s) {
      assert MaskString(s) == s[..3] + MASK + s[3..];
    }
  }

  function Other(c: CodeUnit): CodeUnit {
    if c == 48 then 49 else 48
  }

  /** Another string of the same length that comes out the same. */
  function Decoy(s: Text): Text
    requires s != [] && !(|s| == 7 && SkPrefixed(s))
  {
    if |s| <= 6 then s[0 := Other(s[0])]
    else if SkPrefixed(s) then s[3 := Other(s[3])]
    else s[2 := Other(s[2])]
  }

  /** A reader who knows the length can name the string behind a mask exactly when it was disclosed. */
  lemma DeterminedIff(s: Text)
    ensures Disclosed(s) <==> forall t: Text | |t| == |s| && MaskString(t) == MaskString(s) :: t == s
  {
    DisclosedIff(s);
    if !Disclosed(s) {
      var t := Decoy(s);
      MaskForgetsMiddle(s, t);
      assert t != s;
    } else {
      forall t: Text | |t| == |s| && MaskString(t) == MaskString(s) ensures t == s {
        MaskForgetsMiddle(s, t);
        assert |s| == 7 ==> s == s[..3] + s[3..] && t == t[..3] + t[3..];
      }
    }
  }

  // ---------------------------------------------------------------- which keys are sensitive

  /** The word in some mixture of letter cases. */
  predicate CaseVariant(w: Text, word: Text) {
    |w| == |word| && forall j | 0 <= j < |word| :: w[j] == word[j] || (97 <= word[j] <= 122 && w[j] == word[j] - 32)
  }

  predicate NamesSecret(word: Text) {
    || word == Ascii("key") || word == Ascii("token") || word == Ascii("secret") || word == Ascii("password")
    || word == Ascii("authorization") || word == Ascii("cookie") || word == Ascii("auth")
  }

  predicate LowerCase(word: Text) {
    forall j | 0 <= j < |word| :: 97 <= word[j] <= 122
  }

  lemma OccursIff(key: Text, word: Text, x: Text, w: Text, y: Text)
    requires key == x + w + y && LowerCase(word) && |w| == |word|
    ensures OccursAt(key, word, |x|) <==> CaseVariant(w, word)
  {
    assert forall j | 0 <= j < |w| :: key[|x| + j] == w[j];
  }

  /** A key is sensitive exactly when one of the seven words stands in it somewhere, in any letter case. */
  lemma SensitiveIff(key: Text)
    ensures SensitiveKey(key) <==>
            exists x, w, y, word :: NamesSecret(word) && key == x + w + y && CaseVariant(w, word)
  {
    WordsNameSecrets();
    if SensitiveKey(key) {
      var i :| 0 <= i < |SENSITIVE_WORDS| && ContainsIgnoringCase(key, SENSITIVE_WORDS[i]);
      var word := SENSITIVE_WORDS[i];
      var k: nat :| k <= |key| && OccursAt(key, word, k);
      var x, w, y := key[..k], key[k..k + |word|], key[k + |word|..];
      assert key == x + w + y;
      OccursIff(key, word, x, w, y);
      assert NamesSecret(word) && CaseVariant(w, word);
    }
    if x, w, y, word :| NamesSecret(word) && key == x + w + y && CaseVariant(w, word) {
      var i :| 0 <= i < |SENSITIVE_WORDS| && SENSITIVE_WORDS[i] == word;
      OccursIff(key, word, x, w, y);
      assert ContainsIgnoringCase(key, SENSITIVE_WORDS[i]);
    }
  }

  lemma WordsNameSecrets()
    ensures forall i | 0 <= i < |SENSITIVE_WORDS| :: NamesSecret(SENSITIVE_WORDS[i]) && LowerCase(SENSITIVE_WORDS[i])
    ensures forall word | NamesSecret(word) :: exists i :: 0 <= i < |SENSITIVE_WORDS| && SENSITIVE_WORDS[i] == word
  {
    assert SENSITIVE_WORDS[0] == Ascii("key") && SENSITIVE_WORDS[1] == Ascii("token") && SENSITIVE_WORDS[2] == Ascii("secret");
    assert SENSITIVE_WORDS[3] == Ascii("password") && SENSITIVE_WORDS[4] == Ascii("authorization");
    assert SENSITIVE_WORDS[5] == Ascii("cookie") && SENSITIVE_WORDS[6] == Ascii("auth");
  }

  // ---------------------------------------------------------------- what is left alone

  /** Nothing in the value is a secret: no suspicious string, and nothing but containers under a sensitive key. */
  predicate Innocent(v: Json, shape: Shape)
    decreases v
  {
    match v
    case Str(s) => shape(s) ==> MaskString(s) == s
    case Arr(items) => forall i | 0 <= i < |items| :: Innocent(items[i], shape)
    case Obj(fields) => forall i | 0 <= i < |fields| :: InnocentField(fields[i], shape)
    case _ => true
  }

  predicate InnocentField(f: Field, shape: Shape)
    decreases f
  {
    && Innocent(f.value, shape)
    && (SensitiveKey(f.key) ==> f.value.Arr? || f.value.Obj? || (f.value.Str? && MaskString(f.value.s) == f.value.s))
  }

  /** Redaction leaves exactly the innocent values as they are. */
  lemma {:induction false} UnchangedIff(v: Json, name: Text, shape: Shape)
    requires v.Str? ==> !SensitiveKey(name)
    ensures RedactAny(v, name, shape) == v <==> Innocent(v, shape)
    decreases v, 1
  {
    if v.Arr? {
      var r := RedactItems(v.items, 0, shape);
      forall i | 0 <= i < |v.items| ensures r[i] == v.items[i] <==> Innocent(v.items[i], shape) {
        ItemRedacted(v.items, 0, shape, i);
        IndexIsNotSensitive(i);
        UnchangedIff(v.items[i], Digits(i), shape);
      }
    } else if v.Obj? {
      var r := RedactFields(v.fields, shape);
      forall i | 0 <= i < |v.fields| ensures r[i] == v.fields[i] <==> InnocentField(v.fields[i], shape) {
        FieldRedacted(v.fields, shape, i);
        FieldUnchangedIff(v.fields[i], shape);
      }
    }
  }

  lemma {:induction false} FieldUnchangedIff(f: Field, shape: Shape)
    ensures RedactField(f, shape) == f <==> InnocentField(f, shape)
    decreases f, 0
  {
    if SensitiveKey(f.key) && f.value.Str? {
      MaskIdempotent(f.value.s);
    } else if f.value.Arr? || f.value.Obj? || !SensitiveKey(f.key) {
      UnchangedIff(f.value, f.key, shape);
    }
  }

  /** A number, boolean or null directly under a sensitive key becomes the bare mask. */
  lemma ScalarUnderSensitiveKey(fields: seq<Field>, shape: Shape, i: nat)
    requires i < |fields| && SensitiveKey(fields[i].key)
    requires !fields[i].value.Str? && !fields[i].value.Arr? && !fields[i].value.Obj?
    ensures RedactFields(fields, shape)[i] == Field(fields[i].key, Str(Ascii("***")))
  {
    FieldRedacted(fields, shape, i);
    assert Ascii("***") == MASK;
  }
}
