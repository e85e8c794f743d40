/** The registration signature and the heartbeat guard built on it. */
module Registration {
  import opened Common
  import opened CodeUnits
  import opened JsonText

  // ---------------------------------------------------------------- objects as maps

  predicate HasKey(fields: seq<Field>, k: Text) {
    fields != [] && (fields[0].key == k || HasKey(fields[1..], k))
  }

  function Get(fields: seq<Field>, k: Text): (v: Json)
    requires HasKey(fields, k)
    ensures fields decreases to v
  {
    if fields[0].key == k then fields[0].value else Get(fields[1..], k)
  }

  function Keys(fields: seq<Field>): (ks: seq<Text>)
    ensures forall k :: k in ks <==> HasKey(fields, k)
  {
    if fields == [] then [] else [fields[0].key] + Keys(fields[1..])
  }

  /** Objects at every depth have distinct keys, as JavaScript objects do. */
  predicate WellFormed(v: Json)
    decreases v, 1
  {
    match v
    case Arr(items) => forall i | 0 <= i < |items| :: WellFormed(items[i])
    case Obj(fields) => WellFormedFields(fields)
    case _ => true
  }

  predicate WellFormedFields(fields: seq<Field>)
    decreases fields, 0
  {
    && NoDuplicates(Keys(fields))
    && forall i | 0 <= i < |fields| :: WellFormed(fields[i].value)
  }

  /** The same JSON value up to the order of object members, at every depth. */
  predicate Equivalent(a: Json, b: Json)
    decreases a
  {
    if a.Arr? && b.Arr? then
      && |a.items| == |b.items|
      && forall i | 0 <= i < |a.items| :: Equivalent(a.items[i], b.items[i])
    else if a.Obj? && b.Obj? then
      && (forall k | k in Keys(b.fields) :: HasKey(a.fields, k))
      && forall k | k in Keys(a.fields) :: HasKey(b.fields, k) && Equivalent(Get(a.fields, k), Get(b.fields, k))
    else a == b
  }

  // ---------------------------------------------------------------- the signature

  const MAX_INDEX_TEXT: Text := [52, 50, 57, 52, 57, 54, 55, 50, 57, 53]

  /** Array-index keys (0 to 2^32 - 2 in canonical decimal) are enumerated first, in numeric order. */
  predicate IsIndex(k: Text) {
    && k != []
    && (forall c | c in k :: 48 <= c <= 57)
    && (k[0] == 48 ==> |k| == 1)
    && (|k| < 10 || (|k| == 10 && Less(k, MAX_INDEX_TEXT)))
  }

  predicate EnumeratedBefore(k: Text, other: Text) {
    IsIndex(k) && (!IsIndex(other) || |k| < |other| || (|k| == |other| && Less(k, other)))
  }

  /** `acc[k] = v`: an existing key keeps its place, a new one takes the place enumeration gives it. */
  function Assign(acc: seq<Field>, k: Text, v: Json): seq<Field> {
    if acc == [] then [Field(k, v)]
    else if acc[0].key == k then [Field(k, v)] + acc[1..]
    else if EnumeratedBefore(k, acc[0].key) then [Field(k, v)] + acc
    else [acc[0]] + Assign(acc[1..], k, v)
  }

  /** The `reduce` over the sorted keys. */
  function Rebuild(keys: seq<Text>, fields: seq<Field>, acc: seq<Field>): seq<Field>
    requires forall k | k in keys :: HasKey(fields, k)
    decreases |keys|
  {
    if keys == [] then acc
    else
      assert keys[0] in keys;
      assert forall k | k in keys[1..] :: k in keys;
      Rebuild(keys[1..], fields, Assign(acc, keys[0], Get(fields, keys[0])))
  }

  /** The recursive `stable` of the source. */
  function Stable(v: Json): Json
    requires WellFormed(v)
    decreases v, 1
  {
    match v
    case Arr(items) => Arr(StableItems(items))
    case Obj(fields) => Obj(StableObject(fields))
    case _ => v
  }

  function StableItems(items: seq<Json>): (r: seq<Json>)
    requires forall i | 0 <= i < |items| :: WellFormed(items[i])
    ensures |r| == |items|
    decreases items, 0
  {
    if items == [] then [] else [Stable(items[0])] + StableItems(items[1..])
  }

  function StableObject(fields: seq<Field>): seq<Field>
    requires WellFormedFields(fields)
    decreases fields, 1
  {
    var stable := StableFields(fields);
    Rebuild(Sort(Keys(fields)), stable, [])
  }

  function StableFields(fields: seq<Field>): (r: seq<Field>)
    requires forall i | 0 <= i < |fields| :: WellFormed(fields[i].value)
    ensures Keys(r) == Keys(fields)
    decreases fields, 0
  {
    if fields == [] then []
    else
      var head := Field(fields[0].key, Stable(fields[0].value));
      [head] + StableFields(fields[1..])
  }

  const VOLATILE_KEYS: set<Text> := {Ascii("correlationId"), Ascii("updatedAt"), Ascii("discoverySource")}

  /** The payload without the members that change on every heartbeat. */
  function Meaningful(fields: seq<Field>): seq<Field> {
    if fields == [] then []
    else (if fields[0].key in VOLATILE_KEYS then [] else [fields[0]]) + Meaningful(fields[1..])
  }

  lemma {:induction false} MeaningfulKeys(fields: seq<Field>, k: Text)
    ensures HasKey(Meaningful(fields), k) <==> HasKey(fields, k) && k !in VOLATILE_KEYS
    ensures HasKey(Meaningful(fields), k) ==> Get(Meaningful(fields), k) == Get(fields, k)
  {
    if fields != [] {
      MeaningfulKeys(fields[1..], k);
      var rest := Meaningful(fields[1..]);
      if fields[0].key in VOLATILE_KEYS {
        assert Meaningful(fields) == rest;
      } else {
        assert Meaningful(fields) == [fields[0]] + rest;
        assert ([fields[0]] + rest)[1..] == rest;
      }
    }
  }

  lemma {:induction false} MeaningfulWellFormed(fields: seq<Field>)
    requires WellFormedFields(fields)
    ensures WellFormedFields(Meaningful(fields))
  {
    if fields != [] {
      assert Keys(fields)[1..] == Keys(fields[1..]);
      assert fields[0].key == Keys(fields)[0];
      MeaningfulWellFormed(fields[1..]);
      MeaningfulKeys(fields[1..], fields[0].key);
      var rest := Meaningful(fields[1..]);
      if fields[0].key in VOLATILE_KEYS {
        assert Meaningful(fields) == rest;
      } else {
        assert Meaningful(fields) == [fields[0]] + rest;
        assert Keys([fields[0]] + rest) == [fields[0].key] + Keys(rest);
        assert fields[0].key !in Keys(fields[1..]);
      }
    }
  }

  function Signature(fields: seq<Field>): Text
    requires WellFormedFields(fields)
  {
    MeaningfulWellFormed(fields);
    Print(Stable(Obj(Meaningful(fields))))
  }

  // ---------------------------------------------------------------- canonicalisation

  lemma {:induction false} AssignLookup(acc: seq<Field>, k: Text, v: Json, q: Text)
    ensures HasKey(Assign(acc, k, v), q) <==> q == k || HasKey(acc, q)
    ensures HasKey(Assign(acc, k, v), q) ==> Get(Assign(acc, k, v), q) == if q == k then v else Get(acc, q)
  {
    if acc != [] && acc[0].key != k && !EnumeratedBefore(k, acc[0].key) {
      AssignLookup(acc[1..], k, v, q);
    }
  }

  lemma {:induction false} RebuildLookup(keys: seq<Text>, fields: seq<Field>, acc: seq<Field>, q: Text)
    requires forall k | k in keys :: HasKey(fields, k)
    requires HasKey(acc, q) && q in keys ==> Get(acc, q) == Get(fields, q)
    ensures HasKey(Rebuild(keys, fields, acc), q) <==> q in keys || HasKey(acc, q)
    ensures q in keys ==> Get(Rebuild(keys, fields, acc), q) == Get(fields, q)
    ensures q !in keys && HasKey(acc, q) ==> Get(Rebuild(keys, fields, acc), q) == Get(acc, q)
    decreases |keys|
  {
    if keys != [] {
      var acc' := Assign(acc, keys[0], Get(fields, keys[0]));
      AssignLookup(acc, keys[0], Get(fields, keys[0]), q);
      assert q in keys <==> q == keys[0] || q in keys[1..];
      RebuildLookup(keys[1..], fields, acc', q);
    }
  }

  lemma {:induction false} StableFieldsLookup(fields: seq<Field>, k: Text)
    requires forall i | 0 <= i < |fields| :: WellFormed(fields[i].value)
    requires HasKey(fields, k)
    ensures HasKey(StableFields(fields), k)
    ensures WellFormed(Get(fields, k)) && Get(StableFields(fields), k) == Stable(Get(fields, k))
  {
    if fields[0].key != k {
      StableFieldsLookup(fields[1..], k);
    }
  }

  /** The object `stable` builds has the same keys, each with its stable value. */
  lemma StableObjectLookup(fields: seq<Field>, k: Text)
    requires WellFormedFields(fields)
    ensures HasKey(StableObject(fields), k) <==> HasKey(fields, k)
    ensures HasKey(fields, k) ==> WellFormed(Get(fields, k)) && Get(StableObject(fields), k) == Stable(Get(fields, k))
  {
    RebuildLookup(Sort(Keys(fields)), StableFields(fields), [], k);
    if HasKey(fields, k) {
      StableFieldsLookup(fields, k);
    }
  }

  lemma {:induction false} RebuildDepends(keys: seq<Text>, f: seq<Field>, g: seq<Field>, acc: seq<Field>)
    requires forall k | k in keys :: HasKey(f, k) && HasKey(g, k) && Get(f, k) == Get(g, k)
    ensures Rebuild(keys, f, acc) == Rebuild(keys, g, acc)
    decreases |keys|
  {
    if keys != [] {
      assert keys[0] in keys;
      assert forall k | k in keys[1..] :: k in keys;
      RebuildDepends(keys[1..], f, g, Assign(acc, keys[0], Get(f, keys[0])));
    }
  }

  /** Equivalent values have the same stable form. */
  lemma {:induction false} StableOfEquivalent(a: Json, b: Json)
    requires WellFormed(a) && WellFormed(b) && Equivalent(a, b)
    ensures Stable(a) == Stable(b)
    decreases a, 1
  {
    if a.Arr? {
      StableOfEquivalentItems(a.items, b.items);
    } else if a.Obj? {
      var f, g := a.fields, b.fields;
      forall k | HasKey(f, k) ensures Get(StableFields(f), k) == Get(StableFields(g), k) {
        assert k in Keys(f);
        StableFieldsLookup(f, k);
        StableFieldsLookup(g, k);
        StableOfEquivalent(Get(f, k), Get(g, k));
      }
      assert forall k :: k in Keys(f) <==> k in Keys(g);
      SortedUnique(Sort(Keys(f)), Sort(Keys(g)));
      assert forall k | k in Sort(Keys(f)) :: HasKey(f, k) && k in Keys(StableFields(f)) && k in Keys(StableFields(g));
      RebuildDepends(Sort(Keys(f)), StableFields(f), StableFields(g), []);
    }
  }

  lemma {:induction false} StableOfEquivalentItems(a: seq<Json>, b: seq<Json>)
    requires |a| == |b|
    requires forall i | 0 <= i < |a| :: WellFormed(a[i]) && WellFormed(b[i]) && Equivalent(a[i], b[i])
    ensures StableItems(a) == StableItems(b)
    decreases a, 0
  {
    if a != [] {
      StableOfEquivalent(a[0], b[0]);
      StableOfEquivalentItems(a[1..], b[1..]);
    }
  }

  /** Only equivalent values share a stable form. */
  lemma {:induction false} EquivalentOfStable(a: Json, b: Json)
    requires WellFormed(a) && WellFormed(b) && Stable(a) == Stable(b)
    ensures Equivalent(a, b)
    decreases a, 1
  {
    if a.Arr? {
      EquivalentOfStableItems(a.items, b.items);
    } else if a.Obj? {
      var f, g := a.fields, b.fields;
      forall k ensures HasKey(f, k) <==> HasKey(g, k) {
        StableObjectLookup(f, k);
        StableObjectLookup(g, k);
      }
      forall k | k in Keys(f) ensures Equivalent(Get(f, k), Get(g, k)) {
        StableObjectLookup(f, k);
        StableObjectLookup(g, k);
        EquivalentOfStable(Get(f, k), Get(g, k));
      }
    }
  }

  lemma {:induction false} EquivalentOfStableItems(a: seq<Json>, b: seq<Json>)
    requires forall i | 0 <= i < |a| :: WellFormed(a[i])
    requires forall i | 0 <= i < |b| :: WellFormed(b[i])
    requires StableItems(a) == StableItems(b)
    ensures |a| == |b| && forall i | 0 <= i < |a| :: Equivalent(a[i], b[i])
    decreases a, 0
  {
    assert |a| == |StableItems(a)| == |StableItems(b)| == |b|;
    if a != [] {
      assert StableItems(a)[0] == Stable(a[0]) && StableItems(b)[0] == Stable(b[0]);
      assert StableItems(a)[1..] == StableItems(a[1..]) && StableItems(b)[1..] == StableItems(b[1..]);
      EquivalentOfStable(a[0], b[0]);
      EquivalentOfStableItems(a[1..], b[1..]);
      forall i | 0 <= i < |a| ensures Equivalent(a[i], b[i]) {
        assert i > 0 ==> a[i] == a[1..][i - 1] && b[i] == b[1..][i - 1];
      }
    }
  }

  /**
   Two payloads have equal signatures exactly when, apart from the volatile members at the top,
   they are the same JSON value up to member order at every depth.
   */
  lemma SignatureIff(p: seq<Field>, q: seq<Field>)
    requires WellFormedFields(p) && WellFormedFields(q)
    ensures Signature(p) == Signature(q) <==> Equivalent(Obj(Meaningful(p)), Obj(Meaningful(q)))
  {
    MeaningfulWellFormed(p);
    MeaningfulWellFormed(q);
    var a, b := Obj(Meaningful(p)), Obj(Meaningful(q));
    if Signature(p) == Signature(q) {
      PrintInjective(Stable(a), Stable(b));
      EquivalentOfStable(a, b);
    }
    if Equivalent(a, b) {
      StableOfEquivalent(a, b);
    }
  }

  /** The three members that say nothing about the registration itself. */
  predicate Incidental(k: Text) {
    k == Ascii("correlationId") || k == Ascii("updatedAt") || k == Ascii("discoverySource")
  }

  /** The payloads have the same other members, each with the same value up to member order. */
  predicate SameRegistration(p: seq<Field>, q: seq<Field>) {
    && (forall k | k in Keys(q) && !Incidental(k) :: HasKey(p, k))
    && (forall k | k in Keys(p) && !Incidental(k) :: HasKey(q, k) && Equivalent(Get(p, k), Get(q, k)))
  }

  /** Equal signatures member by member: the three incidental members are ignored, and no others are. */
  lemma SignatureByMembers(p: seq<Field>, q: seq<Field>)
    requires WellFormedFields(p) && WellFormedFields(q)
    ensures Signature(p) == Signature(q) <==> SameRegistration(p, q)
  {
    SignatureIff(p, q);
    var a, b := Meaningful(p), Meaningful(q);
    forall k
      ensures k in Keys(a) <==> k in Keys(p) && !Incidental(k)
      ensures k in Keys(b) <==> k in Keys(q) && !Incidental(k)
      ensures k in Keys(a) ==> Get(a, k) == Get(p, k)
      ensures k in Keys(b) ==> Get(b, k) == Get(q, k)
    {
      MeaningfulKeys(p, k);
      MeaningfulKeys(q, k);
    }
  }

  lemma {:induction false} EquivalentToItself(v: Json)
    requires WellFormed(v)
    ensures Equivalent(v, v)
    decreases v, 1
  {
    if v.Arr? {
      forall i | 0 <= i < |v.items| ensures Equivalent(v.items[i], v.items[i]) {
        EquivalentToItself(v.items[i]);
      }
    } else if v.Obj? {
      forall k | k in Keys(v.fields) ensures Equivalent(Get(v.fields, k), Get(v.fields, k)) {
        MemberWellFormed(v.fields, k);
        EquivalentToItself(Get(v.fields, k));
      }
    }
  }

  lemma {:induction false} MemberWellFormed(fields: seq<Field>, k: Text)
    requires HasKey(fields, k) && forall i | 0 <= i < |fields| :: WellFormed(fields[i].value)
    ensures WellFormed(Get(fields, k))
  {
    if fields[0].key != k {
      MemberWellFormed(fields[1..], k);
    }
  }

  /** One member more changes the signature exactly when it is not incidental. */
  lemma AddedMemberIff(k: Text, v: Json, p: seq<Field>)
    requires WellFormedFields(p) && WellFormedFields([Field(k, v)] + p)
    ensures Signature([Field(k, v)] + p) == Signature(p) <==> Incidental(k)
  {
    var q := [Field(k, v)] + p;
    assert q[0] == Field(k, v) && q[1..] == p;
    assert Keys(q) == [k] + Keys(p);
    assert k !in Keys(p) by {
      assert Keys(q)[0] == k && forall i | 0 <= i < |Keys(p)| :: Keys(q)[i + 1] == Keys(p)[i];
    }
    SignatureByMembers(q, p);
    forall x | x in Keys(p) ensures Get(q, x) == Get(p, x) && Equivalent(Get(p, x), Get(p, x)) {
      MemberWellFormed(p, x);
      EquivalentToItself(Get(p, x));
    }
  }

  // ---------------------------------------------------------------- the order of a signature's members

  /** Array indices come first, by number; other keys follow in code-unit order. */
  predicate Precedes(a: Text, b: Text) {
    if IsIndex(a) && IsIndex(b) then DecimalValue(a) < DecimalValue(b)
    else IsIndex(a) || (!IsIndex(b) && Less(a, b))
  }

  predicate InEnumerationOrder(keys: seq<Text>) {
    forall i, j | 0 <= i < j < |keys| :: Precedes(keys[i], keys[j])
  }

  lemma {:induction false} DecimalBounds(d: Text)
    requires forall c | c in d :: 48 <= c <= 57
    ensures 0 <= DecimalValue(d) < Pow10(|d|)
  {
    if d != [] {
      var init := d[..|d| - 1];
      assert d[|d| - 1] in d;
      assert forall c | c in init :: c in d;
      DecimalBounds(init);
    }
  }

  function Pow10(n: nat): int {
    if n == 0 then 1 else 10 * Pow10(n - 1)
  }

  lemma {:induction false} LeadingDigit(d: Text)
    requires d != [] && forall c | c in d :: 48 <= c <= 57
    ensures DecimalValue(d) == (d[0] as int - 48) * Pow10(|d| - 1) + DecimalValue(d[1..])
  {
    assert d[0] in d;
    if |d| > 1 {
      var init, last := d[..|d| - 1], d[|d| - 1];
      assert forall c | c in init :: c in d;
      LeadingDigit(init);
      assert d[1..][..|d| - 2] == init[1..] && d[1..][|d| - 2] == last;
      assert Pow10(|d| - 1) == 10 * Pow10(|d| - 2);
      Shift(d[0] as int - 48, Pow10(|d| - 2));
    } else {
      assert d[..0] == [] && d[1..] == [];
    }
  }

  lemma Shift(a: int, b: int)
    ensures a * (10 * b) == 10 * (a * b)
  {
  }

  /** Between texts of equally many digits code-unit order is numeric order. */
  lemma {:induction false} LessIsNumeric(a: Text, b: Text)
    requires |a| == |b| && (forall c | c in a :: 48 <= c <= 57) && (forall c | c in b :: 48 <= c <= 57)
    ensures Less(a, b) <==> DecimalValue(a) < DecimalValue(b)
  {
    if a != [] {
      assert a[0] in a && b[0] in b;
      assert (forall c | c in a[1..] :: c in a) && (forall c | c in b[1..] :: c in b);
      LeadingDigit(a);
      LeadingDigit(b);
      DecimalBounds(a[1..]);
      DecimalBounds(b[1..]);
      LessIsNumeric(a[1..], b[1..]);
      HigherDigit(a[0] as int - 48, b[0] as int - 48, Pow10(|a| - 1), DecimalValue(a[1..]), DecimalValue(b[1..]));
      HigherDigit(b[0] as int - 48, a[0] as int - 48, Pow10(|a| - 1), DecimalValue(b[1..]), DecimalValue(a[1..]));
    }
  }

  lemma HigherDigit(x: int, y: int, p: int, r: int, s: int)
    requires 0 <= r < p && 0 <= s < p
    ensures x < y ==> x * p + r < y * p + s
  {
    if x < y {
      AtLeastOne(y - x, p);
      Difference(y, x, p);
    }
  }

  /** A longer canonical decimal is a larger number. */
  lemma LongerIsLarger(a: Text, b: Text)
    requires Canonical(a) && Canonical(b) && |a| < |b|
    ensures DecimalValue(a) < DecimalValue(b)
  {
    DecimalBounds(a);
    LeadingDigit(b);
    assert b[0] in b && forall c | c in b[1..] :: c in b;
    DecimalBounds(b[1..]);
    Pow10Grows(|a|, |b| - 1);
    AtLeastOne(b[0] as int - 48, Pow10(|b| - 1));
  }

  lemma Difference(y: int, x: int, p: int)
    ensures (y - x) * p == y * p - x * p
  {
  }

  lemma AtLeastOne(x: int, p: int)
    requires x >= 1 && p >= 0
    ensures x * p >= p
  {
  }

  lemma {:induction false} Pow10Grows(m: nat, n: nat)
    requires m <= n
    ensures 1 <= Pow10(m) <= Pow10(n)
    decreases n
  {
    if m < n {
      Pow10Grows(m, n - 1);
    } else if m > 0 {
      Pow10Grows(m - 1, m - 1);
    }
  }

  lemma CanonicalOrder(a: Text, b: Text)
    requires Canonical(a) && Canonical(b)
    ensures (|a| < |b| || (|a| == |b| && Less(a, b))) <==> DecimalValue(a) < DecimalValue(b)
  {
    if |a| < |b| {
      LongerIsLarger(a, b);
    } else if |b| < |a| {
      LongerIsLarger(b, a);
    } else {
      LessIsNumeric(a, b);
    }
  }

  lemma MaxIndexValue()
    ensures MAX_INDEX_TEXT == Digits(4294967295)
  {
    assert Digits(42) == [52, 50];
    assert Digits(4294) == [52, 50, 57, 52];
    assert Digits(429496) == [52, 50, 57, 52, 57, 54];
    assert Digits(42949672) == [52, 50, 57, 52, 57, 54, 55, 50];
  }

  /** The keys enumerated first are the decimals of the array indices, 0 to 2^32 - 2. */
  lemma IndexIff(k: Text)
    ensures IsIndex(k) <==> exists n: nat :: n < 0xFFFF_FFFF && k == Digits(n)
  {
    MaxIndexValue();
    DigitsMean(4294967295);
    if Canonical(k) {
      CanonicalIsDigits(k);
      CanonicalOrder(k, MAX_INDEX_TEXT);
      if IsIndex(k) {
        var n: nat := DecimalValue(k);
        assert k == Digits(n);
      }
    }
    if n: nat :| n < 0xFFFF_FFFF && k == Digits(n) {
      DigitsMean(n);
    }
  }

  lemma EnumeratedBeforeIff(k: Text, other: Text)
    ensures EnumeratedBefore(k, other) <==> IsIndex(k) && (IsIndex(other) ==> DecimalValue(k) < DecimalValue(other))
  {
    if IsIndex(k) && IsIndex(other) {
      CanonicalOrder(k, other);
    }
  }

  /** Assigning a new key that no other key but an index exceeds keeps enumeration order. */
  lemma {:induction false} AssignOrdered(acc: seq<Field>, k: Text, v: Json)
    requires InEnumerationOrder(Keys(acc)) && !HasKey(acc, k)
    requires !IsIndex(k) ==> forall x | x in Keys(acc) && !IsIndex(x) :: Less(x, k)
    ensures InEnumerationOrder(Keys(Assign(acc, k, v)))
    ensures forall x :: x in Keys(Assign(acc, k, v)) <==> x == k || x in Keys(acc)
  {
    if acc != [] {
      var head := acc[0].key;
      assert Keys(acc)[0] == head && Keys(acc)[1..] == Keys(acc[1..]);
      EnumeratedBeforeIff(k, head);
      if EnumeratedBefore(k, head) {
        assert Keys(Assign(acc, k, v)) == [k] + Keys(acc);
      } else {
        AssignOrdered(acc[1..], k, v);
        assert Keys(Assign(acc, k, v)) == [head] + Keys(Assign(acc[1..], k, v));
        forall x | x in Keys(Assign(acc[1..], k, v)) ensures Precedes(head, x) {
          if x == k && IsIndex(k) {
            IndexDiffers(head, k);
          } else if x != k {
            var i :| 0 <= i < |Keys(acc[1..])| && Keys(acc[1..])[i] == x;
            assert Keys(acc)[i + 1] == x;
          }
        }
      }
    }
  }

  lemma IndexDiffers(a: Text, b: Text)
    requires a != b && IsIndex(a) && IsIndex(b)
    ensures DecimalValue(a) != DecimalValue(b)
  {
    CanonicalIsDigits(a);
    CanonicalIsDigits(b);
  }

  lemma {:induction false} RebuildOrdered(keys: seq<Text>, fields: seq<Field>, acc: seq<Field>)
    requires Sorted(keys) && forall k | k in keys :: HasKey(fields, k)
    requires InEnumerationOrder(Keys(acc)) && forall x, k | x in Keys(acc) && k in keys :: Less(x, k)
    ensures InEnumerationOrder(Keys(Rebuild(keys, fields, acc)))
    decreases |keys|
  {
    if keys != [] {
      assert keys[0] in keys && forall k | k in keys[1..] :: k in keys;
      if HasKey(acc, keys[0]) {
        LessTrichotomy(keys[0], keys[0]);
      }
      AssignOrdered(acc, keys[0], Get(fields, keys[0]));
      RebuildOrdered(keys[1..], fields, Assign(acc, keys[0], Get(fields, keys[0])));
    }
  }

  /** The members of a signature's objects come sorted: indices by number, then the rest in code-unit order. */
  lemma StableObjectSorted(fields: seq<Field>)
    requires WellFormedFields(fields)
    ensures InEnumerationOrder(Keys(StableObject(fields)))
  {
    RebuildOrdered(Sort(Keys(fields)), StableFields(fields), []);
  }

  // ---------------------------------------------------------------- the heartbeat guard

  /** What reaches the guard: a registration, or the failure of an earlier write. */
  datatype Message = Register(name: Text, payload: seq<Field>) | WriteFailed(name: Text)

  predicate ValidMessage(m: Message) {
    m.Register? ==> WellFormedFields(m.payload)
  }

  class RegistrationGuard {
    var signatures: map<Text, Text>

    constructor ()
      ensures signatures == map[]
    {
      signatures := map[];
    }

    /** The guarded part of `handleMcpRegistration`: whether the payload is to be written. */
    method Register(name: Text, payload: seq<Field>) returns (writes: bool)
      requires WellFormedFields(payload)
      modifies this
      ensures (signatures, writes) == Guard(old(signatures), Message.Register(name, payload))
    {
      var signature := Signature(payload);
      if name in signatures && signatures[name] == signature {
        return false;
      }
      signatures := signatures[name := signature];
      writes := true;
    }

    /** A failed write forgets the signature so that the next heartbeat tries again. */
    method WriteFailed(name: Text)
      modifies this
      ensures signatures == Guard(old(signatures), Message.WriteFailed(name)).0
    {
      signatures := signatures - {name};
    }
  }

  function Guard(signatures: map<Text, Text>, m: Message): (map<Text, Text>, bool)
    requires ValidMessage(m)
  {
    match m
    case Register(name, payload) =>
      var signature := Signature(payload);
      if name in signatures && signatures[name] == signature then (signatures, false)
      else (signatures[name := signature], true)
    case WriteFailed(name) => (signatures - {name}, false)
  }

  function GuardRun(signatures: map<Text, Text>, run: seq<Message>): map<Text, Text>
    requires forall m | m in run :: ValidMessage(m)
    decreases |run|
  {
    if run == [] then signatures
    else
      assert run[0] in run && forall m | m in run[1..] :: m in run;
      GuardRun(Guard(signatures, run[0]).0, run[1..])
  }

  /** The payload last registered under the name with no failed write since. */
  function Latest(run: seq<Message>, name: Text): Option<seq<Field>> {
    if run == [] then None
    else
      var last := run[|run| - 1];
      if last.name != name then Latest(run[..|run| - 1], name)
      else if last.WriteFailed? then None
      else Some(last.payload)
  }

  lemma {:induction false} GuardRunSnoc(signatures: map<Text, Text>, run: seq<Message>, m: Message)
    requires ValidMessage(m) && forall x | x in run :: ValidMessage(x)
    ensures forall x | x in run + [m] :: ValidMessage(x)
    ensures GuardRun(signatures, run + [m]) == Guard(GuardRun(signatures, run), m).0
    decreases |run|
  {
    if run == [] {
      assert run + [m] == [m];
    } else {
      assert run[0] in run && forall x | x in run[1..] :: x in run;
      GuardRunSnoc(Guard(signatures, run[0]).0, run[1..], m);
      assert (run + [m])[1..] == run[1..] + [m];
    }
  }

  lemma {:induction false} GuardRemembersLatest(run: seq<Message>, name: Text)
    requires forall m | m in run :: ValidMessage(m)
    ensures Latest(run, name).Some? ==> WellFormedFields(Latest(run, name).value)
    ensures name in GuardRun(map[], run) <==> Latest(run, name).Some?
    ensures Latest(run, name).Some? ==> GuardRun(map[], run)[name] == Signature(Latest(run, name).value)
    decreases |run|
  {
    if run != [] {
      var init, last := run[..|run| - 1], run[|run| - 1];
      assert last in run && forall m | m in init :: m in run;
      assert run == init + [last];
      GuardRemembersLatest(init, name);
      GuardRunSnoc(map[], init, last);
    }
  }

  /**
   After any run a registration is written exactly when its name has no remembered payload or the
   remembered one differs in more than volatile members and member order.
   */
  lemma WrittenIffChanged(run: seq<Message>, name: Text, payload: seq<Field>)
    requires forall m | m in run :: ValidMessage(m)
    requires WellFormedFields(payload)
    ensures Guard(GuardRun(map[], run), Register(name, payload)).1 <==>
            (Latest(run, name).None? || !SameRegistration(Latest(run, name).value, payload))
  {
    GuardRemembersLatest(run, name);
    if Latest(run, name).Some? {
      SignatureByMembers(Latest(run, name).value, payload);
    }
  }

  /** A heartbeat that repeats the remembered payload with other incidental members is never written. */
  lemma HeartbeatNotWritten(run: seq<Message>, name: Text, payload: seq<Field>)
    requires forall m | m in run :: ValidMessage(m)
    requires WellFormedFields(payload) && Latest(run, name).Some?
    requires forall k | !Incidental(k) ::
               (HasKey(payload, k) <==> HasKey(Latest(run, name).value, k)) &&
               (HasKey(payload, k) ==> Get(payload, k) == Get(Latest(run, name).value, k))
    ensures !Guard(GuardRun(map[], run), Register(name, payload)).1
  {
    var latest := Latest(run, name).value;
    GuardRemembersLatest(run, name);
    forall k | k in Keys(latest) && !Incidental(k) ensures HasKey(payload, k) && Equivalent(Get(latest, k), Get(payload, k)) {
      MemberWellFormed(latest, k);
      EquivalentToItself(Get(latest, k));
    }
    WrittenIffChanged(run, name, payload);
  }
}
