/** The allocation of short MongoDB field names `m0`, `m1`, ... for meta keys, and their
    decoding on the client.

    Several field managers may work on one catalog.  The list of keys in the catalog
    document is shared; each manager keeps a private copy of the key map. */
module FieldManager {
  import opened Wrappers

  // Field names.

  const DIGITS := "0123456789"

  function Decimal(n: nat): string {
    if n < 10 then [DIGITS[n]] else Decimal(n / 10) + [DIGITS[n % 10]]
  }

  function ParseDigit(c: char): nat {
    if '0' <= c <= '9' then c as nat - '0' as nat else 0
  }

  function ParseDecimal(s: string): nat {
    if s == [] then 0 else 10 * ParseDecimal(s[..|s| - 1]) + ParseDigit(s[|s| - 1])
  }

  lemma ParseLast(s: string, c: char)
    ensures ParseDecimal(s + [c]) == 10 * ParseDecimal(s) + ParseDigit(c)
  {
    hide ParseDigit;
    assert (s + [c])[..|s|] == s;
  }

  lemma ParseOfDigit(d: nat)
    requires d < 10
    ensures ParseDigit(DIGITS[d]) == d
  {
  }

  lemma {:induction false} ParseOfDecimal(n: nat)
    ensures ParseDecimal(Decimal(n)) == n
  {
    hide ParseDigit, ParseDecimal;
    ParseOfDigit(n % 10);
    if n < 10 {
      ParseLast([], DIGITS[n]);
      assert [] + [DIGITS[n]] == Decimal(n);
      assert ParseDecimal([]) == 0 by { ParseOfNothing(); }
    } else {
      ParseOfDecimal(n / 10);
      ParseLast(Decimal(n / 10), DIGITS[n % 10]);
    }
  }

  lemma ParseOfNothing()
    ensures ParseDecimal("") == 0
  {
  }

  function Field(i: nat): string {
    "m" + Decimal(i)
  }

  /** `Number(k.slice(1))` */
  function FieldIndex(f: string): nat {
    if f == [] then 0 else ParseDecimal(f[1..])
  }

  lemma FieldIndexOfField(i: nat)
    ensures FieldIndex(Field(i)) == i
  {
    ParseOfDecimal(i);
    assert Field(i)[1..] == Decimal(i);
  }

  predicate IsDigit(c: char) {
    '0' <= c <= '9'
  }

  lemma {:induction false} DecimalDigits(n: nat)
    ensures Decimal(n) != "" && (forall c | c in Decimal(n) :: IsDigit(c))
    ensures n > 0 ==> Decimal(n)[0] != '0'
  {
    if n >= 10 {
      DecimalDigits(n / 10);
    }
  }

  /** A field is the letter `m` and a number without leading zeros. */
  lemma FieldIsWellFormed(i: nat)
    ensures var f := Field(i);
            && |f| > 1 && f[0] == 'm' && (forall c | c in f[1..] :: IsDigit(c)) && (f[1] == '0' ==> f == "m0")
  {
    DecimalDigits(i);
    assert Field(i)[1..] == Decimal(i);
  }

  // The shared list of keys.

  /** The position of the last occurrence, since a later one overwrites the map entry. */
  function LastIndex(ks: seq<string>, k: string): (i: nat)
    requires k in ks
    ensures i < |ks| && ks[i] == k
  {
    if ks[|ks| - 1] == k then |ks| - 1 else LastIndex(ks[..|ks| - 1], k)
  }

  function FieldOf(ks: seq<string>, k: string): string
    requires k in ks
  {
    Field(LastIndex(ks, k))
  }

  /** The guarded push of `allocField()`. */
  function Push(ks: seq<string>, k: string): seq<string> {
    if k in ks then ks else ks + [k]
  }

  /** `ks'` results from `ks` by guarded pushes. */
  predicate Extends(ks: seq<string>, ks': seq<string>) {
    ks <= ks' && forall i :: |ks| <= i < |ks'| ==> ks'[i] !in ks'[..i]
  }

  /** A key keeps its field while the list grows. */
  lemma {:induction false} FieldIsStable(ks: seq<string>, ks': seq<string>, k: string)
    requires Extends(ks, ks') && k in ks
    ensures k in ks' && FieldOf(ks, k) == FieldOf(ks', k)
  {
    if |ks'| > |ks| {
      var n := |ks'| - 1;
      assert forall i :: |ks| <= i < n ==> ks'[..n][..i] == ks'[..i];
      FieldIsStable(ks, ks'[..n], k);
      assert ks'[n] !in ks'[..n] && k in ks'[..n];
    } else {
      assert ks == ks';
    }
  }

  /** Distinct keys have distinct fields. */
  lemma DistinctKeysDistinctFields(ks: seq<string>, k1: string, k2: string)
    requires k1 in ks && k2 in ks && FieldOf(ks, k1) == FieldOf(ks, k2)
    ensures k1 == k2
  {
    FieldIndexOfField(LastIndex(ks, k1));
    FieldIndexOfField(LastIndex(ks, k2));
  }

  // Any interleaving of any number of managers.

  /** `seen` holds, for each manager, the list that it has read last. */
  datatype State = State(keys: seq<string>, seen: map<nat, seq<string>>)

  datatype Action = ReadKeys(m: nat) | PushKey(key: string)

  function Step(s: State, a: Action): State {
    match a
    case ReadKeys(m) => s.(seen := s.seen[m := s.keys])
    case PushKey(key) => s.(keys := Push(s.keys, key))
  }

  function Run(s: State, acts: seq<Action>): State {
    if acts == [] then s else Step(Run(s, acts[..|acts| - 1]), acts[|acts| - 1])
  }

  ghost predicate Inv(s: State) {
    forall m | m in s.seen :: Extends(s.seen[m], s.keys)
  }

  lemma {:induction false} RunExtends(s: State, acts: seq<Action>)
    requires Inv(s)
    ensures Inv(Run(s, acts)) && Extends(s.keys, Run(s, acts).keys)
  {
    if acts != [] {
      RunExtends(s, acts[..|acts| - 1]);
      StepExtends(Run(s, acts[..|acts| - 1]), acts[|acts| - 1], s.keys);
    }
  }

  lemma StepExtends(s: State, a: Action, ks: seq<string>)
    requires Inv(s) && Extends(ks, s.keys)
    ensures Inv(Step(s, a)) && Extends(ks, Step(s, a).keys)
  {
    if a.PushKey? && a.key !in s.keys {
      PushExtends(ks, s.keys, a.key);
      forall m | m in s.seen ensures Extends(s.seen[m], s.keys + [a.key]) {
        PushExtends(s.seen[m], s.keys, a.key);
      }
    }
  }

  lemma PushExtends(ks: seq<string>, ks': seq<string>, k: string)
    requires Extends(ks, ks')
    ensures Extends(ks, Push(ks', k))
  {
    var more := Push(ks', k);
    forall i | |ks| <= i < |more| ensures more[i] !in more[..i] {
      if i < |ks'| {
        assert more[..i] == ks'[..i];
      } else {
        assert more[..i] == ks';
      }
    }
  }

  /** Whatever the managers do, in any interleaving: a field that a manager has in its
      map is the field of the key in the shared list, now and ever after. */
  lemma AllocatedFieldIsForever(s: State, acts: seq<Action>, m: nat, k: string)
    requires Inv(s) && m in s.seen && k in s.seen[m]
    ensures k in s.keys && k in Run(s, acts).keys
    ensures FieldOf(s.seen[m], k) == FieldOf(s.keys, k) == FieldOf(Run(s, acts).keys, k)
  {
    RunExtends(s, acts);
    FieldIsStable(s.seen[m], s.keys, k);
    FieldIsStable(s.keys, Run(s, acts).keys, k);
  }

  // Decoding on the client.

  /** `metaKeys[idx] || k` */
  function DecodeField(metaKeys: seq<string>, f: string): string {
    var i := FieldIndex(f);
    if i < |metaKeys| && metaKeys[i] != "" then metaKeys[i] else f
  }

  /** The client that has the list at or after the allocation decodes the field to the
      key, if and only if the key is not empty. */
  lemma FieldDecodesExactlyIfNonEmpty(ks: seq<string>, later: seq<string>, k: string)
    requires Extends(ks, later) && k in ks
    ensures DecodeField(later, FieldOf(ks, k)) == k <==> k != ""
  {
    FieldIndexOfField(LastIndex(ks, k));
  }

  /** `m` holds the values of `meta` under the fields of their keys. */
  ghost predicate EncodesTo(ks: seq<string>, meta: map<string, string>, m: map<string, string>) {
    && (forall k | k in meta :: k in ks && FieldOf(ks, k) in m && m[FieldOf(ks, k)] == meta[k])
    && (forall f | f in m :: exists k :: k in meta && k in ks && f == FieldOf(ks, k))
  }

  /** `meta` holds the values of `m` under the decoded keys. */
  ghost predicate DecodesTo(later: seq<string>, m: map<string, string>, meta: map<string, string>) {
    && (forall f | f in m :: DecodeField(later, f) in meta)
    && (forall k | k in meta :: exists f :: f in m && DecodeField(later, f) == k && meta[k] == m[f])
  }

  /** Encoding a meta object and decoding the document with the same or a later list gives
      back the object, if and only if it has no empty key. */
  lemma MetaRoundTripExactly(
    ks: seq<string>, later: seq<string>,
    meta: map<string, string>, m: map<string, string>, decoded: map<string, string>)
    requires Extends(ks, later) && EncodesTo(ks, meta, m) && DecodesTo(later, m, decoded)
    ensures decoded == meta <==> "" !in meta
  {
    hide EncodesTo, DecodesTo, Extends;
    if "" !in meta {
      forall k | k in meta ensures k in decoded {
        EncodedFieldIsThere(ks, meta, m, k);
        KeyIsDecoded(ks, later, m, decoded, k);
      }
      forall k | k in decoded ensures k in meta && decoded[k] == meta[k] {
        var f := FieldDecodedTo(later, m, decoded, k);
        var k' := KeyOfField(ks, meta, m, f);
        FieldDecodesExactlyIfNonEmpty(ks, later, k');
      }
      assert decoded.Keys == meta.Keys;
    } else if "" in decoded {
      var f := FieldDecodedTo(later, m, decoded, "");
      var k := KeyOfField(ks, meta, m, f);
      DecodedKeyIsNonEmpty(ks, later, k);
    }
  }

  lemma EncodedFieldIsThere(ks: seq<string>, meta: map<string, string>, m: map<string, string>, k: string)
    requires EncodesTo(ks, meta, m) && k in meta
    ensures k in ks && FieldOf(ks, k) in m
  {
  }

  lemma KeyIsDecoded(ks: seq<string>, later: seq<string>, m: map<string, string>, decoded: map<string, string>, k: string)
    requires Extends(ks, later) && DecodesTo(later, m, decoded) && k in ks && FieldOf(ks, k) in m && k != ""
    ensures k in decoded
  {
    hide Extends, DecodesTo, FieldOf;
    FieldDecodesExactlyIfNonEmpty(ks, later, k);
    DecodedFieldIsThere(later, m, decoded, FieldOf(ks, k));
  }

  lemma DecodedFieldIsThere(later: seq<string>, m: map<string, string>, decoded: map<string, string>, f: string)
    requires DecodesTo(later, m, decoded) && f in m
    ensures DecodeField(later, f) in decoded
  {
  }

  lemma FieldDecodedTo(later: seq<string>, m: map<string, string>, decoded: map<string, string>, k: string) returns (f: string)
    requires DecodesTo(later, m, decoded) && k in decoded
    ensures f in m && DecodeField(later, f) == k && decoded[k] == m[f]
  {
    f :| f in m && DecodeField(later, f) == k && decoded[k] == m[f];
  }

  lemma KeyOfField(ks: seq<string>, meta: map<string, string>, m: map<string, string>, f: string) returns (k: string)
    requires EncodesTo(ks, meta, m) && f in m
    ensures k in meta && k in ks && f == FieldOf(ks, k) && m[f] == meta[k]
  {
    hide FieldOf;
    k :| k in meta && k in ks && f == FieldOf(ks, k);
  }

  lemma DecodedKeyIsNonEmpty(ks: seq<string>, later: seq<string>, k: string)
    requires k in ks
    ensures DecodeField(later, FieldOf(ks, k)) != ""
  {
  }

  /** The loop of `transform()`. */
  method DecodeMeta(later: seq<string>, m: map<string, string>) returns (meta: map<string, string>)
    ensures DecodesTo(later, m, meta)
  {
    meta := map[];
    var todo := m.Keys;
    while todo != {}
      invariant todo <= m.Keys
      invariant forall f | f in m && f !in todo :: DecodeField(later, f) in meta
      invariant forall k | k in meta :: exists f :: f in m && DecodeField(later, f) == k && meta[k] == m[f]
    {
      var f :| f in todo;
      meta := meta[DecodeField(later, f) := m[f]];
      todo := todo - {f};
    }
  }

  // The manager object.

  /** The properties that a plain JavaScript object inherits. */
  const INHERITED := {
    "constructor", "toString", "toLocaleString", "valueOf", "hasOwnProperty", "isPrototypeOf", "propertyIsEnumerable",
    "__proto__", "__defineGetter__", "__defineSetter__", "__lookupGetter__", "__lookupSetter__"
  }

  /** The own properties of `keyToField` after reading `ks`.  Assigning a string to
      `__proto__` has no effect. */
  ghost predicate MapsTo(keyToField: map<string, string>, ks: seq<string>) {
    && (forall k | k in ks && k != "__proto__" :: k in keyToField && keyToField[k] == FieldOf(ks, k))
    && (forall k | k in keyToField :: k in ks && k != "__proto__")
  }

  /** The key is a name that `keyToField` inherits and does not have on its own. */
  predicate Fieldless(k: string, ks: seq<string>) {
    k == "__proto__" || (k in INHERITED && k !in ks)
  }

  /** The list has no inherited name that it did not have. */
  ghost predicate NoInheritedPushed(ks: seq<string>, ks': seq<string>) {
    forall k | k in ks' && k in INHERITED :: k in ks
  }

  class CatalogDoc {
    var metaKeys: Option<seq<string>>

    constructor ()
      ensures metaKeys == None
    {
      metaKeys := None;
    }
  }

  class Manager {
    const doc: CatalogDoc
    var keyToField: map<string, string>
    ghost var seen: seq<string>

    ghost predicate Valid()
      reads this, doc
    {
      doc.metaKeys.Some? && Extends(seen, doc.metaKeys.value) && MapsTo(keyToField, seen)
    }

    constructor (doc: CatalogDoc, preferredMetaKeys: seq<string>)
      modifies doc
      ensures Valid() && this.doc == doc
      ensures doc.metaKeys == if old(doc.metaKeys).Some? then old(doc.metaKeys) else Some(preferredMetaKeys)
    {
      this.doc := doc;
      keyToField, seen := map[], [];
      new;
      if doc.metaKeys.None? {
        doc.metaKeys := Some(preferredMetaKeys);
      }
      ReadKeyMap();
    }

    method ReadKeyMap()
      requires doc.metaKeys.Some? && forall k | k in keyToField :: k in doc.metaKeys.value && k != "__proto__"
      modifies this
      ensures Valid() && seen == doc.metaKeys.value
    {
      var metaKeys := doc.metaKeys.value;
      ghost var m0 := keyToField;
      for i := 0 to |metaKeys|
        invariant forall k | k in metaKeys[..i] && k != "__proto__" ::
                    k in keyToField && keyToField[k] == FieldOf(metaKeys[..i], k)
        invariant forall k | k in keyToField :: k != "__proto__" && (k in metaKeys[..i] || k in m0)
      {
        var key := metaKeys[i];
        assert metaKeys[..i + 1] == metaKeys[..i] + [key];
        if key != "__proto__" {
          keyToField := keyToField[key := Field(i)];
        }
        forall k | k in metaKeys[..i + 1] && k != "__proto__"
          ensures k in keyToField && keyToField[k] == FieldOf(metaKeys[..i + 1], k)
        {
          assert k != key ==> LastIndex(metaKeys[..i + 1], k) == LastIndex(metaKeys[..i], k);
        }
      }
      assert metaKeys[..|metaKeys|] == metaKeys;
      seen := metaKeys;
    }

    /** `None` where the source returns an inherited property instead of a field. */
    method GetMongoField(key: string) returns (f: Option<string>)
      requires Valid()
      modifies this, doc
      ensures Valid() && Extends(old(doc.metaKeys.value), doc.metaKeys.value)
      ensures f.Some? ==> key in doc.metaKeys.value && f.value == FieldOf(doc.metaKeys.value, key)
      ensures f.Some? <==> !Fieldless(key, old(seen))
      ensures f.None? ==> doc.metaKeys == old(doc.metaKeys) && seen == old(seen)
      ensures old(seen) <= seen && NoInheritedPushed(old(doc.metaKeys.value), doc.metaKeys.value)
    {
      assert Extends(doc.metaKeys.value, doc.metaKeys.value);
      if key in keyToField {
        FieldIsStable(seen, doc.metaKeys.value, key);
        return Some(keyToField[key]);
      }
      if key in INHERITED {
        return None;
      }
      PushExtends(seen, doc.metaKeys.value, key);
      PushExtends(doc.metaKeys.value, doc.metaKeys.value, key);
      doc.metaKeys := Some(Push(doc.metaKeys.value, key));
      ReadKeyMap();
      assert key in seen;
      return Some(keyToField[key]);
    }

    /** The loop of the scan over the meta keys of an entry.  `None` where a key has no field.
        It fails if a key is an inherited name that is not in the shared list, and only if a
        key is an inherited name that the manager has not read from the list.  For a manager
        that has read the whole list, this is an exact condition. */
    method EncodeMeta(meta: map<string, string>) returns (m: Option<map<string, string>>)
      requires Valid()
      modifies this, doc
      ensures Valid() && Extends(old(doc.metaKeys.value), doc.metaKeys.value)
      ensures m.Some? ==> EncodesTo(doc.metaKeys.value, meta, m.value)
      ensures m.None? ==> exists k :: k in meta && Fieldless(k, old(seen))
      ensures m.Some? ==> forall k | k in meta :: !Fieldless(k, old(doc.metaKeys.value))
    {
      var encoded: map<string, string> := map[];
      var todo := meta.Keys;
      assert Extends(doc.metaKeys.value, doc.metaKeys.value);
      while todo != {}
        invariant Valid() && Extends(old(doc.metaKeys.value), doc.metaKeys.value) && todo <= meta.Keys
        invariant Encoded(doc.metaKeys.value, meta, encoded, todo)
        invariant forall k | k in meta && Fieldless(k, old(doc.metaKeys.value)) :: k in todo
        invariant old(seen) <= seen && NoInheritedPushed(old(doc.metaKeys.value), doc.metaKeys.value)
      {
        ghost var ks := doc.metaKeys.value;
        var k :| k in todo;
        var f := GetMongoField(k);
        ExtendsTransitive(old(doc.metaKeys.value), ks, doc.metaKeys.value);
        if f.None? {
          return None;
        }
        EncodedLater(ks, doc.metaKeys.value, meta, encoded, todo);
        EncodeOne(doc.metaKeys.value, meta, encoded, todo, k);
        encoded := encoded[f.value := meta[k]];
        todo := todo - {k};
      }
      return Some(encoded);
    }
  }

  /** The keys except `todo` are encoded. */
  ghost predicate Encoded(ks: seq<string>, meta: map<string, string>, m: map<string, string>, todo: set<string>) {
    && (forall k | k in meta && k !in todo :: k in ks && FieldOf(ks, k) in m && m[FieldOf(ks, k)] == meta[k])
    && (forall f | f in m :: exists k :: k in meta && k in ks && f == FieldOf(ks, k))
  }

  lemma ExtendsTransitive(a: seq<string>, b: seq<string>, c: seq<string>)
    requires Extends(a, b) && Extends(b, c)
    ensures Extends(a, c)
  {
    forall i | |a| <= i < |c| ensures c[i] !in c[..i] {
      if i < |b| {
        assert c[..i] == b[..i];
      }
    }
  }

  lemma EncodedLater(ks: seq<string>, later: seq<string>, meta: map<string, string>, m: map<string, string>, todo: set<string>)
    requires Extends(ks, later) && Encoded(ks, meta, m, todo)
    ensures Encoded(later, meta, m, todo)
  {
    hide FieldOf;
    forall k | k in meta && k in ks ensures k in later && FieldOf(later, k) == FieldOf(ks, k) {
      FieldIsStable(ks, later, k);
    }
  }

  lemma EncodeOne(ks: seq<string>, meta: map<string, string>, m: map<string, string>, todo: set<string>, k: string)
    requires Encoded(ks, meta, m, todo) && k in meta && k in ks
    ensures Encoded(ks, meta, m[FieldOf(ks, k) := meta[k]], todo - {k})
  {
    hide FieldOf;
    forall k' | k' in meta && k' in ks && FieldOf(ks, k') == FieldOf(ks, k) ensures k' == k {
      DistinctKeysDistinctFields(ks, k', k);
    }
  }
}
