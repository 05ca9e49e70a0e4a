/**
 Transaction records: content ids, idempotency keys and the run-time validator. The digest is
 a parameter; a statement about two ids assumes only that the digest tells apart the two
 texts it was applied to.
 */
module TransactionRecord {
  import opened Wrappers
  import opened Json
  import opened CanonicalJson

  type Digest = Text -> Text

  /** The digest does not map these two texts together unless they are equal. */
  predicate Separates(sha: Digest, x: Text, y: Text) { sha(x) == sha(y) ==> x == y }

  // ---------------------------------------------------------------- field access

  predicate IsAscii(s: string) { forall i :: 0 <= i < |s| ==> s[i] as int < 128 }

  /** The code units of an ASCII literal. */
  function Ascii(s: string): (t: Text)
    ensures |t| == |s|
  {
    seq(|s|, i requires 0 <= i < |s| => if s[i] as int < 128 then s[i] as int else 63)
  }

  lemma AsciiDistinct(a: string, b: string)
    requires IsAscii(a) && IsAscii(b) && a != b
    ensures Ascii(a) != Ascii(b)
  {
    if |a| == |b| {
      var i :| 0 <= i < |a| && a[i] != b[i];
      assert Ascii(a)[i] != Ascii(b)[i];
    }
  }

  /** `record[name]`; only objects have named fields. */
  function Get(record: Value, name: string): Value {
    if record.Obj? then Lookup(record.fields, Ascii(name)) else Absent
  }

  /** `name in record`: the key exists, whatever its value. */
  predicate Has(record: Value, name: string) {
    record.Obj? && exists i :: 0 <= i < |record.fields| && record.fields[i].key == Ascii(name)
  }

  function Without(fields: seq<Field>, key: Text): (r: seq<Field>)
    ensures forall f :: f in r ==> f in fields && f.key != key
  {
    if fields == [] then []
    else if fields[0].key == key then Without(fields[1..], key)
    else [fields[0]] + Without(fields[1..], key)
  }

  lemma WithoutWellFormed(fields: seq<Field>, key: Text)
    requires WellFormed(Obj(fields))
    ensures WellFormed(Obj(Without(fields, key)))
  {
    WithoutDistinct(fields, key);
    var r := Without(fields, key);
    forall i | 0 <= i < |r| ensures WellFormed(r[i].val) {
      assert r[i] in fields;
    }
  }

  lemma WithoutDistinct(fields: seq<Field>, key: Text)
    requires DistinctKeys(fields)
    ensures DistinctKeys(Without(fields, key))
  {
    if fields != [] {
      WithoutDistinct(fields[1..], key);
      var r := Without(fields[1..], key);
      forall i | 0 <= i < |r| ensures r[i].key != fields[0].key {
        assert r[i] in fields[1..];
      }
    }
  }

  lemma LookupWithout(fields: seq<Field>, key: Text, other: Text)
    requires key != other
    ensures Lookup(Without(fields, key), other) == Lookup(fields, other)
  {
  }

  // ---------------------------------------------------------------- transaction ids

  lemma {:induction false} WithoutNothing(fields: seq<Field>, key: Text)
    requires forall f :: f in fields ==> f.key != key
    ensures Without(fields, key) == fields
  {
    if fields != [] {
      assert fields[0] in fields;
      WithoutNothing(fields[1..], key);
    }
  }

  lemma HeadedLookup(head: Field, body: seq<Field>, key: Text)
    requires key != head.key
    ensures Lookup([head] + body, key) == Lookup(body, key)
  {
    assert ([head] + body)[1..] == body;
  }

  lemma HeadedWellFormed(head: Field, body: seq<Field>)
    requires WellFormed(Obj(body)) && WellFormed(head.val) && forall f :: f in body ==> f.key != head.key
    ensures WellFormed(Obj([head] + body))
  {
  }

  const TRANSACTION_ID := "transaction_id"

  /** The text whose digest is a record's id: its canonical form without the id field. */
  function IdText(record: Value): Option<Text> {
    if record.Obj? then Canonical(Obj(Without(record.fields, Ascii(TRANSACTION_ID)))) else None
  }

  function TransactionId(sha: Digest, record: Value): Option<Text> {
    match IdText(record)
    case None => None
    case Some(t) => Some(sha(t))
  }

  lemma SameTextSameField(f: seq<Field>, g: seq<Field>, key: Text)
    requires WellFormed(Obj(f)) && WellFormed(Obj(g))
    requires Canonical(Obj(f)).Some? && Canonical(Obj(f)) == Canonical(Obj(g))
    ensures Norm(Lookup(f, key)) == Norm(Lookup(g, key))
  {
    CanonicalInjective(Obj(f), Obj(g));
    LookupNorm(f, key);
    LookupNorm(g, key);
  }

  lemma SameIdTextSameField(a: Value, b: Value, name: string)
    requires WellFormed(a) && WellFormed(b)
    requires IdText(a).Some? && IdText(a) == IdText(b)
    requires IsAscii(name) && name != TRANSACTION_ID
    ensures Norm(Get(a, name)) == Norm(Get(b, name))
  {
    var id, key := Ascii(TRANSACTION_ID), Ascii(name);
    AsciiDistinct(TRANSACTION_ID, name);
    WithoutWellFormed(a.fields, id);
    WithoutWellFormed(b.fields, id);
    LookupWithout(a.fields, id, key);
    LookupWithout(b.fields, id, key);
    SameTextSameField(Without(a.fields, id), Without(b.fields, id), key);
  }

  /** Records that differ in any hashed field have different ids. */
  lemma TransactionIdSeparates(sha: Digest, a: Value, b: Value, name: string)
    requires WellFormed(a) && WellFormed(b)
    requires IdText(a).Some? && IdText(b).Some?
    requires Separates(sha, IdText(a).value, IdText(b).value)
    requires IsAscii(name) && name != TRANSACTION_ID
    requires Norm(Get(a, name)) != Norm(Get(b, name))
    ensures TransactionId(sha, a) != TransactionId(sha, b)
  {
    if IdText(a) == IdText(b) {
      SameIdTextSameField(a, b, name);
    }
  }

  /** The id does not depend on the order of the fields. */
  lemma TransactionIdForgetsOrder(sha: Digest, f: seq<Field>, g: seq<Field>)
    requires DistinctKeys(f) && multiset(f) == multiset(g)
    ensures TransactionId(sha, Obj(f)) == TransactionId(sha, Obj(g))
  {
    var id := Ascii(TRANSACTION_ID);
    WithoutKeeps(f, id);
    WithoutKeeps(g, id);
    WithoutDistinct(f, id);
    forall x ensures multiset(Without(f, id))[x] == multiset(Without(g, id))[x] {
    }
    assert multiset(Without(f, id)) == multiset(Without(g, id));
    CanonicalForgetsKeyOrder(Without(f, id), Without(g, id));
  }

  lemma WithoutKeeps(fields: seq<Field>, key: Text)
    ensures forall x :: multiset(Without(fields, key))[x] == if x.key == key then 0 else multiset(fields)[x]
  {
    if fields != [] {
      assert fields == [fields[0]] + fields[1..];
      WithoutKeeps(fields[1..], key);
    }
  }

  // ---------------------------------------------------------------- idempotency keys

  predicate Nullish(v: Value) { v.Absent? || v.Null? }

  predicate Falsy(v: Value) {
    Nullish(v) || v == Bool(false) || v == Str([]) || v == Num([48])
  }

  /** `v ?? null` */
  function OrNull(v: Value): Value { if v.Absent? then Null else v }

  /** An object literal with these keys and values. */
  function Named(names: seq<string>, vals: seq<Value>): (r: seq<Field>)
    requires |names| == |vals|
    ensures |r| == |names| && forall i :: 0 <= i < |r| ==> r[i] == Field(Ascii(names[i]), vals[i])
  {
    seq(|names|, i requires 0 <= i < |names| => Field(Ascii(names[i]), vals[i]))
  }

  predicate DistinctNames(names: seq<string>) {
    forall i, j :: 0 <= i < j < |names| ==> Ascii(names[i]) != Ascii(names[j])
  }

  const CONTENT_NAMES := ["post_state_hash", "writer_spawn_id", "head_anchor"]
  const KEY_NAMES := ["writer_persona_id", "operation_class", "content_hash", "prev_state_hash"]

  function ContentValues(record: Value): seq<Value> {
    [OrNull(Get(record, "post_state_hash")), Get(record, "writer_spawn_id"), OrNull(Get(record, "head_anchor"))]
  }

  function KeyValues(record: Value, contentHash: Text): seq<Value> {
    [Get(record, "writer_persona_id"), Get(record, "operation_class"), Str(contentHash), Get(record, "prev_state_hash")]
  }

  function ContentText(record: Value): Option<Text> { Canonical(Obj(Named(CONTENT_NAMES, ContentValues(record)))) }

  /** The text whose digest is the idempotency key derived from a record's own body. */
  function KeyText(sha: Digest, record: Value): Option<Text> {
    if || Falsy(Get(record, "writer_persona_id")) || Falsy(Get(record, "operation_class"))
       || Falsy(Get(record, "prev_state_hash")) || Falsy(Get(record, "writer_spawn_id")) then None
    else match ContentText(record)
      case None => None
      case Some(t) =>
        if sha(t) == [] then None else Canonical(Obj(Named(KEY_NAMES, KeyValues(record, sha(t)))))
  }

  function DeriveIdempotencyKey(sha: Digest, record: Value): Option<Text> {
    match KeyText(sha, record)
    case None => None
    case Some(t) => Some(sha(t))
  }

  lemma NamedWellFormed(names: seq<string>, vals: seq<Value>)
    requires DistinctNames(names) && |names| == |vals|
    requires forall i :: 0 <= i < |vals| ==> WellFormed(vals[i])
    ensures WellFormed(Obj(Named(names, vals)))
  {
  }

  predicate SameMeaning(u: seq<Value>, v: seq<Value>) {
    |u| == |v| && forall i :: 0 <= i < |u| ==> Norm(u[i]) == Norm(v[i])
  }

  /** Two object literals over the same keys have the same text exactly when their values mean the same. */
  lemma NamedInjective(names: seq<string>, u: seq<Value>, v: seq<Value>)
    requires DistinctNames(names) && |names| == |u| == |v|
    requires forall i :: 0 <= i < |u| ==> WellFormed(u[i]) && WellFormed(v[i])
    requires Canonical(Obj(Named(names, u))).Some? && Canonical(Obj(Named(names, v))).Some?
    ensures Canonical(Obj(Named(names, u))) == Canonical(Obj(Named(names, v))) <==> SameMeaning(u, v)
  {
    var f, g := Named(names, u), Named(names, v);
    NamedWellFormed(names, u);
    NamedWellFormed(names, v);
    if Canonical(Obj(f)) == Canonical(Obj(g)) {
      forall i | 0 <= i < |u| ensures Norm(u[i]) == Norm(v[i]) {
        SameTextSameField(f, g, f[i].key);
        LookupMember(f, i);
        LookupMember(g, i);
      }
    }
    if SameMeaning(u, v) {
      SameMeaningSameNorm(names, u, v);
    }
  }

  lemma SameMeaningSameNorm(names: seq<string>, u: seq<Value>, v: seq<Value>)
    requires |names| == |u| == |v| && SameMeaning(u, v)
    ensures NormFields(Named(names, u)) == NormFields(Named(names, v))
  {
    if u != [] {
      assert Named(names, u)[1..] == Named(names[1..], u[1..]);
      assert Named(names, v)[1..] == Named(names[1..], v[1..]);
      assert Norm(u[0]) == Norm(v[0]);
      assert u[0].Absent? <==> v[0].Absent?;
      SameMeaningSameNorm(names[1..], u[1..], v[1..]);
    }
  }

  lemma GetWellFormed(record: Value, name: string)
    requires WellFormed(record)
    ensures WellFormed(Get(record, name))
  {
  }

  lemma ContentValuesWellFormed(record: Value)
    requires WellFormed(record)
    ensures forall i :: 0 <= i < 3 ==> WellFormed(ContentValues(record)[i])
  {
    GetWellFormed(record, "post_state_hash");
    GetWellFormed(record, "writer_spawn_id");
    GetWellFormed(record, "head_anchor");
  }

  lemma KeyValuesWellFormed(record: Value, h: Text)
    requires WellFormed(record)
    ensures forall i :: 0 <= i < 4 ==> WellFormed(KeyValues(record, h)[i])
  {
    GetWellFormed(record, "writer_persona_id");
    GetWellFormed(record, "operation_class");
    GetWellFormed(record, "prev_state_hash");
  }

  lemma ContentNamesDistinct()
    ensures DistinctNames(CONTENT_NAMES)
  {
    assert |CONTENT_NAMES[0]| == 15 && |CONTENT_NAMES[1]| == 15 && |CONTENT_NAMES[2]| == 11;
    assert Ascii(CONTENT_NAMES[0])[0] == 112 && Ascii(CONTENT_NAMES[1])[0] == 119;
  }

  lemma KeyNamesDistinct()
    ensures DistinctNames(KEY_NAMES)
  {
    assert |KEY_NAMES[0]| == 17 && |KEY_NAMES[1]| == 15 && |KEY_NAMES[2]| == 12 && |KEY_NAMES[3]| == 15;
    assert Ascii(KEY_NAMES[1])[0] == 111 && Ascii(KEY_NAMES[3])[0] == 112;
  }

  /** The six facts an idempotency key binds. */
  predicate SameTransaction(a: Value, b: Value) {
    && Norm(Get(a, "writer_persona_id")) == Norm(Get(b, "writer_persona_id"))
    && Norm(Get(a, "operation_class")) == Norm(Get(b, "operation_class"))
    && Norm(Get(a, "prev_state_hash")) == Norm(Get(b, "prev_state_hash"))
    && SameMeaning(ContentValues(a), ContentValues(b))
  }

  /** The digest tells apart the texts that the keys of these two records are computed from. */
  predicate KeysSeparate(sha: Digest, a: Value, b: Value) {
    KeyText(sha, a).Some? && KeyText(sha, b).Some? ==>
      && Separates(sha, KeyText(sha, a).value, KeyText(sha, b).value)
      && Separates(sha, ContentText(a).value, ContentText(b).value)
  }

  lemma KeyValuesMeaning(a: Value, b: Value, ha: Text, hb: Text)
    ensures SameMeaning(KeyValues(a, ha), KeyValues(b, hb)) <==>
      && Norm(Get(a, "writer_persona_id")) == Norm(Get(b, "writer_persona_id"))
      && Norm(Get(a, "operation_class")) == Norm(Get(b, "operation_class"))
      && Norm(Get(a, "prev_state_hash")) == Norm(Get(b, "prev_state_hash"))
      && ha == hb
  {
    var u, v := KeyValues(a, ha), KeyValues(b, hb);
    assert Norm(u[2]) == Str(ha) && Norm(v[2]) == Str(hb);
    if SameMeaning(u, v) {
      assert Norm(u[0]) == Norm(v[0]) && Norm(u[1]) == Norm(v[1]) && Norm(u[3]) == Norm(v[3]);
    }
  }

  lemma ContentTextInjective(a: Value, b: Value)
    requires WellFormed(a) && WellFormed(b)
    requires ContentText(a).Some? && ContentText(b).Some?
    ensures ContentText(a) == ContentText(b) <==> SameMeaning(ContentValues(a), ContentValues(b))
  {
    ContentNamesDistinct();
    ContentValuesWellFormed(a);
    ContentValuesWellFormed(b);
    NamedInjective(CONTENT_NAMES, ContentValues(a), ContentValues(b));
  }

  lemma KeyTextInjective(a: Value, b: Value, ha: Text, hb: Text)
    requires WellFormed(a) && WellFormed(b)
    requires Canonical(Obj(Named(KEY_NAMES, KeyValues(a, ha)))).Some?
    requires Canonical(Obj(Named(KEY_NAMES, KeyValues(b, hb)))).Some?
    ensures Canonical(Obj(Named(KEY_NAMES, KeyValues(a, ha)))) == Canonical(Obj(Named(KEY_NAMES, KeyValues(b, hb))))
       <==> SameMeaning(KeyValues(a, ha), KeyValues(b, hb))
  {
    KeyNamesDistinct();
    KeyValuesWellFormed(a, ha);
    KeyValuesWellFormed(b, hb);
    NamedInjective(KEY_NAMES, KeyValues(a, ha), KeyValues(b, hb));
  }

  /** Two records derive the same key exactly when they are the same transaction. */
  lemma SameKeyIsSameTransaction(sha: Digest, a: Value, b: Value)
    requires WellFormed(a) && WellFormed(b)
    requires DeriveIdempotencyKey(sha, a).Some? && DeriveIdempotencyKey(sha, b).Some?
    requires KeysSeparate(sha, a, b)
    ensures DeriveIdempotencyKey(sha, a) == DeriveIdempotencyKey(sha, b) <==> SameTransaction(a, b)
  {
    var ha, hb := sha(ContentText(a).value), sha(ContentText(b).value);
    ContentTextInjective(a, b);
    KeyTextInjective(a, b, ha, hb);
    KeyValuesMeaning(a, b, ha, hb);
  }

  // ---------------------------------------------------------------- what the hashed texts say

  /** A text that reads as an object of `n` fields. */
  predicate ReadsAsObject(t: Text, n: nat) {
    Read(t).Parsed? && Read(t).rest == [] && Read(t).value.Obj? && |Read(t).value.fields| == n
  }

  lemma {:induction false} NormFieldsAll(fields: seq<Field>)
    requires forall i :: 0 <= i < |fields| ==> !fields[i].val.Absent?
    ensures |NormFields(fields)| == |fields|
  {
    if fields != [] { NormFieldsAll(fields[1..]); }
  }

  predicate AllPresent(vals: seq<Value>) { forall i :: 0 <= i < |vals| ==> WellFormed(vals[i]) && !vals[i].Absent? }

  /** What the text of an object literal reads back as. */
  predicate Says(t: Text, names: seq<string>, vals: seq<Value>)
    requires |names| == |vals|
  {
    ReadsAsObject(t, |names|) && forall i :: 0 <= i < |names| ==> Get(Read(t).value, names[i]) == Norm(vals[i])
  }

  /** The text of an object literal without absent values reads back as exactly its keys and values. */
  lemma NamedReads(names: seq<string>, vals: seq<Value>)
    requires DistinctNames(names) && |names| == |vals| && AllPresent(vals)
    requires Canonical(Obj(Named(names, vals))).Some?
    ensures Says(Canonical(Obj(Named(names, vals))).value, names, vals)
  {
    var fields := Named(names, vals);
    NamedWellFormed(names, vals);
    ReadRecoversNorm(Obj(fields));
    NormFieldsAll(fields);
    SortMembers(NormFields(fields));
    forall i | 0 <= i < |names| ensures Lookup(Norm(Obj(fields)).fields, Ascii(names[i])) == Norm(vals[i]) {
      LookupNorm(fields, Ascii(names[i]));
      LookupMember(fields, i);
    }
  }

  lemma SaysAt(t: Text, names: seq<string>, vals: seq<Value>, i: nat, name: string)
    requires |names| == |vals| && Says(t, names, vals) && i < |names| && names[i] == name
    ensures Get(Read(t).value, name) == Norm(vals[i])
  {
  }

  /** The content text is the object of exactly these three fields of the record, a missing one read as null. */
  lemma ContentTextReads(record: Value)
    requires WellFormed(record) && !Get(record, "writer_spawn_id").Absent? && ContentText(record).Some?
    ensures var t := ContentText(record).value;
      && ReadsAsObject(t, 3)
      && Get(Read(t).value, "post_state_hash") == Norm(OrNull(Get(record, "post_state_hash")))
      && Get(Read(t).value, "writer_spawn_id") == Norm(Get(record, "writer_spawn_id"))
      && Get(Read(t).value, "head_anchor") == Norm(OrNull(Get(record, "head_anchor")))
  {
    var t := ContentText(record).value;
    ContentNamesDistinct();
    ContentValuesWellFormed(record);
    NamedReads(CONTENT_NAMES, ContentValues(record));
    SaysAt(t, CONTENT_NAMES, ContentValues(record), 0, "post_state_hash");
    SaysAt(t, CONTENT_NAMES, ContentValues(record), 1, "writer_spawn_id");
    SaysAt(t, CONTENT_NAMES, ContentValues(record), 2, "head_anchor");
  }

  /** What a key text over this content digest says. */
  predicate IsKeyObject(t: Text, record: Value, h: Text) {
    && ReadsAsObject(t, 4)
    && Get(Read(t).value, "writer_persona_id") == Norm(Get(record, "writer_persona_id"))
    && Get(Read(t).value, "operation_class") == Norm(Get(record, "operation_class"))
    && Get(Read(t).value, "prev_state_hash") == Norm(Get(record, "prev_state_hash"))
    && Get(Read(t).value, "content_hash") == Str(h)
  }

  lemma KeyTextSays(t: Text, record: Value, h: Text)
    requires Says(t, KEY_NAMES, KeyValues(record, h))
    ensures IsKeyObject(t, record, h)
  {
    SaysAt(t, KEY_NAMES, KeyValues(record, h), 0, "writer_persona_id");
    SaysAt(t, KEY_NAMES, KeyValues(record, h), 1, "operation_class");
    SaysAt(t, KEY_NAMES, KeyValues(record, h), 2, "content_hash");
    SaysAt(t, KEY_NAMES, KeyValues(record, h), 3, "prev_state_hash");
  }

  lemma KeyValuesPresent(record: Value, h: Text)
    requires WellFormed(record)
    requires !Get(record, "writer_persona_id").Absent? && !Get(record, "operation_class").Absent?
    requires !Get(record, "prev_state_hash").Absent?
    ensures AllPresent(KeyValues(record, h))
  {
    KeyValuesWellFormed(record, h);
  }

  /** The values JavaScript takes for false. */
  const FALSE_VALUES := {Absent, Null, Bool(false), Num([48]), Str([])}

  /** A key is derived only from four inputs that count as true. */
  lemma KeyInputsTrue(sha: Digest, record: Value)
    requires KeyText(sha, record).Some?
    ensures Get(record, "writer_spawn_id") !in FALSE_VALUES && Get(record, "writer_persona_id") !in FALSE_VALUES
    ensures Get(record, "operation_class") !in FALSE_VALUES && Get(record, "prev_state_hash") !in FALSE_VALUES
  {
    FalsyIs(Get(record, "writer_spawn_id"));
    FalsyIs(Get(record, "writer_persona_id"));
    FalsyIs(Get(record, "operation_class"));
    FalsyIs(Get(record, "prev_state_hash"));
  }

  lemma FalsyIs(v: Value)
    ensures Falsy(v) <==> v in FALSE_VALUES
  {
  }

  lemma NotFalse(v: Value)
    requires v !in FALSE_VALUES
    ensures !v.Absent?
  {
  }

  lemma KeyTextIs(sha: Digest, record: Value)
    requires KeyText(sha, record).Some?
    ensures ContentText(record).Some?
    ensures KeyText(sha, record) == Canonical(Obj(Named(KEY_NAMES, KeyValues(record, sha(ContentText(record).value)))))
  {
  }

  /** The key text is the object of exactly these three fields of the record and the digest of the content text. */
  lemma KeyTextReads(sha: Digest, record: Value)
    requires WellFormed(record) && KeyText(sha, record).Some?
    ensures ContentText(record).Some? && IsKeyObject(KeyText(sha, record).value, record, sha(ContentText(record).value))
  {
    KeyTextIs(sha, record);
    KeyInputsTrue(sha, record);
    NotFalse(Get(record, "writer_persona_id"));
    NotFalse(Get(record, "operation_class"));
    NotFalse(Get(record, "prev_state_hash"));
    KeyObjectReads(record, sha(ContentText(record).value));
  }

  lemma KeyObjectReads(record: Value, h: Text)
    requires WellFormed(record) && Canonical(Obj(Named(KEY_NAMES, KeyValues(record, h)))).Some?
    requires !Get(record, "writer_persona_id").Absent? && !Get(record, "operation_class").Absent?
    requires !Get(record, "prev_state_hash").Absent?
    ensures IsKeyObject(Canonical(Obj(Named(KEY_NAMES, KeyValues(record, h)))).value, record, h)
  {
    KeyNamesDistinct();
    KeyValuesPresent(record, h);
    NamedReads(KEY_NAMES, KeyValues(record, h));
    KeyTextSays(Canonical(Obj(Named(KEY_NAMES, KeyValues(record, h)))).value, record, h);
  }

  lemma {:induction false} WithoutMiddle(a: seq<Field>, f: Field, b: seq<Field>)
    requires forall g :: g in a + b ==> g.key != f.key
    ensures Without(a + [f] + b, f.key) == a + b
  {
    if a == [] {
      assert [] + [f] + b == [f] + b && ([f] + b)[1..] == b && [] + b == b;
      forall g | g in b ensures g.key != f.key { assert g in a + b; }
      WithoutNothing(b, f.key);
    } else {
      assert (a + [f] + b)[1..] == a[1..] + [f] + b && a + b == [a[0]] + (a[1..] + b);
      forall g | g in a[1..] + b ensures g.key != f.key { assert g in a + b; }
      assert a[0] in a + b;
      WithoutMiddle(a[1..], f, b);
    }
  }

  /** A record's id is the digest of the canonical text of its other fields, wherever the id stands among them. */
  lemma IdIsDigestOfOthers(sha: Digest, a: seq<Field>, id: Value, b: seq<Field>)
    requires forall g :: g in a + b ==> g.key != Ascii("transaction_id")
    ensures TransactionId(sha, Obj(a + [Field(Ascii("transaction_id"), id)] + b)) ==
      match Canonical(Obj(a + b)) case None => None case Some(t) => Some(sha(t))
  {
    WithoutMiddle(a, Field(Ascii("transaction_id"), id), b);
  }

  lemma WithoutReads(fields: seq<Field>, id: Text, key: Text)
    requires WellFormed(Obj(fields)) && Canonical(Obj(Without(fields, id))).Some?
    ensures var p := Read(Canonical(Obj(Without(fields, id))).value);
      && p.Parsed? && p.rest == [] && p.value.Obj?
      && Lookup(p.value.fields, key) == if key == id then Absent else Norm(Lookup(fields, key))
  {
    var rest := Without(fields, id);
    WithoutWellFormed(fields, id);
    ReadRecoversNorm(Obj(rest));
    LookupNorm(rest, key);
    if key == id { LookupMissing(rest, id); } else { LookupWithout(fields, id, key); }
  }

  /** The hashed text of an id says every field of the record but the id itself. */
  lemma IdTextReads(record: Value, name: string)
    requires WellFormed(record) && IdText(record).Some? && IsAscii(name)
    ensures Read(IdText(record).value).Parsed? && Read(IdText(record).value).rest == []
    ensures Get(Read(IdText(record).value).value, name) ==
            if name == "transaction_id" then Absent else Norm(Get(record, name))
  {
    if name != TRANSACTION_ID { AsciiDistinct(TRANSACTION_ID, name); }
    WithoutReads(record.fields, Ascii(TRANSACTION_ID), Ascii(name));
  }

  // ---------------------------------------------------------------- the validator

  predicate IsHexUnit(c: CodeUnit) { 48 <= c <= 57 || 97 <= c <= 102 }

  predicate IsHex64(t: Text) { |t| == 64 && forall i :: 0 <= i < 64 ==> IsHexUnit(t[i]) }

  predicate IsHexString(v: Value) { v.Str? && IsHex64(v.s) }

  function DigitRun(t: Text): (n: nat)
    ensures n <= |t|
  {
    if t == [] || !IsDigit(t[0]) then 0 else 1 + DigitRun(t[1..])
  }

  predicate IsWordUnit(c: CodeUnit) {
    IsDigit(c) || 65 <= c <= 90 || 97 <= c <= 122 || c == 95 || c == 45
  }

  /** What follows a version number, `<digits>[.<digits>]`, if there is one. */
  function AfterVersion(t: Text): Option<Text> {
    var major := DigitRun(t);
    var rest := t[major..];
    var minor := if rest != [] && rest[0] == 46 then DigitRun(rest[1..]) else 0;
    if major == 0 then None else if minor > 0 then Some(rest[1 + minor..]) else Some(rest)
  }

  /** A version and a scope after the marker. */
  predicate IsGenesisEvidence(t: Text) {
    AfterVersion(t) == Some(Ascii(":per-user")) || AfterVersion(t) == Some(Ascii(":per-project"))
  }

  predicate IsBootstrapSentinel(t: Text) {
    || (StartsWith(t, Ascii("USER_INTENT_AXIOM:")) && IsHex64(t[18..]))
    || (StartsWith(t, Ascii("GENESIS_EVIDENCE:v")) && IsGenesisEvidence(t[18..]))
    || (StartsWith(t, Ascii("ROOT_TASK_RECORD:")) && |t| > 17 && forall i :: 17 <= i < |t| ==> IsWordUnit(t[i]))
  }

  /** A genesis marker or a bootstrap sentinel in the predecessor field. */
  predicate IsGenesisPosition(record: Value) {
    var prev := Get(record, "prev_state_hash");
    prev.Str? && (prev.s == Ascii("GENESIS") || IsBootstrapSentinel(prev.s))
  }

  predicate OneOf(v: Value, names: seq<string>) {
    v.Str? && exists i :: 0 <= i < |names| && v.s == Ascii(names[i])
  }

  const OPERATIONS := ["CREATE", "APPEND", "SUPERSEDE", "TOMBSTONE", "DERIVED-VIEW-INVALIDATE"]
  const STATE_CHANGING := ["CREATE", "APPEND", "SUPERSEDE", "TOMBSTONE"]
  const OUTCOMES := ["PENDING", "COMMITTED", "ABORTED", "ROLLED-BACK", "NOT_APPLICABLE"]
  const REQUIRED := ["transaction_id", "prev_state_hash", "writer_persona_id", "writer_spawn_id",
                     "operation_class", "intent_recorded_at", "commit_outcome", "schema_version"]

  predicate EnumAndHexOk(record: Value, genesis: bool) {
    && (Nullish(Get(record, "operation_class")) || OneOf(Get(record, "operation_class"), OPERATIONS))
    && (Nullish(Get(record, "commit_outcome")) || OneOf(Get(record, "commit_outcome"), OUTCOMES))
    && (Get(record, "transaction_id").Str? ==> IsHexString(Get(record, "transaction_id")))
    && (Get(record, "prev_state_hash").Str? ==>
          IsHexString(Get(record, "prev_state_hash")) || (genesis && IsGenesisPosition(record)))
  }

  predicate StringOrNull(v: Value) { Nullish(v) || v.Str? }

  predicate StringsOrNull(v: Value) {
    Nullish(v) || (v.Arr? && forall i :: 0 <= i < |v.items| ==> v.items[i].Str?)
  }

  predicate HashFedShapesOk(record: Value) {
    && (Nullish(Get(record, "idempotency_key")) || IsHexString(Get(record, "idempotency_key")))
    && StringOrNull(Get(record, "head_anchor"))
    && StringOrNull(Get(record, "post_state_hash"))
    && StringOrNull(Get(record, "references_transaction_id"))
    && StringsOrNull(Get(record, "evidence_refs"))
    && StringsOrNull(Get(record, "affected_records"))
    && (Nullish(Get(record, "abort_detail")) || Get(record, "abort_detail").Obj?)
  }

  predicate SemanticsOk(record: Value) {
    && (OneOf(Get(record, "operation_class"), STATE_CHANGING) ==>
          Get(record, "evidence_refs").Arr? && Get(record, "evidence_refs").items != [])
    && (Get(record, "operation_class") == Str(Ascii("DERIVED-VIEW-INVALIDATE")) ==>
          Get(record, "commit_outcome") == Str(Ascii("NOT_APPLICABLE")))
  }

  predicate HasRequired(record: Value) { forall i :: 0 <= i < |REQUIRED| ==> Has(record, REQUIRED[i]) }

  /** The validator: an empty error list. */
  predicate ValidRecord(record: Value, genesis: bool) {
    && record.Obj?
    && !Has(record, "_test_chain_marker")
    && HasRequired(record)
    && EnumAndHexOk(record, genesis)
    && HashFedShapesOk(record)
    && SemanticsOk(record)
  }

  /** Every required field holds a value that JSON can write. */
  predicate RequiredPresent(record: Value) {
    forall i :: 0 <= i < |REQUIRED| ==> !Get(record, REQUIRED[i]).Absent?
  }

  // ---------------------------------------------------------------- records after a native round trip

  lemma {:induction false} LookupImage(fields: seq<Field>, key: Text)
    requires DistinctKeys(fields)
    ensures Lookup(ImageFields(fields), key) == Image(Lookup(fields, key))
  {
    if fields != [] {
      LookupImage(fields[1..], key);
      var rest := ImageFields(fields[1..]);
      if !fields[0].val.Absent? {
        assert ImageFields(fields)[1..] == rest;
      } else if fields[0].key == key {
        LookupMissing(rest, key);
      }
    }
  }

  lemma GetImage(record: Value, name: string)
    requires WellFormed(record)
    ensures Get(Image(record), name) == Image(Get(record, name))
  {
    if record.Obj? {
      LookupImage(record.fields, Ascii(name));
    }
  }

  lemma LookupPresent(fields: seq<Field>, key: Text)
    requires forall f :: f in fields ==> !f.val.Absent?
    ensures Lookup(fields, key) != Absent <==> exists i :: 0 <= i < |fields| && fields[i].key == key
  {
    if fields != [] {
      LookupPresent(fields[1..], key);
      assert forall i :: 0 <= i < |fields[1..]| ==> fields[1..][i] == fields[i + 1];
      if i :| 0 <= i < |fields| && fields[i].key == key && i > 0 {
        assert fields[1..][i - 1].key == key;
      }
    }
  }

  /** After the round trip a key exists exactly when its value was not absent. */
  lemma HasImage(record: Value, name: string)
    requires WellFormed(record) && record.Obj?
    ensures Has(Image(record), name) <==> !Get(record, name).Absent?
  {
    ImageFieldsPresent(record.fields);
    LookupPresent(ImageFields(record.fields), Ascii(name));
    GetImage(record, name);
    NormImage(Get(record, name));
  }

  lemma ImageFieldsPresent(fields: seq<Field>)
    ensures forall f :: f in ImageFields(fields) ==> !f.val.Absent?
  {
    if fields != [] {
      NormImage(fields[0].val);
      ImageFieldsPresent(fields[1..]);
    }
  }

  lemma ImageStrings(v: Value)
    requires StringsOrNull(v)
    ensures StringsOrNull(Image(v))
  {
    if v.Arr? {
      ImageOfStrings(v.items);
    }
  }

  lemma ImageOfStrings(items: seq<Value>)
    requires forall i :: 0 <= i < |items| ==> items[i].Str?
    ensures ImageItems(items) == items
  {
    if items != [] {
      assert items == [items[0]] + items[1..];
      ImageOfStrings(items[1..]);
    }
  }

  lemma IdTextImage(record: Value)
    requires WellFormed(record) && IdText(record).Some?
    ensures IdText(Image(record)) == IdText(record)
  {
    var id := Ascii(TRANSACTION_ID);
    WithoutWellFormed(record.fields, id);
    CanonicalSurvivesNative(Obj(Without(record.fields, id)));
    ImageWithout(record.fields, id);
  }

  lemma {:induction false} ImageWithout(fields: seq<Field>, key: Text)
    ensures ImageFields(Without(fields, key)) == Without(ImageFields(fields), key)
  {
    if fields != [] {
      ImageWithout(fields[1..], key);
      var rest := ImageFields(fields[1..]);
      if !fields[0].val.Absent? {
        assert ImageFields(fields)[1..] == rest;
      }
      if fields[0].key != key {
        assert Without(fields, key)[1..] == Without(fields[1..], key);
      }
    }
  }

  /** The append path's round-trip check never rejects a value free of `toJSON`. */
  lemma IdSurvivesNative(sha: Digest, record: Value)
    requires WellFormed(record) && TransactionId(sha, record).Some?
    ensures TransactionId(sha, Image(record)) == TransactionId(sha, record)
  {
    IdTextImage(record);
  }

  lemma GenesisImage(record: Value)
    requires WellFormed(record)
    ensures IsGenesisPosition(Image(record)) == IsGenesisPosition(record)
  {
    GetImage(record, "prev_state_hash");
  }

  lemma EnumAndHexImage(record: Value, genesis: bool)
    requires WellFormed(record) && EnumAndHexOk(record, genesis)
    ensures EnumAndHexOk(Image(record), genesis)
  {
    GetImage(record, "operation_class");
    GetImage(record, "commit_outcome");
    GetImage(record, "transaction_id");
    GetImage(record, "prev_state_hash");
    GenesisImage(record);
  }

  lemma HashFedShapesImage(record: Value)
    requires WellFormed(record) && HashFedShapesOk(record)
    ensures HashFedShapesOk(Image(record))
  {
    GetImage(record, "idempotency_key");
    GetImage(record, "head_anchor");
    GetImage(record, "post_state_hash");
    GetImage(record, "references_transaction_id");
    GetImage(record, "evidence_refs");
    GetImage(record, "affected_records");
    GetImage(record, "abort_detail");
    ImageStrings(Get(record, "evidence_refs"));
    ImageStrings(Get(record, "affected_records"));
  }

  lemma SemanticsImage(record: Value)
    requires WellFormed(record) && SemanticsOk(record)
    ensures SemanticsOk(Image(record))
  {
    GetImage(record, "operation_class");
    GetImage(record, "commit_outcome");
    GetImage(record, "evidence_refs");
  }

  lemma HasRequiredImage(record: Value)
    requires WellFormed(record) && record.Obj?
    ensures HasRequired(Image(record)) <==> RequiredPresent(record)
  {
    forall i | 0 <= i < |REQUIRED|
      ensures Has(Image(record), REQUIRED[i]) <==> !Get(record, REQUIRED[i]).Absent?
    {
      HasImage(record, REQUIRED[i]);
    }
  }

  /** A valid record stays valid on disk exactly when its required fields are all present. */
  lemma ValidAfterNative(record: Value, genesis: bool)
    requires WellFormed(record) && ValidRecord(record, genesis)
    ensures ValidRecord(Image(record), genesis) <==> RequiredPresent(record)
  {
    EnumAndHexImage(record, genesis);
    HashFedShapesImage(record);
    SemanticsImage(record);
    NoMarkerImage(record);
    HasRequiredImage(record);
  }

  lemma NoMarkerImage(record: Value)
    requires WellFormed(record) && record.Obj? && !Has(record, "_test_chain_marker")
    ensures !Has(Image(record), "_test_chain_marker")
  {
    HasImage(record, "_test_chain_marker");
  }
}
