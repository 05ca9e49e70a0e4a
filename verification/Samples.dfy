/** Actual records at which the promises of the record store that fail do fail. */
module Samples {
  import opened Wrappers
  import opened Json
  import opened CanonicalJson
  import opened TransactionRecord
  import opened RecordStore
  import K = KeyedAppend

  const NAMES := ["prev_state_hash", "writer_persona_id", "writer_spawn_id", "operation_class", "intent_recorded_at",
                  "commit_outcome", "schema_version", "idempotency_key"]

  function Repeated(c: CodeUnit, n: nat): (t: Text)
    ensures |t| == n && forall i :: 0 <= i < n ==> t[i] == c
    decreases n, c
  {
    if n == 0 then [] else [c] + Repeated(c, n - 1)
  }

  /** A digest of sixty-four times the same letter. */
  function Hex(c: CodeUnit): (t: Text)
    ensures |t| == 64 && forall i :: 0 <= i < 64 ==> t[i] == c
  {
    Repeated(c, 64)
  }

  const LETTER_A: CodeUnit := 97
  const LETTER_B: CodeUnit := 98

  lemma NamesDistinct()
    ensures DistinctNames(NAMES)
    ensures forall i :: 0 <= i < |NAMES| ==> Ascii(NAMES[i]) != Ascii(TRANSACTION_ID)
  {
    assert |NAMES[0]| == 15 && |NAMES[1]| == 17 && |NAMES[2]| == 15 && |NAMES[3]| == 15;
    assert |NAMES[4]| == 18 && |NAMES[5]| == 14 && |NAMES[6]| == 14 && |NAMES[7]| == 15 && |TRANSACTION_ID| == 14;
    assert Ascii(NAMES[0])[0] == 112 && Ascii(NAMES[2])[0] == 119 && Ascii(NAMES[3])[0] == 111 && Ascii(NAMES[7])[0] == 105;
    assert Ascii(NAMES[5])[0] == 99 && Ascii(NAMES[6])[0] == 115 && Ascii(TRANSACTION_ID)[0] == 116;
  }

  /** The eight values, by the intent time and the key. */
  function Values(when: Value, key: Value): (vals: seq<Value>)
    ensures |vals| == |NAMES|
  {
    [Str(Hex(LETTER_A)), Str(Ascii("p")), Str(Ascii("s")), Str(Ascii("DERIVED-VIEW-INVALIDATE")), when,
     Str(Ascii("NOT_APPLICABLE")), Str(Ascii("v1")), key]
  }

  function Fields(when: Value, key: Value): seq<Field> { Named(NAMES, Values(when, key)) }

  /** A record with this id, intent time and key. */
  function Sample(id: Text, when: Value, key: Value): Value {
    Obj([Field(Ascii(TRANSACTION_ID), Str(id))] + Fields(when, key))
  }

  predicate Plain(v: Value) { v.Absent? || v.Str? }

  // ---------------------------------------------------------------- its fields

  lemma BodyWellFormed(when: Value, key: Value)
    requires Plain(when) && Plain(key)
    ensures WellFormed(Obj(Fields(when, key)))
    ensures forall f :: f in Fields(when, key) ==> Plain(f.val) && f.key != Ascii(TRANSACTION_ID)
  {
    NamesDistinct();
    var vals := Values(when, key);
    assert forall i :: 0 <= i < |vals| ==> Plain(vals[i]);
    NamedWellFormed(NAMES, vals);
  }

  lemma SampleWellFormed(id: Text, when: Value, key: Value)
    requires Plain(when) && Plain(key)
    ensures WellFormed(Sample(id, when, key))
  {
    BodyWellFormed(when, key);
    HeadedWellFormed(Field(Ascii(TRANSACTION_ID), Str(id)), Fields(when, key));
  }

  /** What the `i`-th named field of a sample reads as. */
  lemma SampleField(id: Text, when: Value, key: Value, i: nat)
    requires Plain(when) && Plain(key) && i < |NAMES|
    ensures Get(Sample(id, when, key), NAMES[i]) == Values(when, key)[i] && Has(Sample(id, when, key), NAMES[i])
    ensures Lookup(Fields(when, key), Ascii(NAMES[i])) == Values(when, key)[i]
  {
    var body := Fields(when, key);
    NamesDistinct();
    BodyWellFormed(when, key);
    LookupMember(body, i);
    HeadedLookup(Field(Ascii(TRANSACTION_ID), Str(id)), body, Ascii(NAMES[i]));
    assert Sample(id, when, key).fields[i + 1] == body[i];
  }

  predicate Unnamed(name: string) {
    Ascii(name) != Ascii(TRANSACTION_ID) && forall i :: 0 <= i < |NAMES| ==> Ascii(NAMES[i]) != Ascii(name)
  }

  lemma NoField(id: Text, when: Value, key: Value, name: string)
    requires Unnamed(name)
    ensures Get(Sample(id, when, key), name) == Absent && !Has(Sample(id, when, key), name)
  {
    LookupMissing(Sample(id, when, key).fields, Ascii(name));
  }

  lemma NoOtherFields(id: Text, when: Value, key: Value)
    ensures Get(Sample(id, when, key), "head_anchor").Absent? && Get(Sample(id, when, key), "post_state_hash").Absent?
    ensures Get(Sample(id, when, key), "references_transaction_id").Absent?
    ensures Get(Sample(id, when, key), "evidence_refs").Absent? && Get(Sample(id, when, key), "affected_records").Absent?
    ensures Get(Sample(id, when, key), "abort_detail").Absent? && !Has(Sample(id, when, key), "_test_chain_marker")
  {
    UnnamedFields();
    NoField(id, when, key, "head_anchor");
    NoField(id, when, key, "post_state_hash");
    NoField(id, when, key, "references_transaction_id");
    NoField(id, when, key, "evidence_refs");
    NoField(id, when, key, "affected_records");
    NoField(id, when, key, "abort_detail");
    NoField(id, when, key, "_test_chain_marker");
  }

  lemma NameLengths()
    ensures |NAMES[0]| == 15 && |NAMES[1]| == 17 && |NAMES[2]| == 15 && |NAMES[3]| == 15
    ensures |NAMES[4]| == 18 && |NAMES[5]| == 14 && |NAMES[6]| == 14 && |NAMES[7]| == 15 && |TRANSACTION_ID| == 14
  {
  }

  lemma UnnamedFields()
    ensures Unnamed("head_anchor") && Unnamed("references_transaction_id") && Unnamed("evidence_refs")
    ensures Unnamed("affected_records") && Unnamed("abort_detail")
    ensures Unnamed("post_state_hash") && Unnamed("_test_chain_marker")
  {
    NameLengths();
    assert |"head_anchor"| == 11 && |"references_transaction_id"| == 25 && |"evidence_refs"| == 13;
    assert |"affected_records"| == 16 && |"abort_detail"| == 12;
    UnnamedPost();
    UnnamedMarker();
  }

  lemma UnnamedPost()
    ensures Unnamed("post_state_hash")
  {
    NameLengths();
    var p := Ascii("post_state_hash");
    assert |p| == 15 && p[0] == 112 && p[1] == 111;
    assert Ascii(NAMES[0])[1] == 114 && Ascii(NAMES[2])[0] == 119 && Ascii(NAMES[3])[0] == 111 && Ascii(NAMES[7])[0] == 105;
  }

  lemma UnnamedMarker()
    ensures Unnamed("_test_chain_marker")
  {
    NameLengths();
    assert |"_test_chain_marker"| == 18;
    assert Ascii("_test_chain_marker")[0] == 95 && Ascii(NAMES[4])[0] == 105;
  }

  // ---------------------------------------------------------------- its texts

  lemma {:induction false} PlainBudget(fields: seq<Field>)
    requires forall f :: f in fields ==> Plain(f.val)
    ensures NodesFields(fields) == |fields| && DepthFields(fields) <= 1
  {
    if fields != [] {
      assert fields[0] in fields;
      PlainBudget(fields[1..]);
    }
  }

  lemma PlainCanonical(fields: seq<Field>)
    requires |fields| < 100 && forall f :: f in fields ==> Plain(f.val)
    ensures Canonical(Obj(fields)).Some?
  {
    PlainBudget(fields);
  }

  /** The id text of a sample is that of its body. */
  lemma SampleIdText(id: Text, when: Value, key: Value)
    requires Plain(when) && Plain(key)
    ensures Canonical(Obj(Fields(when, key))).Some?
    ensures IdText(Sample(id, when, key)) == Canonical(Obj(Fields(when, key)))
  {
    BodyWellFormed(when, key);
    PlainCanonical(Fields(when, key));
    WithoutNothing(Fields(when, key), Ascii(TRANSACTION_ID));
    assert Sample(id, when, key).fields[1..] == Fields(when, key);
  }

  // ---------------------------------------------------------------- the validator accepts it

  lemma SampleValues(id: Text, when: Value, key: Value)
    requires Plain(when) && Plain(key)
    ensures var r := Sample(id, when, key);
      && Get(r, TRANSACTION_ID) == Str(id)
      && Get(r, "prev_state_hash") == Str(Hex(LETTER_A)) && Get(r, "writer_persona_id") == Str(Ascii("p"))
      && Get(r, "writer_spawn_id") == Str(Ascii("s")) && Get(r, "operation_class") == Str(Ascii("DERIVED-VIEW-INVALIDATE"))
      && Get(r, "intent_recorded_at") == when && Get(r, "commit_outcome") == Str(Ascii("NOT_APPLICABLE"))
      && Get(r, "idempotency_key") == key && Get(r, "schema_version") == Str(Ascii("v1"))
  {
    SampleField(id, when, key, 0);
    SampleField(id, when, key, 1);
    SampleField(id, when, key, 2);
    SampleField(id, when, key, 3);
    SampleField(id, when, key, 4);
    SampleField(id, when, key, 5);
    SampleField(id, when, key, 6);
    SampleField(id, when, key, 7);
  }

  lemma RequiredNames()
    ensures REQUIRED[0] == TRANSACTION_ID && forall i :: 1 <= i < |REQUIRED| ==> REQUIRED[i] == NAMES[i - 1]
  {
    assert REQUIRED[1..] == NAMES[..7];
    forall i | 1 <= i < |REQUIRED| ensures REQUIRED[i] == NAMES[i - 1] {
      assert REQUIRED[1..][i - 1] == NAMES[..7][i - 1];
    }
  }

  lemma IdField(id: Text, when: Value, key: Value)
    ensures Has(Sample(id, when, key), TRANSACTION_ID) && Get(Sample(id, when, key), TRANSACTION_ID) == Str(id)
  {
    assert Sample(id, when, key).fields[0].key == Ascii(TRANSACTION_ID);
  }

  lemma SampleRequired(id: Text, when: Value, key: Value, i: nat)
    requires Plain(when) && Plain(key) && i < |REQUIRED|
    ensures Has(Sample(id, when, key), REQUIRED[i])
    ensures Get(Sample(id, when, key), REQUIRED[i]).Absent? <==> i == 5 && when.Absent?
  {
    RequiredNames();
    if i == 0 {
      IdField(id, when, key);
    } else {
      SampleField(id, when, key, i - 1);
      ValueAbsent(when, key, i - 1);
    }
  }

  lemma ValueAbsent(when: Value, key: Value, i: nat)
    requires i < 7
    ensures Values(when, key)[i].Absent? <==> i == 4 && when.Absent?
  {
  }

  lemma SampleHasRequired(id: Text, when: Value, key: Value)
    requires Plain(when) && Plain(key)
    ensures HasRequired(Sample(id, when, key))
    ensures RequiredPresent(Sample(id, when, key)) <==> !when.Absent?
  {
    forall i | 0 <= i < |REQUIRED|
      ensures Has(Sample(id, when, key), REQUIRED[i])
      ensures Get(Sample(id, when, key), REQUIRED[i]).Absent? <==> i == 5 && when.Absent?
    {
      SampleRequired(id, when, key, i);
    }
    SampleRequired(id, when, key, 5);
  }

  lemma SampleOperation()
    ensures OneOf(Str(Ascii("DERIVED-VIEW-INVALIDATE")), OPERATIONS)
    ensures !OneOf(Str(Ascii("DERIVED-VIEW-INVALIDATE")), STATE_CHANGING)
    ensures OneOf(Str(Ascii("NOT_APPLICABLE")), OUTCOMES)
  {
    assert OPERATIONS[4] == "DERIVED-VIEW-INVALIDATE" && OUTCOMES[4] == "NOT_APPLICABLE";
    assert |STATE_CHANGING[0]| == 6 && |STATE_CHANGING[1]| == 6 && |STATE_CHANGING[2]| == 9 && |STATE_CHANGING[3]| == 9;
    assert |"DERIVED-VIEW-INVALIDATE"| == 23;
  }

  lemma SampleEnums(id: Text, when: Value, key: Value, genesis: bool)
    requires Plain(when) && Plain(key) && IsHex64(id)
    ensures EnumAndHexOk(Sample(id, when, key), genesis)
  {
    SampleValues(id, when, key);
    SampleOperation();
  }

  lemma SampleShapes(id: Text, when: Value, key: Value)
    requires Plain(when) && (key.Absent? || IsHexString(key))
    ensures HashFedShapesOk(Sample(id, when, key))
  {
    SampleValues(id, when, key);
    NoOtherFields(id, when, key);
  }

  lemma SampleSemantics(id: Text, when: Value, key: Value)
    requires Plain(when) && Plain(key)
    ensures SemanticsOk(Sample(id, when, key))
  {
    SampleValues(id, when, key);
    SampleOperation();
  }

  lemma SampleValid(id: Text, when: Value, key: Value, genesis: bool)
    requires Plain(when) && (key.Absent? || IsHexString(key)) && IsHex64(id)
    ensures ValidRecord(Sample(id, when, key), genesis)
  {
    NoOtherFields(id, when, key);
    SampleHasRequired(id, when, key);
    SampleEnums(id, when, key, genesis);
    SampleShapes(id, when, key);
    SampleSemantics(id, when, key);
  }

  lemma SampleIdChecks(sha: Digest, id: Text, when: Value, key: Value)
    requires Plain(when) && (key.Absent? || IsHexString(key)) && IsHex64(id)
    requires Canonical(Obj(Fields(when, key))).Some? && id == sha(Canonical(Obj(Fields(when, key))).value)
    ensures IdChecks(sha, Sample(id, when, key)).None?
  {
    var r := Sample(id, when, key);
    SampleValid(id, when, key, IsGenesisPosition(r));
    IdField(id, when, key);
    SampleIdText(id, when, key);
    SampleWellFormed(id, when, key);
    assert TransactionId(sha, r) == Some(id);
    IdSurvivesNative(sha, r);
  }

  lemma SampleAdmitted(sha: Digest, id: Text, when: Value, key: Value)
    requires Plain(when) && (key.Absent? || IsHexString(key)) && IsHex64(id)
    requires Canonical(Obj(Fields(when, key))).Some? && id == sha(Canonical(Obj(Fields(when, key))).value)
    requires key.Str? ==> DeriveIdempotencyKey(sha, Sample(id, when, key)) == Some(key.s)
    ensures Admission(sha, Sample(id, when, key)).None?
  {
    SampleIdChecks(sha, id, when, key);
    SampleField(id, when, key, 7);
    assert KeyConsistent(sha, Sample(id, when, key));
  }

  /** A record whose intent time is undefined is admitted, stored, and refused on every read. */
  lemma AdmittedAndUnreadable(sha: Digest) returns (record: Value)
    requires forall t :: IsHex64(sha(t))
    ensures WellFormed(record) && Admission(sha, record).None? && Get(record, "intent_recorded_at").Absent?
    ensures Get(record, TRANSACTION_ID).Str?
    ensures LoadRecordFile(sha, FileName(RecordId(record)), Content(Image(record))) == None
  {
    SampleIdText([], Absent, Absent);
    var id := sha(Canonical(Obj(Fields(Absent, Absent))).value);
    record := Sample(id, Absent, Absent);
    SampleAdmitted(sha, id, Absent, Absent);
    SampleWellFormed(id, Absent, Absent);
    SampleValues(id, Absent, Absent);
    SampleHasRequired(id, Absent, Absent);
    AdmittedReadsBack(sha, record);
  }

  // ---------------------------------------------------------------- two appends of one key

  /** The id text of a keyed sample. */
  function KeyedText(when: Text): Text
  {
    Print(Norm(Obj(Fields(Str(when), Str(Hex(LETTER_B))))))
  }

  /** A digest with hexadecimal values that tells the first sample's text from every other. */
  function Telling(first: Text): Digest { (t: Text) => if t == first then Hex(LETTER_A) else Hex(LETTER_B) }

  lemma KeyedTextIs(when: Text)
    ensures Canonical(Obj(Fields(Str(when), Str(Hex(LETTER_B))))) == Some(KeyedText(when))
  {
    SampleIdText([], Str(when), Str(Hex(LETTER_B)));
  }

  /** Samples of different times have different id texts. */
  lemma KeyedTextsDiffer(a: Text, b: Text)
    requires a != b
    ensures KeyedText(a) != KeyedText(b)
  {
    KeyedTextIs(a);
    KeyedTextIs(b);
    if KeyedText(a) == KeyedText(b) { SameTextSameTime(a, b); }
  }

  lemma SameTextSameTime(a: Text, b: Text)
    requires Canonical(Obj(Fields(Str(a), Str(Hex(LETTER_B))))).Some?
    requires Canonical(Obj(Fields(Str(a), Str(Hex(LETTER_B))))) == Canonical(Obj(Fields(Str(b), Str(Hex(LETTER_B)))))
    ensures a == b
  {
    SameTextSameWhen(Str(a), Str(b), Str(Hex(LETTER_B)));
  }

  lemma SameTextSameWhen(a: Value, b: Value, key: Value)
    requires Plain(a) && Plain(b) && Plain(key) && Canonical(Obj(Fields(a, key))).Some?
    requires Canonical(Obj(Fields(a, key))) == Canonical(Obj(Fields(b, key)))
    ensures Norm(a) == Norm(b)
  {
    BodyWellFormed(a, key);
    BodyWellFormed(b, key);
    SameTextSameField(Fields(a, key), Fields(b, key), Ascii(NAMES[4]));
    WhenField(a, key);
    WhenField(b, key);
  }

  lemma WhenField(when: Value, key: Value)
    requires Plain(when) && Plain(key)
    ensures Lookup(Fields(when, key), Ascii(NAMES[4])) == when
  {
    SampleField([], when, key, 4);
    assert Values(when, key)[4] == when;
  }

  /** A key text names no schema version, so it is no sample's id text. */
  lemma KeyTextDiffers(record: Value, h: Text, when: Text)
    requires WellFormed(record) && Canonical(Obj(Named(KEY_NAMES, KeyValues(record, h)))).Some?
    ensures Canonical(Obj(Named(KEY_NAMES, KeyValues(record, h)))) != Some(KeyedText(when))
  {
    var key := Str(Hex(LETTER_B));
    var f, g := Named(KEY_NAMES, KeyValues(record, h)), Fields(Str(when), key);
    KeyedTextIs(when);
    BodyWellFormed(Str(when), key);
    KeyNamesDistinct();
    KeyValuesWellFormed(record, h);
    NamedWellFormed(KEY_NAMES, KeyValues(record, h));
    SampleField([], Str(when), key, 6);
    NoSchemaInKey(f, record, h);
    if Canonical(Obj(f)) == Canonical(Obj(g)) { SameTextSameField(f, g, Ascii(NAMES[6])); }
  }

  lemma NoSchemaInKey(f: seq<Field>, record: Value, h: Text)
    requires f == Named(KEY_NAMES, KeyValues(record, h))
    ensures Lookup(f, Ascii(NAMES[6])) == Absent
  {
    assert |KEY_NAMES[0]| == 17 && |KEY_NAMES[1]| == 15 && |KEY_NAMES[2]| == 12 && |KEY_NAMES[3]| == 15 && |NAMES[6]| == 14;
    LookupMissing(f, Ascii(NAMES[6]));
  }

  lemma SampleKeyValues(id: Text, when: Text, h: Text)
    ensures KeyValues(Sample(id, Str(when), Str(Hex(LETTER_B))), h) ==
            [Str(Ascii("p")), Str(Ascii("DERIVED-VIEW-INVALIDATE")), Str(h), Str(Hex(LETTER_A))]
  {
    SampleValues(id, Str(when), Str(Hex(LETTER_B)));
  }

  lemma SampleContentValues(id: Text, when: Text)
    ensures ContentValues(Sample(id, Str(when), Str(Hex(LETTER_B)))) == [Null, Str(Ascii("s")), Null]
  {
    SampleValues(id, Str(when), Str(Hex(LETTER_B)));
    NoOtherFields(id, Str(when), Str(Hex(LETTER_B)));
  }

  /** The four fields a key needs are there. */
  predicate Keyable(r: Value) {
    && !Falsy(Get(r, "writer_persona_id")) && !Falsy(Get(r, "operation_class"))
    && !Falsy(Get(r, "prev_state_hash")) && !Falsy(Get(r, "writer_spawn_id"))
  }

  lemma StrNotFalsy(v: Value, t: Text)
    requires v == Str(t) && t != []
    ensures !Falsy(v)
  {
  }

  lemma SampleKeyable(id: Text, when: Text)
    ensures Keyable(Sample(id, Str(when), Str(Hex(LETTER_B))))
  {
    var r := Sample(id, Str(when), Str(Hex(LETTER_B)));
    SampleValues(id, Str(when), Str(Hex(LETTER_B)));
    StrNotFalsy(Get(r, "writer_persona_id"), Ascii("p"));
    StrNotFalsy(Get(r, "operation_class"), Ascii("DERIVED-VIEW-INVALIDATE"));
    StrNotFalsy(Get(r, "prev_state_hash"), Hex(LETTER_A));
    StrNotFalsy(Get(r, "writer_spawn_id"), Ascii("s"));
  }

  /** The key derived from the two texts. */
  lemma DerivedFrom(sha: Digest, r: Value, content: Text, key: Text)
    requires Keyable(r) && ContentText(r) == Some(content) && sha(content) != []
    requires Canonical(Obj(Named(KEY_NAMES, KeyValues(r, sha(content))))) == Some(key)
    ensures DeriveIdempotencyKey(sha, r) == Some(sha(key))
  {
  }

  lemma ScalarCanonical(names: seq<string>, vals: seq<Value>)
    requires |names| == |vals| < 100 && forall i :: 0 <= i < |vals| ==> vals[i].Str? || vals[i].Null?
    ensures Canonical(Obj(Named(names, vals))).Some?
  {
    ScalarBudget(Named(names, vals));
  }

  lemma {:induction false} ScalarBudget(fields: seq<Field>)
    requires forall f :: f in fields ==> f.val.Str? || f.val.Null?
    ensures NodesFields(fields) == |fields| && DepthFields(fields) <= 1
  {
    if fields != [] {
      assert fields[0] in fields;
      ScalarBudget(fields[1..]);
    }
  }

  predicate Writable(v: Value) { v.Str? || v.Null? }

  lemma ContentTextSome(r: Value, u: seq<Value>)
    requires |u| == 3
    requires ContentValues(r) == u && Writable(u[0]) && Writable(u[1]) && Writable(u[2])
    ensures ContentText(r).Some?
  {
    ScalarCanonical(CONTENT_NAMES, ContentValues(r));
  }

  lemma KeyTextSome(r: Value, h: Text, persona: Text, op: Text, prev: Text)
    requires KeyValues(r, h) == [Str(persona), Str(op), Str(h), Str(prev)]
    ensures Canonical(Obj(Named(KEY_NAMES, KeyValues(r, h)))).Some?
  {
    ScalarCanonical(KEY_NAMES, KeyValues(r, h));
  }

  lemma SampleContentText(id: Text, when: Text)
    ensures ContentText(Sample(id, Str(when), Str(Hex(LETTER_B)))).Some?
  {
    SampleContentValues(id, when);
    ContentTextSome(Sample(id, Str(when), Str(Hex(LETTER_B))), [Null, Str(Ascii("s")), Null]);
  }

  lemma SampleKeyText(id: Text, when: Text, h: Text)
    ensures Canonical(Obj(Named(KEY_NAMES, KeyValues(Sample(id, Str(when), Str(Hex(LETTER_B))), h)))).Some?
  {
    SampleKeyValues(id, when, h);
    KeyTextSome(Sample(id, Str(when), Str(Hex(LETTER_B))), h,
                Ascii("p"), Ascii("DERIVED-VIEW-INVALIDATE"), Hex(LETTER_A));
  }

  /** Under a telling digest, any record whose key can be derived derives the same one. */
  lemma TellingDerives(first: Text, r: Value, content: Text)
    requires WellFormed(r) && Keyable(r) && ContentText(r) == Some(content)
    requires Canonical(Obj(Named(KEY_NAMES, KeyValues(r, Telling(KeyedText(first))(content))))).Some?
    ensures DeriveIdempotencyKey(Telling(KeyedText(first)), r) == Some(Hex(LETTER_B))
  {
    var sha := Telling(KeyedText(first));
    var key := Canonical(Obj(Named(KEY_NAMES, KeyValues(r, sha(content))))).value;
    KeyTextDiffers(r, sha(content), first);
    assert |sha(content)| == 64;
    DerivedFrom(sha, r, content, key);
  }

  /** Under that digest every keyed sample derives the key it carries. */
  lemma SampleDerives(first: Text, id: Text, when: Text)
    ensures DeriveIdempotencyKey(Telling(KeyedText(first)), Sample(id, Str(when), Str(Hex(LETTER_B)))) == Some(Hex(LETTER_B))
  {
    var r := Sample(id, Str(when), Str(Hex(LETTER_B)));
    SampleKeyable(id, when);
    SampleContentText(id, when);
    SampleKeyText(id, when, Telling(KeyedText(first))(ContentText(r).value));
    SampleWellFormed(id, Str(when), Str(Hex(LETTER_B)));
    TellingDerives(first, r, ContentText(r).value);
  }

  /** A sample that the store admits under that digest. */
  function Keyed(first: Text, when: Text): Value {
    Sample(Telling(KeyedText(first))(KeyedText(when)), Str(when), Str(Hex(LETTER_B)))
  }

  lemma KeyedId(first: Text, when: Text)
    ensures Get(Keyed(first, when), TRANSACTION_ID) == Str(if when == first then Hex(LETTER_A) else Hex(LETTER_B))
  {
    if when != first { KeyedTextsDiffer(when, first); }
    IdField(Telling(KeyedText(first))(KeyedText(when)), Str(when), Str(Hex(LETTER_B)));
  }

  lemma KeyedAppendable(first: Text, when: Text)
    ensures K.Appendable(Telling(KeyedText(first)), Keyed(first, when), Hex(LETTER_B))
  {
    var sha, key := Telling(KeyedText(first)), Str(Hex(LETTER_B));
    var id := sha(KeyedText(when));
    KeyedAdmitted(first, when);
    SampleWellFormed(id, Str(when), key);
    SampleHasRequired(id, Str(when), key);
    SampleField(id, Str(when), key, 7);
  }

  lemma KeyedAdmitted(first: Text, when: Text)
    ensures Admission(Telling(KeyedText(first)), Keyed(first, when)).None?
  {
    var sha := Telling(KeyedText(first));
    KeyedTextIs(when);
    SampleDerives(first, sha(KeyedText(when)), when);
    DerivedAdmitted(sha, KeyedText(when), when, Hex(LETTER_B));
  }

  lemma DerivedAdmitted(sha: Digest, text: Text, when: Text, key: Text)
    requires IsHex64(sha(text)) && IsHex64(key) && Canonical(Obj(Fields(Str(when), Str(key)))) == Some(text)
    requires DeriveIdempotencyKey(sha, Sample(sha(text), Str(when), Str(key))) == Some(key)
    ensures Admission(sha, Sample(sha(text), Str(when), Str(key))).None?
  {
    SampleAdmitted(sha, sha(text), Str(when), Str(key));
  }

  /** A store with two appends to come. */
  ghost function PairOf(sha: Digest, a: Value, b: Value, key: Text): K.Config
    requires Get(a, TRANSACTION_ID).Str? && Get(b, TRANSACTION_ID).Str?
  {
    K.Config(K.HoldsOf(sha), map[1 := K.JobOf(a, key), 2 := K.JobOf(b, key)])
  }

  lemma PairIsStore(sha: Digest, a: Value, b: Value, key: Text)
    requires Get(a, TRANSACTION_ID).Str? && Get(b, TRANSACTION_ID).Str?
    requires K.IsStoreJob(sha, K.JobOf(a, key)) && K.IsStoreJob(sha, K.JobOf(b, key))
    ensures K.StoreConfig(sha, PairOf(sha, a, b, key))
  {
  }

  lemma PairNames(sha: Digest, a: Value, b: Value, key: Text)
    requires Get(a, TRANSACTION_ID) == Str(Hex(LETTER_A)) && Get(b, TRANSACTION_ID) == Str(Hex(LETTER_B))
    ensures var c := PairOf(sha, a, b, key);
      c.jobs.Keys == {1, 2} && c.jobs[1].name != c.jobs[2].name && c.jobs[1].key == c.jobs[2].key
  {
    FileNamesDiffer();
  }

  /** Two appends of one key to an empty store, differing in the intent time alone. */
  lemma StoreRivals(first: Text, second: Text) returns (sha: Digest, c: K.Config, s: K.State)
    requires first != second
    ensures K.StoreConfig(sha, c) && K.Rivals(c, s, 1, 2)
  {
    KeyedAppendable(first, first);
    KeyedAppendable(first, second);
    KeyedId(first, first);
    KeyedId(first, second);
    sha := Telling(KeyedText(first));
    c, s := RivalsOf(sha, Keyed(first, first), Keyed(first, second), Hex(LETTER_B));
  }

  lemma RivalsOf(sha: Digest, a: Value, b: Value, key: Text) returns (c: K.Config, s: K.State)
    requires K.Appendable(sha, a, key) && K.Appendable(sha, b, key)
    requires Get(a, TRANSACTION_ID) == Str(Hex(LETTER_A)) && Get(b, TRANSACTION_ID) == Str(Hex(LETTER_B))
    ensures K.StoreConfig(sha, c) && K.Rivals(c, s, 1, 2)
  {
    c := PairOf(sha, a, b, key);
    s := K.State(map[], map[], map[1 := K.Start, 2 := K.Start]);
    K.StoreJob(sha, a, key);
    K.StoreJob(sha, b, key);
    PairIsStore(sha, a, b, key);
    PairNames(sha, a, b, key);
    RivalsSeparate(sha, c);
    K.StoreIsContentAddressed(sha, c, map[]);
    EmptyStart(c, s);
  }

  lemma EmptyStart(c: K.Config, s: K.State)
    requires c.jobs.Keys == {1, 2} && s == K.State(map[], map[], map[1 := K.Start, 2 := K.Start])
    ensures K.Initial(c, s)
  {
  }

  lemma FileNamesDiffer()
    ensures FileName(Hex(LETTER_A)) != FileName(Hex(LETTER_B))
  {
    assert Hex(LETTER_A)[0] != Hex(LETTER_B)[0];
    if FileName(Hex(LETTER_A)) == FileName(Hex(LETTER_B)) {
      FileNameInjective(Hex(LETTER_A), Hex(LETTER_B));
    }
  }

  /** With different file names there is nothing to tell apart. */
  lemma RivalsSeparate(sha: Digest, c: K.Config)
    requires c.jobs.Keys == {1, 2} && c.jobs[1].name != c.jobs[2].name
    ensures K.SeparatesFiles(sha, c, map[])
  {
    forall n, a, b | K.MayExist(c, map[], n, a) && K.MayExist(c, map[], n, b) ensures a == b {
      var i :| i in c.jobs && c.jobs[i].name == n && c.jobs[i].body == a;
      var j :| j in c.jobs && c.jobs[j].name == n && c.jobs[j].body == b;
    }
  }

  /** Each of the three harmful faults by itself lets the record store hold two records of one key. */
  lemma StoreDuplicates(first: Text, second: Text) returns (sha: Digest, c: K.Config, s: K.State)
    requires first != second
    ensures K.StoreConfig(sha, c) && K.Initial(c, s) && s.dir == map[]
    ensures exists t :: K.Reaches(c, s, t, K.Faults(false, true, false)) && !K.Unique(c, t.dir)
    ensures exists t :: K.Reaches(c, s, t, K.Faults(false, false, true)) && !K.Unique(c, t.dir)
    ensures exists t :: K.Reaches(c, s, t, K.Faults(true, false, false)) && !K.Unique(c, t.dir)
  {
    sha, c, s := StoreRivals(first, second);
    K.FailedScansAllowDuplicates(c, s, 1, 2, K.Faults(false, true, false));
    K.FailedScansAllowDuplicates(c, s, 1, 2, K.Faults(false, false, true));
    K.TimeOutsAllowDuplicates(c, s, 1, 2, K.Faults(true, false, false));
  }
}
