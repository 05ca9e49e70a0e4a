/**
 The per-run record directory: one file per record, named by its content id. Reads distrust
 every file; appends check the record, look for an earlier record with its idempotency key,
 and write.
 */
module RecordStore {
  import opened Wrappers
  import opened Json
  import opened CanonicalJson
  import opened TransactionRecord

  /** What reading a file yields: an error, text that is not JSON, or a parsed value. */
  datatype Body = Unreadable | Corrupt | Content(value: Value)

  type Directory = map<Text, Body>

  /** Parsed files hold well-formed JSON. */
  predicate WellFormedDirectory(dir: Directory) {
    forall name :: name in dir && dir[name].Content? ==> WellFormed(dir[name].value)
  }

  function FileName(id: Text): Text { Ascii("record-") + id + Ascii(".json") }

  lemma FileNameInjective(a: Text, b: Text)
    requires |a| == |b| && FileName(a) == FileName(b)
    ensures a == b
  {
    assert FileName(a)[7..7 + |a|] == a;
    assert FileName(b)[7..7 + |b|] == b;
  }

  /** A file is served only under the id its content hashes to. */
  function LoadRecordFile(sha: Digest, name: Text, body: Body): (r: Option<Value>)
    ensures r.Some? ==>
      && body == Content(r.value)
      && ValidRecord(r.value, IsGenesisPosition(r.value))
      && TransactionId(sha, r.value).Some?
      && name == FileName(TransactionId(sha, r.value).value)
  {
    if !body.Content? || !ValidRecord(body.value, IsGenesisPosition(body.value)) then None
    else
      var id := Get(body.value, TRANSACTION_ID);
      if !IsHexString(id) || name != FileName(id.s) then None
      else if TransactionId(sha, body.value) != Some(id.s) then None
      else Some(body.value)
  }

  /** The record claims the key and its own body derives it. */
  predicate CarriesKey(sha: Digest, record: Value, key: Text) {
    Get(record, "idempotency_key") == Str(key) && DeriveIdempotencyKey(sha, record) == Some(key)
  }

  /** The file is a deduplication target for the key. */
  predicate HoldsKey(sha: Digest, name: Text, body: Body, key: Text) {
    var r := LoadRecordFile(sha, name, body);
    r.Some? && CarriesKey(sha, r.value, key)
  }

  // ---------------------------------------------------------------- admission

  datatype Reason =
    | InvalidRecord
    | IdNotHex
    | Uncomputable
    | IdMismatch
    | NotRoundTripSerializable
    | NotRoundTripStable
    | KeyMismatch

  /** A key, when there is one, is derived from the record's own body. */
  predicate KeyConsistent(sha: Digest, record: Value) {
    var key := Get(record, "idempotency_key");
    Falsy(key) || (key.Str? && DeriveIdempotencyKey(sha, record) == Some(key.s))
  }

  /** The checks of the record's id, in their order. */
  function IdChecks(sha: Digest, record: Value): Option<Reason> {
    if !ValidRecord(record, IsGenesisPosition(record)) then Some(InvalidRecord)
    else
      var id := Get(record, TRANSACTION_ID);
      if !IsHexString(id) then Some(IdNotHex)
      else if TransactionId(sha, record).None? then Some(Uncomputable)
      else if TransactionId(sha, record) != Some(id.s) then Some(IdMismatch)
      else if TransactionId(sha, Image(record)).None? then Some(NotRoundTripSerializable)
      else if TransactionId(sha, Image(record)) != Some(id.s) then Some(NotRoundTripStable)
      else None
  }

  /** All checks of an append, before the file system is touched. */
  function Admission(sha: Digest, record: Value): Option<Reason> {
    if IdChecks(sha, record).Some? then IdChecks(sha, record)
    else if KeyConsistent(sha, record) then None
    else Some(KeyMismatch)
  }

  /** On values free of `toJSON` the two round-trip rejections never happen. */
  lemma RoundTripNeverRejects(sha: Digest, record: Value)
    requires WellFormed(record)
    ensures Admission(sha, record) != Some(NotRoundTripSerializable)
    ensures Admission(sha, record) != Some(NotRoundTripStable)
  {
    if TransactionId(sha, record).Some? {
      IdSurvivesNative(sha, record);
    }
  }

  lemma AdmittedShape(sha: Digest, record: Value)
    requires Admission(sha, record).None?
    ensures KeyConsistent(sha, record) && Get(record, TRANSACTION_ID).Str?
  {
  }

  function RecordId(record: Value): Text
    requires Get(record, TRANSACTION_ID).Str?
  {
    Get(record, TRANSACTION_ID).s
  }

  /**
   What an admitted append wrote can be loaded again exactly when every required field is
   present in the JSON sense: the validator only asks that the key exists, and a key whose value
   is undefined is not written.
   */
  lemma AdmittedReadsBack(sha: Digest, record: Value)
    requires WellFormed(record) && Admission(sha, record).None?
    ensures var loaded := LoadRecordFile(sha, FileName(RecordId(record)), Content(Image(record)));
      && (loaded == Some(Image(record)) <==> RequiredPresent(record))
      && (loaded == None <==> !RequiredPresent(record))
  {
    GetImage(record, TRANSACTION_ID);
    GenesisImage(record);
    ValidAfterNative(record, IsGenesisPosition(record));
    IdSurvivesNative(sha, record);
  }

  lemma FalsyImage(record: Value, name: string)
    requires WellFormed(record)
    ensures Falsy(Get(Image(record), name)) == Falsy(Get(record, name))
  {
    GetImage(record, name);
  }

  lemma DeriveImage(sha: Digest, record: Value)
    requires WellFormed(record) && DeriveIdempotencyKey(sha, record).Some?
    ensures DeriveIdempotencyKey(sha, Image(record)) == DeriveIdempotencyKey(sha, record)
  {
    FalsyImage(record, "writer_persona_id");
    FalsyImage(record, "operation_class");
    FalsyImage(record, "prev_state_hash");
    FalsyImage(record, "writer_spawn_id");
    ContentImage(record);
    KeyImage(record, sha(ContentText(record).value));
  }

  lemma NamedImage(names: seq<string>, u: seq<Value>, v: seq<Value>)
    requires |names| == |u| == |v|
    requires forall i :: 0 <= i < |u| ==> v[i] == Image(u[i])
    requires Canonical(Obj(Named(names, u))).Some?
    ensures Canonical(Obj(Named(names, v))) == Canonical(Obj(Named(names, u)))
  {
    forall i | 0 <= i < |u| ensures Norm(u[i]) == Norm(v[i]) {
      NormImage(u[i]);
    }
    SameMeaningSameNorm(names, u, v);
    NamedImageBudget(names, u, v);
  }

  lemma NamedImageBudget(names: seq<string>, u: seq<Value>, v: seq<Value>)
    requires |names| == |u| == |v|
    requires forall i :: 0 <= i < |u| ==> v[i] == Image(u[i])
    ensures NodesFields(Named(names, v)) <= NodesFields(Named(names, u))
    ensures DepthFields(Named(names, v)) <= DepthFields(Named(names, u))
  {
    if u != [] {
      NormImage(u[0]);
      assert Named(names, u)[1..] == Named(names[1..], u[1..]);
      assert Named(names, v)[1..] == Named(names[1..], v[1..]);
      NamedImageBudget(names[1..], u[1..], v[1..]);
    }
  }

  lemma OrNullImage(u: Value, v: Value)
    requires v == Image(u)
    ensures OrNull(v) == Image(OrNull(u))
  {
  }

  /** The three content values of the image are the images of the three. */
  lemma ContentValuesImage(record: Value)
    requires WellFormed(record)
    ensures var u, v := ContentValues(record), ContentValues(Image(record));
      v[0] == Image(u[0]) && v[1] == Image(u[1]) && v[2] == Image(u[2])
  {
    GetImage(record, "post_state_hash");
    GetImage(record, "writer_spawn_id");
    GetImage(record, "head_anchor");
    OrNullImage(Get(record, "post_state_hash"), Get(Image(record), "post_state_hash"));
    OrNullImage(Get(record, "head_anchor"), Get(Image(record), "head_anchor"));
  }

  lemma ContentImage(record: Value)
    requires WellFormed(record) && ContentText(record).Some?
    ensures ContentText(Image(record)) == ContentText(record)
  {
    ContentValuesImage(record);
    NamedImage(CONTENT_NAMES, ContentValues(record), ContentValues(Image(record)));
  }

  lemma KeyValuesImage(record: Value, h: Text)
    requires WellFormed(record)
    ensures var u, v := KeyValues(record, h), KeyValues(Image(record), h);
      forall i :: 0 <= i < 4 ==> v[i] == Image(u[i])
  {
    GetImage(record, "writer_persona_id");
    GetImage(record, "operation_class");
    GetImage(record, "prev_state_hash");
    assert Image(Str(h)) == Str(h);
  }

  lemma KeyImage(record: Value, h: Text)
    requires WellFormed(record) && Canonical(Obj(Named(KEY_NAMES, KeyValues(record, h)))).Some?
    ensures Canonical(Obj(Named(KEY_NAMES, KeyValues(Image(record), h)))) ==
            Canonical(Obj(Named(KEY_NAMES, KeyValues(record, h))))
  {
    KeyValuesImage(record, h);
    NamedImage(KEY_NAMES, KeyValues(record, h), KeyValues(Image(record), h));
  }

  lemma AdmittedDerives(sha: Digest, record: Value, key: Text)
    requires Admission(sha, record).None?
    requires key != [] && Get(record, "idempotency_key") == Str(key)
    ensures DeriveIdempotencyKey(sha, record) == Some(key)
  {
    assert KeyConsistent(sha, record);
  }

  lemma CarriesKeyImage(sha: Digest, record: Value, key: Text)
    requires WellFormed(record) && CarriesKey(sha, record, key)
    ensures CarriesKey(sha, Image(record), key)
  {
    DeriveImage(sha, record);
    GetImage(record, "idempotency_key");
  }

  /** A keyed, admitted record with its required fields present is found by its key after the write. */
  lemma AdmittedHoldsKey(sha: Digest, record: Value, key: Text)
    requires WellFormed(record) && Admission(sha, record).None? && RequiredPresent(record)
    requires key != [] && Get(record, "idempotency_key") == Str(key)
    ensures HoldsKey(sha, FileName(RecordId(record)), Content(Image(record)), key)
  {
    AdmittedReadsBack(sha, record);
    AdmittedDerives(sha, record, key);
    CarriesKeyImage(sha, record, key);
  }

  // ---------------------------------------------------------------- soundness of reads

  lemma HeldKey(sha: Digest, name: Text, body: Body, key: Text)
    requires HoldsKey(sha, name, body, key)
    ensures body.Content? && CarriesKey(sha, body.value, key)
    ensures IdText(body.value).Some?
  {
  }

  lemma SameDerivedKey(sha: Digest, a: Value, b: Value, key: Text)
    requires WellFormed(a) && WellFormed(b) && KeysSeparate(sha, a, b)
    requires DeriveIdempotencyKey(sha, a) == Some(key) == DeriveIdempotencyKey(sha, b)
    ensures SameTransaction(a, b)
  {
    SameKeyIsSameTransaction(sha, a, b);
  }

  /** A deduplication target is the same transaction as the record that was being appended. */
  lemma DedupTargetAgrees(sha: Digest, name: Text, body: Body, record: Value, key: Text)
    requires WellFormed(record) && Admission(sha, record).None?
    requires key != [] && Get(record, "idempotency_key") == Str(key)
    requires HoldsKey(sha, name, body, key) && WellFormed(body.value)
    requires KeysSeparate(sha, body.value, record)
    ensures SameTransaction(body.value, record)
  {
    HeldKey(sha, name, body, key);
    AdmittedDerives(sha, record, key);
    SameDerivedKey(sha, body.value, record, key);
  }

  /** Two loadable files of one name have the same hashed text. */
  lemma SameNameSameText(sha: Digest, name: Text, a: Body, b: Body)
    requires LoadRecordFile(sha, name, a).Some? && LoadRecordFile(sha, name, b).Some?
    requires Separates(sha, IdText(a.value).value, IdText(b.value).value)
    ensures IdText(a.value) == IdText(b.value)
  {
    FileNameInjective(RecordId(a.value), RecordId(b.value));
  }

  lemma SameTextSameKey(a: Value, b: Value, k: Text, l: Text)
    requires WellFormed(a) && WellFormed(b)
    requires IdText(a).Some? && IdText(a) == IdText(b)
    requires Get(a, "idempotency_key") == Str(k) && Get(b, "idempotency_key") == Str(l)
    ensures k == l
  {
    SameIdTextSameField(a, b, "idempotency_key");
    assert Norm(Str(k)) == Str(k) && Norm(Str(l)) == Str(l);
  }

  /** Two loadable files of one name hold the same key. */
  lemma SameNameSameKey(sha: Digest, name: Text, a: Body, b: Body, k: Text, l: Text)
    requires HoldsKey(sha, name, a, k) && HoldsKey(sha, name, b, l)
    requires WellFormed(a.value) && WellFormed(b.value)
    requires Separates(sha, IdText(a.value).value, IdText(b.value).value)
    ensures k == l
  {
    HeldKey(sha, name, a, k);
    HeldKey(sha, name, b, l);
    SameNameSameText(sha, name, a, b);
    SameTextSameKey(a.value, b.value, k, l);
  }

  // ---------------------------------------------------------------- the store

  datatype AppendResult =
    | Rejected(reason: Reason)
    | WriteFailed
    | Stored(id: Text)
    | Deduped(id: Text)

  /** What a reader gets to see: a listing that fails is taken as empty, a file whose read fails as no record. */
  datatype Sight = Sight(lists: bool, unreadable: set<Text>)

  function Seen(dir: Directory, sight: Sight): (r: Directory)
    ensures forall n :: n in r <==> n in dir && sight.lists && n !in sight.unreadable
    ensures forall n :: n in r ==> r[n] == dir[n]
  {
    if sight.lists then dir - sight.unreadable else map[]
  }

  /** The values are those of the loadable files, each file once. */
  ghost predicate OnePerFile(sha: Digest, dir: Directory, names: seq<Text>, out: seq<Value>) {
    && |names| == |out|
    && (forall i, j :: 0 <= i < j < |names| ==> names[i] != names[j])
    && (forall i :: 0 <= i < |names| ==> names[i] in dir && LoadRecordFile(sha, names[i], dir[names[i]]) == Some(out[i]))
    && (forall name :: name in dir && LoadRecordFile(sha, name, dir[name]).Some? ==> name in names)
  }

  ghost function AllBut(dir: Directory, rest: set<Text>): Directory { dir - rest }

  lemma AllButOne(dir: Directory, rest: set<Text>, name: Text)
    requires name in rest && name in dir
    ensures name !in AllBut(dir, rest) && AllBut(dir, rest - {name}) == AllBut(dir, rest)[name := dir[name]]
  {
  }

  lemma FileAdded(sha: Digest, dir: Directory, name: Text, body: Body, names: seq<Text>, out: seq<Value>)
    requires OnePerFile(sha, dir, names, out) && name !in dir && LoadRecordFile(sha, name, body).Some?
    ensures OnePerFile(sha, dir[name := body], names + [name], out + [LoadRecordFile(sha, name, body).value])
  {
    var more, names', out' := dir[name := body], names + [name], out + [LoadRecordFile(sha, name, body).value];
    assert name !in names by { assert forall i :: 0 <= i < |names| ==> names[i] in dir; }
    forall i | 0 <= i < |names'| ensures names'[i] in more && LoadRecordFile(sha, names'[i], more[names'[i]]) == Some(out'[i]) {
      if i < |names| { assert names'[i] == names[i] && names[i] in dir && more[names[i]] == dir[names[i]]; }
    }
    forall n | n in more && LoadRecordFile(sha, n, more[n]).Some? ensures n in names' {
      if n != name { assert n in dir && n in names; }
    }
  }

  lemma FileSkipped(sha: Digest, dir: Directory, name: Text, body: Body, names: seq<Text>, out: seq<Value>)
    requires OnePerFile(sha, dir, names, out) && name !in dir && LoadRecordFile(sha, name, body).None?
    ensures OnePerFile(sha, dir[name := body], names, out)
  {
    var more := dir[name := body];
    forall i | 0 <= i < |names| ensures names[i] in more && LoadRecordFile(sha, names[i], more[names[i]]) == Some(out[i]) {
      assert names[i] in dir && names[i] != name;
    }
  }

  lemma OneMoreFile(sha: Digest, dir: Directory, rest: set<Text>, name: Text, names: seq<Text>, out: seq<Value>)
    requires OnePerFile(sha, AllBut(dir, rest), names, out) && name in rest && name in dir
    ensures var loaded, more := LoadRecordFile(sha, name, dir[name]), AllBut(dir, rest - {name});
      if loaded.Some? then OnePerFile(sha, more, names + [name], out + [loaded.value]) else OnePerFile(sha, more, names, out)
  {
    AllButOne(dir, rest, name);
    if LoadRecordFile(sha, name, dir[name]).Some? {
      FileAdded(sha, AllBut(dir, rest), name, dir[name], names, out);
    } else {
      FileSkipped(sha, AllBut(dir, rest), name, dir[name], names, out);
    }
  }

  lemma OneOfEach(sha: Digest, dir: Directory, names: seq<Text>, out: seq<Value>)
    requires OnePerFile(sha, dir, names, out)
    ensures forall v :: v in out <==> exists name :: name in dir && LoadRecordFile(sha, name, dir[name]) == Some(v)
  {
    forall v ensures v in out <==> exists name :: name in dir && LoadRecordFile(sha, name, dir[name]) == Some(v) {
      if name :| name in dir && LoadRecordFile(sha, name, dir[name]) == Some(v) {
        var i :| 0 <= i < |names| && names[i] == name;
        assert out[i] == v;
      }
    }
  }

  lemma HolderName(sha: Digest, name: Text, body: Body, key: Text)
    requires HoldsKey(sha, name, body, key)
    ensures body.Content? && Get(body.value, TRANSACTION_ID).Str? && name == FileName(RecordId(body.value))
  {
  }

  class Store {
    const sha: Digest
    var dir: Directory

    constructor (sha: Digest)
      ensures this.sha == sha && dir == map[]
    {
      this.sha := sha;
      dir := map[];
    }

    /** Point read: a non-hex key never reaches the directory. */
    method ReadById(id: Text, readable: bool) returns (r: Option<Value>)
      ensures r.Some? ==>
        && TransactionId(sha, r.value) == Some(id)
        && FileName(id) in dir && dir[FileName(id)] == Content(r.value)
        && ValidRecord(r.value, IsGenesisPosition(r.value))
      ensures r.None? && IsHex64(id) && readable && FileName(id) in dir ==>
        LoadRecordFile(sha, FileName(id), dir[FileName(id)]).None?
    {
      if !IsHex64(id) || FileName(id) !in dir || !readable {
        return None;
      }
      r := LoadRecordFile(sha, FileName(id), dir[FileName(id)]);
      if r.Some? {
        FileNameInjective(RecordId(r.value), id);
      }
    }

    /** Scan in an arbitrary directory order; the first file that holds the key wins. */
    method ReadByIdempotencyKey(key: Text, sight: Sight) returns (r: Option<Value>)
      ensures r.Some? ==>
        exists name :: name in Seen(dir, sight) && dir[name] == Content(r.value) && HoldsKey(sha, name, dir[name], key)
      ensures r.None? && IsHex64(key) ==> forall name :: name in Seen(dir, sight) ==> !HoldsKey(sha, name, dir[name], key)
    {
      if !IsHex64(key) {
        return None;
      }
      var seen := Seen(dir, sight);
      var rest := seen.Keys;
      while rest != {}
        invariant rest <= seen.Keys
        invariant forall name :: name in seen && name !in rest ==> !HoldsKey(sha, name, dir[name], key)
      {
        var name :| name in rest;
        rest := rest - {name};
        var loaded := LoadRecordFile(sha, name, seen[name]);
        if loaded.Some? && CarriesKey(sha, loaded.value, key) {
          return loaded;
        }
      }
      return None;
    }

    /** Scan for the record that produced a state. */
    method ReadByPostStateHash(hash: Text, sight: Sight) returns (r: Option<Value>)
      ensures r.Some? ==> Get(r.value, "post_state_hash") == Str(hash)
      ensures r.Some? ==> exists name :: name in Seen(dir, sight) && LoadRecordFile(sha, name, dir[name]) == r
      ensures r.None? && IsHex64(hash) ==> forall name :: name in Seen(dir, sight) ==>
        var loaded := LoadRecordFile(sha, name, dir[name]);
        loaded.None? || Get(loaded.value, "post_state_hash") != Str(hash)
    {
      if !IsHex64(hash) {
        return None;
      }
      var seen := Seen(dir, sight);
      var rest := seen.Keys;
      while rest != {}
        invariant rest <= seen.Keys
        invariant forall name :: name in seen && name !in rest ==>
          var loaded := LoadRecordFile(sha, name, dir[name]);
          loaded.None? || Get(loaded.value, "post_state_hash") != Str(hash)
      {
        var name :| name in rest;
        rest := rest - {name};
        var loaded := LoadRecordFile(sha, name, dir[name]);
        if loaded.Some? && Get(loaded.value, "post_state_hash") == Str(hash) {
          return loaded;
        }
      }
      return None;
    }

    /** The validated records of the run, one per loadable file that is seen. */
    method ListByRun(sight: Sight) returns (out: seq<Value>)
      ensures exists names :: OnePerFile(sha, Seen(dir, sight), names, out)
      ensures forall v :: v in out <==>
        exists name :: name in Seen(dir, sight) && LoadRecordFile(sha, name, dir[name]) == Some(v)
    {
      out := [];
      var seen := Seen(dir, sight);
      var rest := seen.Keys;
      ghost var names: seq<Text> := [];
      while rest != {}
        invariant rest <= seen.Keys
        invariant OnePerFile(sha, AllBut(seen, rest), names, out)
      {
        var name :| name in rest;
        var loaded := LoadRecordFile(sha, name, seen[name]);
        OneMoreFile(sha, seen, rest, name, names, out);
        rest := rest - {name};
        if loaded.Some? {
          names, out := names + [name], out + [loaded.value];
        }
      }
      assert AllBut(seen, {}) == seen;
      OneOfEach(sha, seen, names, out);
    }

    /** The id of an earlier record with this key, if the record has one. */
    method FindHolder(key: Value, sight: Sight) returns (dup: Option<Text>)
      requires Falsy(key) || key.Str?
      ensures dup.Some? ==>
        && key.Str? && FileName(dup.value) in Seen(dir, sight)
        && HoldsKey(sha, FileName(dup.value), dir[FileName(dup.value)], key.s)
      ensures dup.None? && key.Str? && IsHexString(key) ==>
        forall name :: name in Seen(dir, sight) ==> !HoldsKey(sha, name, dir[name], key.s)
    {
      if Falsy(key) {
        return None;
      }
      var existing := ReadByIdempotencyKey(key.s, sight);
      if existing.None? { return None; }
      ghost var name :| name in Seen(dir, sight) && dir[name] == Content(existing.value) && HoldsKey(sha, name, dir[name], key.s);
      HolderName(sha, name, dir[name], key.s);
      return Some(RecordId(existing.value));
    }

    /** The same for the key of a record whose key is its own. */
    method FindDuplicate(record: Value, sight: Sight) returns (dup: Option<Text>)
      requires KeyConsistent(sha, record)
      ensures var key := Get(record, "idempotency_key");
        && (dup.Some? ==>
              && key.Str? && FileName(dup.value) in Seen(dir, sight)
              && HoldsKey(sha, FileName(dup.value), dir[FileName(dup.value)], key.s))
        && (dup.None? && key.Str? && IsHexString(key) ==>
              forall name :: name in Seen(dir, sight) ==> !HoldsKey(sha, name, dir[name], key.s))
    {
      dup := FindHolder(Get(record, "idempotency_key"), sight);
    }

    /**
     One append with no concurrent writer; `fault` is a write error of the file system. A duplicate is stored exactly
     when every earlier file of the key was hidden from the scan.
     */
    method AppendRecord(record: Value, sight: Sight, fault: bool) returns (r: AppendResult)
      requires WellFormed(record)
      modifies this
      ensures r.Rejected? <==> Admission(sha, record).Some?
      ensures r.Rejected? ==> Admission(sha, record) == Some(r.reason) && dir == old(dir)
      ensures r.WriteFailed? ==>
        && fault && dir == old(dir)
        && (IsHexString(Get(record, "idempotency_key")) ==>
              forall name :: name in Seen(dir, sight) ==> !HoldsKey(sha, name, dir[name], Get(record, "idempotency_key").s))
      ensures r.Stored? ==> !fault
      ensures r.Stored? ==>
        && r.id == RecordId(record)
        && dir == old(dir)[Ascii("record-") + r.id + Ascii(".json") := Content(Image(record))]
        && (Get(record, "idempotency_key").Str? && IsHexString(Get(record, "idempotency_key")) ==>
              forall name :: name in Seen(old(dir), sight) ==>
                !HoldsKey(sha, name, old(dir)[name], Get(record, "idempotency_key").s))
      ensures r.Deduped? ==>
        && dir == old(dir)
        && Get(record, "idempotency_key").Str?
        && FileName(r.id) in Seen(dir, sight)
        && HoldsKey(sha, FileName(r.id), dir[FileName(r.id)], Get(record, "idempotency_key").s)
    {
      var refusal := Admission(sha, record);
      if refusal.Some? {
        return Rejected(refusal.value);
      }
      AdmittedShape(sha, record);
      var dup := FindDuplicate(record, sight);
      if dup.Some? { return Deduped(dup.value); }
      if fault {
        return WriteFailed;
      }
      dir := dir[FileName(RecordId(record)) := Content(Image(record))];
      r := Stored(RecordId(record));
    }
  }
}
