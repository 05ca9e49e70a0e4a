/**
 What the validator and the genesis recognizer accept, spelled out: the sentinel shapes as texts put together from
 their parts, and the rules of a record field by field.
 */
module RecordRules {
  import opened Wrappers
  import opened Json
  import opened CanonicalJson
  import opened TransactionRecord

  // ---------------------------------------------------------------- sentinels

  predicate IsDigits(t: Text) { t != [] && forall i :: 0 <= i < |t| ==> '0' as int <= t[i] <= '9' as int }

  /** 64 characters, each a digit or one of a to f. */
  predicate IsHexDigest(t: Text) {
    && |t| == 64
    && forall i :: 0 <= i < 64 ==> '0' as int <= t[i] <= '9' as int || 'a' as int <= t[i] <= 'f' as int
  }

  predicate IsWordChar(c: CodeUnit) {
    || 'A' as int <= c <= 'Z' as int || 'a' as int <= c <= 'z' as int || '0' as int <= c <= '9' as int
    || c == '_' as int || c == '-' as int
  }

  ghost predicate IsUserIntent(t: Text) {
    exists digest: Text :: IsHexDigest(digest) && t == Ascii("USER_INTENT_AXIOM:") + digest
  }

  /** A version number: digits, or digits, a dot and digits. */
  ghost predicate IsVersion(t: Text) {
    IsDigits(t) || exists major: Text, minor: Text :: IsDigits(major) && IsDigits(minor) && t == major + [46] + minor
  }

  ghost predicate IsGenesisNote(t: Text) {
    exists version: Text :: IsVersion(version) &&
      (t == Ascii("GENESIS_EVIDENCE:v") + (version + Ascii(":per-user"))
       || t == Ascii("GENESIS_EVIDENCE:v") + (version + Ascii(":per-project")))
  }

  ghost predicate IsRootTask(t: Text) {
    exists id: Text ::
      id != [] && (forall i :: 0 <= i < |id| ==> IsWordChar(id[i])) && t == Ascii("ROOT_TASK_RECORD:") + id
  }

  lemma PrefixSplit(t: Text, p: Text)
    requires StartsWith(t, p)
    ensures t == p + t[|p|..]
  {
  }

  lemma PrefixJoin(p: Text, rest: Text)
    ensures StartsWith(p + rest, p) && (p + rest)[|p|..] == rest
  {
  }

  lemma {:induction false} DigitRunIs(a: Text, b: Text)
    requires forall i :: 0 <= i < |a| ==> IsDigit(a[i])
    requires b == [] || !IsDigit(b[0])
    ensures DigitRun(a + b) == |a|
  {
    if a == [] {
      assert a + b == b;
    } else {
      assert (a + b)[1..] == a[1..] + b;
      DigitRunIs(a[1..], b);
    }
  }

  lemma {:induction false} DigitRunDigits(t: Text)
    ensures forall i :: 0 <= i < DigitRun(t) ==> IsDigit(t[i])
    ensures DigitRun(t) < |t| ==> !IsDigit(t[DigitRun(t)])
  {
    if t != [] && IsDigit(t[0]) {
      DigitRunDigits(t[1..]);
    }
  }

  lemma PlainVersionRead(major: Text, scope: Text)
    requires IsDigits(major) && scope != [] && scope[0] == 58
    ensures AfterVersion(major + scope) == Some(scope)
  {
    DigitRunIs(major, scope);
    assert (major + scope)[|major|..] == scope;
  }

  lemma DottedVersionRead(major: Text, minor: Text, scope: Text)
    requires IsDigits(major) && IsDigits(minor) && scope != [] && scope[0] == 58
    ensures AfterVersion(major + ([46] + (minor + scope))) == Some(scope)
  {
    var rest := [46] + (minor + scope);
    DigitRunIs(major, rest);
    assert (major + rest)[|major|..] == rest;
    assert rest[1..] == minor + scope;
    DigitRunIs(minor, scope);
    assert rest[1 + |minor|..] == scope;
  }

  /** A version followed by a colon is read as such. */
  lemma VersionRead(version: Text, scope: Text)
    requires IsVersion(version) && scope != [] && scope[0] == 58
    ensures AfterVersion(version + scope) == Some(scope)
  {
    if IsDigits(version) {
      PlainVersionRead(version, scope);
    } else {
      var major: Text, minor: Text :| IsDigits(major) && IsDigits(minor) && version == major + [46] + minor;
      DottedVersionRead(major, minor, scope);
      Regroup(major, [46], minor, scope);
    }
  }

  lemma Regroup(a: Text, b: Text, c: Text, d: Text)
    ensures (a + b + c) + d == a + (b + (c + d))
  {
  }

  lemma VersionParts(t: Text, scope: Text) returns (version: Text)
    requires AfterVersion(t) == Some(scope)
    ensures IsVersion(version) && t == version + scope
  {
    var n := DigitRun(t);
    var major, rest := t[..n], t[n..];
    DigitRunDigits(t);
    assert IsDigits(major) && t == major + rest;
    if rest == scope {
      version := major;
    } else {
      version := DottedParts(major, rest, scope);
    }
  }

  lemma DottedParts(major: Text, rest: Text, scope: Text) returns (version: Text)
    requires IsDigits(major) && rest != [] && rest[0] == 46 && DigitRun(rest[1..]) > 0
    requires scope == rest[1 + DigitRun(rest[1..])..]
    ensures IsVersion(version) && major + rest == version + scope
  {
    var minor := rest[1..][..DigitRun(rest[1..])];
    DigitRunDigits(rest[1..]);
    assert IsDigits(minor);
    version := major + [46] + minor;
    assert rest == [46] + minor + scope;
  }

  lemma UserIntentIff(t: Text)
    ensures StartsWith(t, Ascii("USER_INTENT_AXIOM:")) && IsHex64(t[18..]) <==> IsUserIntent(t)
  {
    var p := Ascii("USER_INTENT_AXIOM:");
    if StartsWith(t, p) && IsHex64(t[18..]) {
      PrefixSplit(t, p);
      assert IsHexDigest(t[18..]);
    }
    if IsUserIntent(t) {
      var digest: Text :| IsHexDigest(digest) && t == p + digest;
      PrefixJoin(p, digest);
    }
  }

  lemma GenesisNoteIff(t: Text)
    ensures StartsWith(t, Ascii("GENESIS_EVIDENCE:v")) && IsGenesisEvidence(t[18..]) <==> IsGenesisNote(t)
  {
    var p := Ascii("GENESIS_EVIDENCE:v");
    if StartsWith(t, p) && IsGenesisEvidence(t[18..]) {
      PrefixSplit(t, p);
      var version := VersionParts(t[18..], AfterVersion(t[18..]).value);
    }
    if IsGenesisNote(t) {
      var version: Text :| IsVersion(version) &&
        (t == p + (version + Ascii(":per-user")) || t == p + (version + Ascii(":per-project")));
      var scope := if t == p + (version + Ascii(":per-user")) then Ascii(":per-user") else Ascii(":per-project");
      PrefixJoin(p, version + scope);
      VersionRead(version, scope);
    }
  }

  lemma RootTaskIff(t: Text)
    ensures StartsWith(t, Ascii("ROOT_TASK_RECORD:")) && |t| > 17 && (forall i :: 17 <= i < |t| ==> IsWordUnit(t[i]))
       <==> IsRootTask(t)
  {
    var p := Ascii("ROOT_TASK_RECORD:");
    if StartsWith(t, p) && |t| > 17 && (forall i :: 17 <= i < |t| ==> IsWordUnit(t[i])) {
      PrefixSplit(t, p);
      var id := t[17..];
      assert forall i :: 0 <= i < |id| ==> id[i] == t[i + 17];
    }
    if IsRootTask(t) {
      var id: Text :| id != [] && (forall i :: 0 <= i < |id| ==> IsWordChar(id[i])) && t == p + id;
      PrefixJoin(p, id);
      assert forall i :: 17 <= i < |t| ==> t[i] == id[i - 17];
    }
  }

  /** The bootstrap sentinels are exactly the three shapes. */
  lemma SentinelIff(t: Text)
    ensures IsBootstrapSentinel(t) <==> IsUserIntent(t) || IsGenesisNote(t) || IsRootTask(t)
  {
    UserIntentIff(t);
    GenesisNoteIff(t);
    RootTaskIff(t);
  }

  // ---------------------------------------------------------------- the validator

  predicate IsNothing(v: Value) { v.Absent? || v.Null? }

  predicate Carries(record: Value, names: seq<string>) { forall i :: 0 <= i < |names| ==> Has(record, names[i]) }

  predicate RequiredKeys(record: Value) {
    Carries(record, ["transaction_id", "prev_state_hash", "writer_persona_id", "writer_spawn_id", "operation_class",
                     "intent_recorded_at", "commit_outcome", "schema_version"])
  }

  /** The two enumerated fields hold one of their words or nothing. */
  predicate Vocabulary(record: Value) {
    && (IsNothing(Get(record, "operation_class"))
        || OneOf(Get(record, "operation_class"), ["CREATE", "APPEND", "SUPERSEDE", "TOMBSTONE", "DERIVED-VIEW-INVALIDATE"]))
    && (IsNothing(Get(record, "commit_outcome"))
        || OneOf(Get(record, "commit_outcome"), ["PENDING", "COMMITTED", "ABORTED", "ROLLED-BACK", "NOT_APPLICABLE"]))
  }

  ghost predicate IsMarker(t: Text) { t == Ascii("GENESIS") || IsUserIntent(t) || IsGenesisNote(t) || IsRootTask(t) }

  /** An id string is a digest, a predecessor string a digest or, at a genesis position, a marker. */
  ghost predicate Digests(record: Value, genesis: bool) {
    var id, prev := Get(record, "transaction_id"), Get(record, "prev_state_hash");
    && (id.Str? ==> IsHexDigest(id.s))
    && (prev.Str? ==> IsHexDigest(prev.s) || (genesis && IsMarker(prev.s)))
  }

  predicate IsStringList(v: Value) { v.Arr? && forall i :: 0 <= i < |v.items| ==> v.items[i].Str? }

  predicate Shapes(record: Value) {
    && (var key := Get(record, "idempotency_key"); IsNothing(key) || (key.Str? && IsHexDigest(key.s)))
    && (IsNothing(Get(record, "head_anchor")) || Get(record, "head_anchor").Str?)
    && (IsNothing(Get(record, "post_state_hash")) || Get(record, "post_state_hash").Str?)
    && (IsNothing(Get(record, "references_transaction_id")) || Get(record, "references_transaction_id").Str?)
    && (IsNothing(Get(record, "evidence_refs")) || IsStringList(Get(record, "evidence_refs")))
    && (IsNothing(Get(record, "affected_records")) || IsStringList(Get(record, "affected_records")))
    && (IsNothing(Get(record, "abort_detail")) || Get(record, "abort_detail").Obj?)
  }

  /** A state-changing record names evidence; an informational one has no outcome of its own. */
  predicate Semantics(record: Value) {
    && (OneOf(Get(record, "operation_class"), ["CREATE", "APPEND", "SUPERSEDE", "TOMBSTONE"]) ==>
          Get(record, "evidence_refs").Arr? && |Get(record, "evidence_refs").items| > 0)
    && (Get(record, "operation_class") == Str(Ascii("DERIVED-VIEW-INVALIDATE")) ==>
          Get(record, "commit_outcome") == Str(Ascii("NOT_APPLICABLE")))
  }

  lemma DigestIs(t: Text)
    ensures IsHex64(t) <==> IsHexDigest(t)
  {
  }

  lemma GenesisPositionIff(record: Value)
    ensures IsGenesisPosition(record) <==> Get(record, "prev_state_hash").Str? && IsMarker(Get(record, "prev_state_hash").s)
  {
    var prev := Get(record, "prev_state_hash");
    if prev.Str? { SentinelIff(prev.s); }
  }

  lemma RequiredIff(record: Value)
    ensures HasRequired(record) <==> RequiredKeys(record)
  {
  }

  lemma EnumAndHexIff(record: Value, genesis: bool)
    ensures EnumAndHexOk(record, genesis) <==> Vocabulary(record) && Digests(record, genesis)
  {
    var id, prev := Get(record, "transaction_id"), Get(record, "prev_state_hash");
    if id.Str? { DigestIs(id.s); }
    if prev.Str? { DigestIs(prev.s); }
    GenesisPositionIff(record);
  }

  lemma ShapesIff(record: Value)
    ensures HashFedShapesOk(record) <==> Shapes(record)
  {
    var key := Get(record, "idempotency_key");
    if key.Str? { DigestIs(key.s); }
  }

  lemma SemanticsIff(record: Value)
    ensures SemanticsOk(record) <==> Semantics(record)
  {
  }

  /** The validator accepts exactly the objects that meet these rules. */
  lemma ValidIff(record: Value, genesis: bool)
    ensures ValidRecord(record, genesis) <==>
      && record.Obj? && !Has(record, "_test_chain_marker") && RequiredKeys(record) && Vocabulary(record)
      && Digests(record, genesis) && Shapes(record) && Semantics(record)
  {
    RequiredIff(record);
    EnumAndHexIff(record, genesis);
    ShapesIff(record);
    SemanticsIff(record);
  }

  /** A genesis marker claimed away from a genesis position is refused. */
  lemma ForgedGenesisRefused(record: Value)
    requires IsGenesisPosition(record)
    ensures !ValidRecord(record, false)
  {
    var t := Get(record, "prev_state_hash").s;
    GenesisPositionIff(record);
    ValidIff(record, false);
    MarkerIsNoDigest(t);
  }

  /** Markers start with a capital letter, digests never do. */
  lemma MarkerIsNoDigest(t: Text)
    requires IsMarker(t)
    ensures !IsHexDigest(t)
  {
    if IsUserIntent(t) { UserIntentHead(t); } else if IsGenesisNote(t) { GenesisNoteHead(t); } else if IsRootTask(t) {
      RootTaskHead(t);
    } else {
      GenesisHead(t);
    }
  }

  predicate StartsUpper(t: Text) { t != [] && 'A' as int <= t[0] <= 'Z' as int }

  lemma UserIntentHead(t: Text)
    requires IsUserIntent(t)
    ensures StartsUpper(t)
  {
  }

  lemma GenesisNoteHead(t: Text)
    requires IsGenesisNote(t)
    ensures StartsUpper(t)
  {
  }

  lemma RootTaskHead(t: Text)
    requires IsRootTask(t)
    ensures StartsUpper(t)
  {
  }

  lemma GenesisHead(t: Text)
    requires t == Ascii("GENESIS")
    ensures StartsUpper(t)
  {
  }
}
