/** The capped ledger of snapshot witnesses: deduplicated append of the newest rows, and the newest-first check. */
module Witness {
  import opened Wrappers
  import opened Json
  import opened CanonicalJson
  import opened TransactionRecord
  import opened RecordRules
  import opened Lines
  import opened LockedUpdate
  import opened Journal
  import opened Utf8

  const MAX_RECORDS: nat := 1024
  const MAX_LEDGER_BYTES: nat := 4 * 1024 * 1024

  const WITNESS_ID := "witness_id"
  const CONTENT_HASH := "content_hash"

  // ---------------------------------------------------------------- rows

  /** Digest of a row without its own id. */
  function WitnessId(sha: Digest, row: Value): Option<Text> {
    if !row.Obj? then None
    else match Canonical(Obj(Without(row.fields, Ascii(WITNESS_ID))))
      case None => None
      case Some(t) => Some(sha(t))
  }

  const BODY_NAMES := ["schema_version", "content_hash", "generated_at", "recorded_at", "record_count"]

  lemma BodyNamesDistinct()
    ensures DistinctNames(BODY_NAMES)
    ensures forall i :: 0 <= i < |BODY_NAMES| ==> Ascii(BODY_NAMES[i]) != Ascii(WITNESS_ID)
  {
    assert |BODY_NAMES[0]| == 14 && |BODY_NAMES[1]| == 12 && |BODY_NAMES[2]| == 12 && |BODY_NAMES[3]| == 11;
    assert |BODY_NAMES[4]| == 12 && |WITNESS_ID| == 10;
    assert Ascii(BODY_NAMES[1])[0] == 99 && Ascii(BODY_NAMES[2])[0] == 103 && Ascii(BODY_NAMES[4])[0] == 114;
  }

  function Body(contentHash: Text, generatedAt: Text, recordedAt: Text, recordCount: Text): (b: seq<Field>)
    ensures |b| == 5
  {
    Named(BODY_NAMES, [Str(Ascii("v1")), Str(contentHash), Str(generatedAt), Str(recordedAt), Num(recordCount)])
  }

  /** The row appended for one witness: its id in front of its body. */
  function MakeRow(sha: Digest, body: seq<Field>): Option<Value> {
    match WitnessId(sha, Obj(body))
    case None => None
    case Some(id) => Some(Obj([Field(Ascii(WITNESS_ID), Str(id))] + body))
  }

  function IdOf(row: Value): Value { Get(row, WITNESS_ID) }

  /** The row vouches for a content hash: it names it, and its own id is what its content hashes to. */
  predicate Vouches(sha: Digest, row: Value, contentHash: Text) {
    && row.Obj?
    && Get(row, CONTENT_HASH) == Str(contentHash)
    && WitnessId(sha, row).Some? && IdOf(row) == Str(WitnessId(sha, row).value)
  }

  // ---------------------------------------------------------------- the window

  predicate Known(rows: seq<Value>, row: Value) { exists r :: r in rows && IdOf(r) == IdOf(row) }

  /** The ledger after one append: unchanged for a known id, otherwise the newest rows. */
  function AddRow(rows: seq<Value>, row: Value): seq<Value> {
    if Known(rows, row) then rows else Last(rows + [row], MAX_RECORDS)
  }

  function AddAll(rows: seq<Value>, more: seq<Value>): seq<Value> {
    if more == [] then rows else AddRow(AddAll(rows, more[..|more| - 1]), more[|more| - 1])
  }

  /** The appended rows that were new to the ledger when they came. */
  function NewRows(rows: seq<Value>, more: seq<Value>): seq<Value> {
    if more == [] then []
    else
      var n := |more| - 1;
      NewRows(rows, more[..n]) + (if Known(AddAll(rows, more[..n]), more[n]) then [] else [more[n]])
  }

  lemma LastLast<T>(s: seq<T>, x: T, n: nat)
    requires n > 0
    ensures Last(Last(s, n) + [x], n) == Last(s + [x], n)
  {
  }

  /** The ledger is always the newest of what it held and what came new. */
  lemma {:induction false} WindowIsLast(rows: seq<Value>, more: seq<Value>)
    requires |rows| <= 1024
    ensures AddAll(rows, more) == Last(rows + NewRows(rows, more), 1024)
  {
    if more == [] {
      assert rows + [] == rows;
    } else {
      var n := |more| - 1;
      WindowIsLast(rows, more[..n]);
      var s := rows + NewRows(rows, more[..n]);
      if Known(AddAll(rows, more[..n]), more[n]) {
        assert NewRows(rows, more) == NewRows(rows, more[..n]);
      } else {
        LastLast(s, more[n], MAX_RECORDS);
        assert s + [more[n]] == rows + NewRows(rows, more);
      }
    }
  }

  lemma {:induction false} NewRowsFrom(rows: seq<Value>, more: seq<Value>)
    ensures forall r :: r in NewRows(rows, more) ==> r in more
  {
    if more != [] { NewRowsFrom(rows, more[..|more| - 1]); }
  }

  /** Exactly the last `n` places of a sequence survive. */
  lemma LastMember<T>(before: seq<T>, x: T, after: seq<T>, n: nat)
    requires x !in before && x !in after
    ensures x in Last(before + [x] + after, n) <==> |after| < n
  {
    var s := before + [x] + after;
    assert s[|before|] == x;
    if |after| < n && |s| > n {
      assert Last(s, n)[|before| - (|s| - n)] == x;
    }
  }

  /** A new witness stays in the ledger exactly until as many newer distinct ones came as the ledger holds. */
  lemma AgesOut(rows: seq<Value>, w: Value, more: seq<Value>)
    requires |rows| <= 1024 && !Known(rows, w)
    requires forall m :: m in more ==> IdOf(m) != IdOf(w)
    ensures var ledger := AddRow(rows, w);
      w in AddAll(ledger, more) <==> |NewRows(ledger, more)| < 1024
  {
    var ledger := AddRow(rows, w);
    var newer := NewRows(ledger, more);
    WindowIsLast(ledger, more);
    NewRowsFrom(ledger, more);
    var before := ledger[..|ledger| - 1];
    assert ledger == before + [w];
    assert forall r :: r in before ==> r in rows;
    LastMember(before, w, newer, MAX_RECORDS);
  }

  // ---------------------------------------------------------------- made rows

  /** A body as the writer makes it. */
  ghost predicate IsBody(body: seq<Field>) {
    exists h, g, r, n :: IsNumberToken(n) && body == Body(h, g, r, n)
  }

  predicate Scalar(v: Value) { v.Str? || (v.Num? && WellFormed(v)) }

  lemma ImageFieldsHead(fields: seq<Field>)
    requires fields != [] && Scalar(fields[0].val)
    ensures ImageFields(fields) == [fields[0]] + ImageFields(fields[1..])
  {
  }

  lemma {:induction false} ScalarImage(fields: seq<Field>)
    requires forall f :: f in fields ==> Scalar(f.val)
    ensures ImageFields(fields) == fields
  {
    if fields != [] {
      assert fields[0] in fields && Scalar(fields[0].val);
      ScalarImage(fields[1..]);
      ImageFieldsHead(fields);
      assert fields == [fields[0]] + fields[1..];
    }
  }

  /** A row a ledger may hold: it survives native stringification unchanged. */
  predicate IsRow(row: Value) { WellFormed(row) && row.Obj? && Image(row) == row }

  lemma BodyShape(body: seq<Field>)
    requires IsBody(body)
    ensures WellFormed(Obj(body)) && forall f :: f in body ==> Scalar(f.val) && f.key != Ascii(WITNESS_ID)
  {
    var h, g, r, n :| IsNumberToken(n) && body == Body(h, g, r, n);
    BodyNamesDistinct();
    var vals := [Str(Ascii("v1")), Str(h), Str(g), Str(r), Num(n)];
    assert body == Named(BODY_NAMES, vals);
    assert forall i :: 0 <= i < |vals| ==> WellFormed(vals[i]) && Scalar(vals[i]);
    NamedWellFormed(BODY_NAMES, vals);
  }

  lemma BodyHash(h: Text, g: Text, r: Text, n: Text)
    ensures Lookup(Body(h, g, r, n), Ascii(CONTENT_HASH)) == Str(h)
  {
    BodyNamesDistinct();
    var b := Body(h, g, r, n);
    assert b[0].key == Ascii(BODY_NAMES[0]) && b[1].key == Ascii(BODY_NAMES[1]);
    assert Ascii(BODY_NAMES[0]) != Ascii(BODY_NAMES[1]);
    assert Lookup(b[1..], Ascii(CONTENT_HASH)) == b[1..][0].val;
  }

  /** A made row is a row and carries its own id. */
  lemma MadeRowId(sha: Digest, body: seq<Field>, row: Value)
    requires IsBody(body) && MakeRow(sha, body) == Some(row)
    ensures IsRow(row) && WitnessId(sha, row).Some?
    ensures WitnessId(sha, row) == WitnessId(sha, Obj(body)) && IdOf(row) == Str(WitnessId(sha, row).value)
  {
    BodyShape(body);
    HeadedRow(row.fields[0], body);
  }

  lemma MadeRowFields(sha: Digest, body: seq<Field>, row: Value)
    requires MakeRow(sha, body) == Some(row)
    ensures Get(row, CONTENT_HASH) == Lookup(body, Ascii(CONTENT_HASH))
  {
    AsciiDistinct(WITNESS_ID, CONTENT_HASH);
    HeadedLookup(row.fields[0], body, Ascii(CONTENT_HASH));
  }

  /** A made row is a row, carries its own id, and vouches for the content hash of its body. */
  lemma MadeRowVouches(sha: Digest, body: seq<Field>, row: Value)
    requires IsBody(body) && MakeRow(sha, body) == Some(row)
    ensures IsRow(row)
    ensures WitnessId(sha, row) == WitnessId(sha, Obj(body)) && IdOf(row) == Str(WitnessId(sha, row).value)
    ensures forall h :: Get(row, CONTENT_HASH) == Str(h) ==> Vouches(sha, row, h)
    ensures Get(row, CONTENT_HASH) == Lookup(body, Ascii(CONTENT_HASH))
  {
    MadeRowId(sha, body, row);
    MadeRowFields(sha, body, row);
  }

  lemma HeadedRow(head: Field, body: seq<Field>)
    requires WellFormed(Obj(body)) && WellFormed(head.val) && Scalar(head.val)
    requires forall f :: f in body ==> Scalar(f.val) && f.key != head.key
    ensures IsRow(Obj([head] + body))
    ensures Without([head] + body, head.key) == body == Without(body, head.key)
    ensures Lookup([head] + body, head.key) == head.val
  {
    var fields := [head] + body;
    assert fields[1..] == body;
    WithoutNothing(body, head.key);
    ScalarImage(fields);
    HeadedWellFormed(head, body);
  }

  // ---------------------------------------------------------------- the ledger file

  function RowsText(rows: seq<Value>): Text {
    if rows == [] then [] else NativeText(rows[0]) + [NEWLINE] + RowsText(rows[1..])
  }

  function Truthy(vs: seq<Value>): seq<Value> {
    if vs == [] then [] else (if Falsy(vs[0]) then [] else [vs[0]]) + Truthy(vs[1..])
  }

  /** The newest rows inside the byte window; nothing when there is no ledger or it cannot be read. */
  function ReadRows(parse: Parser, file: Option<Bytes>): Option<seq<Value>> {
    match file
    case None => None
    case Some(b) => Some(Truthy(ParseAll(parse, Last(LinesOf(TailText(b, MAX_LEDGER_BYTES)), MAX_RECORDS))))
  }

  predicate AllRows(rows: seq<Value>) { forall r :: r in rows ==> IsRow(r) }

  function Texts(rows: seq<Value>): (r: seq<Text>)
    ensures |r| == |rows|
  {
    if rows == [] then [] else [NativeText(rows[0])] + Texts(rows[1..])
  }

  lemma {:induction false} RowsTextLines(rows: seq<Value>)
    requires AllRows(rows)
    ensures LinesOf(RowsText(rows)) == Texts(rows)
  {
    if rows == [] {
      LinesOfOneLine([]);
    } else {
      assert rows[0] in rows;
      NativeOneLine(rows[0]);
      LinesOfOneLine(NativeText(rows[0]));
      LinesAtNewline(NativeText(rows[0]), RowsText(rows[1..]));
      RowsTextLines(rows[1..]);
    }
  }

  lemma {:induction false} ParseTexts(parse: Parser, rows: seq<Value>)
    requires AllRows(rows) && ParsesNative(parse)
    ensures ParseAll(parse, Texts(rows)) == rows && Truthy(rows) == rows
  {
    if rows != [] {
      assert rows[0] in rows;
      ParseTexts(parse, rows[1..]);
    }
  }

  /** The bytes of a ledger of these rows. */
  function RowsBytes(rows: seq<Value>): Bytes { Encode(RowsText(rows)) }

  lemma {:induction false} RowsTextPaired(rows: seq<Value>)
    requires AllRows(rows)
    ensures Paired(RowsText(rows))
  {
    if rows != [] {
      assert rows[0] in rows;
      NativePaired(rows[0]);
      NoSurrogatePaired([NEWLINE]);
      RowsTextPaired(rows[1..]);
      PairedConcat(NativeText(rows[0]), [NEWLINE]);
      PairedConcat(NativeText(rows[0]) + [NEWLINE], RowsText(rows[1..]));
    }
  }

  /** The rows fit the record cap and the byte window. */
  predicate Fits(rows: seq<Value>) { |rows| <= MAX_RECORDS && |RowsBytes(rows)| <= MAX_LEDGER_BYTES }

  lemma FitsIff(rows: seq<Value>)
    ensures Fits(rows) <==> |rows| <= 1024 && |RowsBytes(rows)| <= 4_194_304
  {
  }

  /** A ledger the writer wrote reads back as its rows. */
  lemma LedgerReadsBack(parse: Parser, rows: seq<Value>)
    requires AllRows(rows) && ParsesNative(parse) && |rows| <= 1024 && |RowsBytes(rows)| <= 4_194_304
    ensures ReadRows(parse, Some(RowsBytes(rows))) == Some(rows)
  {
    RowsTextPaired(rows);
    DecodeUndoesEncode(RowsText(rows));
    RowsTextLines(rows);
    ParseTexts(parse, rows);
  }

  function RowsOrNone(parse: Parser, file: Option<Bytes>): seq<Value> {
    match ReadRows(parse, file) case None => [] case Some(rows) => rows
  }

  /** One append as an update of the file that was read. */
  function AppendRow(parse: Parser, file: Option<Bytes>, row: Value): Option<Bytes> {
    var rows := RowsOrNone(parse, file);
    if Known(rows, row) then file else Some(RowsBytes(Last(rows + [row], MAX_RECORDS)))
  }

  /** Appends to the ledger; one that cannot be read counts as missing. */
  function Appends(parse: Parser): Rule<Option<Bytes>, Value> { Rule((c, r) => AppendRow(parse, c, r), None) }

  predicate Holds(file: Option<Bytes>, rows: seq<Value>) {
    file == Some(RowsBytes(rows)) || (file.None? && rows == [])
  }

  lemma AppendRowIsAddRow(parse: Parser, file: Option<Bytes>, rows: seq<Value>, row: Value)
    requires ParsesNative(parse) && AllRows(rows) && IsRow(row) && Fits(rows) && Holds(file, rows)
    ensures Holds(AppendRow(parse, file, row), AddRow(rows, row)) && AllRows(AddRow(rows, row))
  {
    if file.Some? { LedgerReadsBack(parse, rows); }
  }

  /** Every ledger on the way fits the caps. */
  predicate FitsThrough(rows: seq<Value>, more: seq<Value>) {
    forall i :: 0 <= i <= |more| ==> Fits(AddAll(rows, more[..i]))
  }

  lemma {:induction false} AppendsAreAddAll(parse: Parser, file: Option<Bytes>, rows: seq<Value>, more: seq<Value>)
    requires ParsesNative(parse) && AllRows(rows) && AllRows(more) && Holds(file, rows) && FitsThrough(rows, more)
    ensures Holds(Fold(Appends(parse), file, more), AddAll(rows, more)) && AllRows(AddAll(rows, more))
  {
    if more != [] {
      var n := |more| - 1;
      assert FitsThrough(rows, more[..n]) by {
        assert forall i :: 0 <= i <= n ==> more[..n][..i] == more[..i];
      }
      assert forall r :: r in more[..n] ==> r in more;
      AppendsAreAddAll(parse, file, rows, more[..n]);
      assert more[n] in more;
      assert Fits(AddAll(rows, more[..n]));
      AppendRowIsAddRow(parse, Fold(Appends(parse), file, more[..n]), AddAll(rows, more[..n]), more[n]);
    }
  }

  /**
   Whatever the interleaving of appenders under the lock: the ledger holds the window over what they wrote in order
   since the last append that could not read the ledger, over the first rows if there was none such; every reported
   append was written.
   */
  lemma AppendersKeepWindow(parse: Parser, first: Option<Bytes>, rows: seq<Value>, steps: seq<(Pid, Event<Value>)>)
    requires ParsesNative(parse) && AllRows(rows) && Holds(first, rows)
    requires Run(Appends(parse), Start(first), steps).Some?
    requires var w := Run(Appends(parse), Start(first), steps).value.written;
      AllRows(Recent(w)) && FitsThrough(if Sighted(w) then rows else [], Recent(w))
    ensures var s := Run(Appends(parse), Start(first), steps).value;
      && multiset(s.reported) <= multiset(Acts(s.written))
      && Holds(s.content, AddAll(if Sighted(s.written) then rows else [], Recent(s.written)))
  {
    RunIsSerial(Appends(parse), first, steps);
    var w := Run(Appends(parse), Start(first), steps).value.written;
    if Sighted(w) {
      AppendsAreAddAll(parse, first, rows, Recent(w));
    } else {
      AppendsAreAddAll(parse, None, [], Recent(w));
    }
  }

  /** If no read fails, it is the window over all they wrote. */
  lemma SightedAppendersKeepWindow(parse: Parser, first: Option<Bytes>, rows: seq<Value>, steps: seq<(Pid, Event<Value>)>)
    requires ParsesNative(parse) && AllRows(rows) && Holds(first, rows)
    requires Run(Appends(parse), Start(first), steps).Some? && forall i :: 0 <= i < |steps| ==> !steps[i].1.ReadFault?
    requires var w := Run(Appends(parse), Start(first), steps).value.written;
      AllRows(Acts(w)) && FitsThrough(rows, Acts(w))
    ensures var s := Run(Appends(parse), Start(first), steps).value; Holds(s.content, AddAll(rows, Acts(s.written)))
  {
    SightedRunIsSerial(Appends(parse), first, steps);
    AppendsAreAddAll(parse, first, rows, Acts(Run(Appends(parse), Start(first), steps).value.written));
  }

  /** An append that cannot read the ledger leaves its own row alone in it. */
  lemma FailedReadLosesWitnesses(parse: Parser, row: Value)
    ensures AppendRow(parse, Appends(parse).blank, row) == Some(RowsBytes([row]))
  {
    assert Last([] + [row], MAX_RECORDS) == [row];
  }

  // ---------------------------------------------------------------- verification

  /** A snapshot's digest: its canonical form without its own hash field. */
  function SnapshotHash(sha: Digest, snap: Value): Option<Text> {
    var body := if snap.Obj? then Obj(Without(snap.fields, Ascii(CONTENT_HASH))) else Obj([]);
    match Canonical(body) case None => None case Some(t) => Some(sha(t))
  }

  datatype Verdict = InvalidSnapshot | IntegrityMismatch | NoLedger | Witnessed | Unwitnessed

  predicate IsWitnessed(sha: Digest, rows: seq<Value>, contentHash: Text) {
    exists r :: r in rows && Vouches(sha, r, contentHash)
  }

  /** The verdict on a snapshot, by the ledger file that can be read. */
  ghost function VerdictOf(sha: Digest, parse: Parser, snap: Value, file: Option<Bytes>): Verdict {
    var hash := Get(snap, CONTENT_HASH);
    if !IsHexString(hash) then InvalidSnapshot
    else if Get(snap, "personas").Arr? && SnapshotHash(sha, snap) != Some(hash.s) then IntegrityMismatch
    else if file.None? then NoLedger
    else if IsWitnessed(sha, ReadRows(parse, file).value, hash.s) then Witnessed
    else Unwitnessed
  }

  /** The checks and the backward scan give that verdict. */
  method VerifySnapshotProvenance(sha: Digest, parse: Parser, snap: Value, file: Option<Bytes>) returns (v: Verdict)
    ensures v == VerdictOf(sha, parse, snap, file)
  {
    var hash := Get(snap, CONTENT_HASH);
    if !IsHexString(hash) { return InvalidSnapshot; }
    if Get(snap, "personas").Arr? && SnapshotHash(sha, snap) != Some(hash.s) { return IntegrityMismatch; }
    var read := ReadRows(parse, file);
    if read.None? { return NoLedger; }
    var found := ScanRows(sha, read.value, hash.s);
    return if found then Witnessed else Unwitnessed;
  }

  /** Newest first, but any row that vouches will do. */
  method ScanRows(sha: Digest, rows: seq<Value>, contentHash: Text) returns (found: bool)
    ensures found <==> IsWitnessed(sha, rows, contentHash)
  {
    var i := |rows|;
    while i > 0
      invariant 0 <= i <= |rows|
      invariant forall k :: i <= k < |rows| ==> !Vouches(sha, rows[k], contentHash)
    {
      i := i - 1;
      var r := rows[i];
      if !r.Obj? || Get(r, CONTENT_HASH) != Str(contentHash) { continue; }
      var derived := WitnessId(sha, r);
      if derived.None? { continue; }
      if IdOf(r) == Str(derived.value) {
        assert r in rows;
        return true;
      }
    }
    return false;
  }

  /**
   A witness appended to a writer's ledger verifies its content hash exactly until as many newer distinct
   witnesses of other content have been appended as the ledger holds.
   */
  lemma VerifiableUntil(sha: Digest, rows: seq<Value>, contentHash: Text, generatedAt: Text, recordedAt: Text,
                        recordCount: Text, w: Value, more: seq<Value>)
    requires |rows| <= 1024 && IsNumberToken(recordCount)
    requires MakeRow(sha, Body(contentHash, generatedAt, recordedAt, recordCount)) == Some(w)
    requires forall r :: r in rows || r in more ==> Get(r, CONTENT_HASH) != Str(contentHash) && IdOf(r) != IdOf(w)
    ensures var ledger := AddRow(rows, w);
      IsWitnessed(sha, AddAll(ledger, more), contentHash) <==> |NewRows(ledger, more)| < 1024
  {
    MadeRowVouches(sha, Body(contentHash, generatedAt, recordedAt, recordCount), w);
    BodyHash(contentHash, generatedAt, recordedAt, recordCount);
    var ledger := AddRow(rows, w);
    AgesOut(rows, w, more);
    WindowMembers(rows, w, more);
    OnlyOneVouches(sha, AddAll(ledger, more), w, contentHash);
  }

  /** A snapshot whose own checks pass. */
  predicate Checkable(sha: Digest, snap: Value, contentHash: Text) {
    && Get(snap, CONTENT_HASH) == Str(contentHash) && IsHex64(contentHash)
    && (Get(snap, "personas").Arr? ==> SnapshotHash(sha, snap) == Some(contentHash))
  }

  /**
   The same of the file and the verdict: after a run of appends in which no read fails, the first of them the
   witness of a snapshot, verifying the snapshot against the ledger file says witnessed exactly while fewer than
   1,024 newer distinct witnesses of other content have been appended, and unwitnessed from then on.
   */
  lemma VerdictUntil(sha: Digest, parse: Parser, snap: Value, first: Option<Bytes>, rows: seq<Value>, contentHash: Text,
                     generatedAt: Text, recordedAt: Text, recordCount: Text, w: Value, more: seq<Value>,
                     steps: seq<(Pid, Event<Value>)>)
    requires ParsesNative(parse) && AllRows(rows) && Holds(first, rows) && |rows| <= 1024
    requires IsNumberToken(recordCount) && Checkable(sha, snap, contentHash)
    requires MakeRow(sha, Body(contentHash, generatedAt, recordedAt, recordCount)) == Some(w)
    requires forall r :: r in rows || r in more ==> Get(r, CONTENT_HASH) != Str(contentHash) && IdOf(r) != IdOf(w)
    requires Run(Appends(parse), Start(first), steps).Some? && forall i :: 0 <= i < |steps| ==> !steps[i].1.ReadFault?
    requires Acts(Run(Appends(parse), Start(first), steps).value.written) == [w] + more
    requires AllRows(more) && FitsThrough(rows, [w] + more)
    ensures VerdictOf(sha, parse, snap, Run(Appends(parse), Start(first), steps).value.content) ==
      if |NewRows(AddRow(rows, w), more)| < 1024 then Witnessed else Unwitnessed
  {
    var file := Run(Appends(parse), Start(first), steps).value.content;
    MadeRowVouches(sha, Body(contentHash, generatedAt, recordedAt, recordCount), w);
    VerifiableUntil(sha, rows, contentHash, generatedAt, recordedAt, recordCount, w, more);
    SightedAppendersKeepWindow(parse, first, rows, steps);
    LedgerFrom(parse, file, rows, w, more);
    VerdictOfRows(sha, parse, snap, file, AddAll(AddRow(rows, w), more), contentHash);
  }

  /** The ledger after a first row and more: rows that fit, at least one. */
  lemma LedgerFrom(parse: Parser, file: Option<Bytes>, rows: seq<Value>, w: Value, more: seq<Value>)
    requires ParsesNative(parse) && AllRows(rows) && IsRow(w) && AllRows(more) && FitsThrough(rows, [w] + more)
    requires Holds(file, AddAll(rows, [w] + more))
    ensures var ledger := AddAll(AddRow(rows, w), more);
      Holds(file, ledger) && AllRows(ledger) && ledger != [] && Fits(ledger)
  {
    var all := [w] + more;
    AllRowsKept(rows, all);
    AddAllFrom(rows, w, more);
    AddAllNonEmpty(AddRow(rows, w), more);
    assert all[..|all|] == all;
  }

  lemma {:induction false} AllRowsKept(rows: seq<Value>, more: seq<Value>)
    requires AllRows(rows) && AllRows(more)
    ensures AllRows(AddAll(rows, more))
  {
    if more != [] { AllRowsKept(rows, more[..|more| - 1]); }
  }

  /** The verdict against a ledger the writer wrote. */
  lemma VerdictOfRows(sha: Digest, parse: Parser, snap: Value, file: Option<Bytes>, rows: seq<Value>, contentHash: Text)
    requires ParsesNative(parse) && AllRows(rows) && Holds(file, rows) && rows != [] && Fits(rows)
    requires Checkable(sha, snap, contentHash)
    ensures VerdictOf(sha, parse, snap, file) == if IsWitnessed(sha, rows, contentHash) then Witnessed else Unwitnessed
  {
    LedgerReadsBack(parse, rows);
  }

  lemma {:induction false} AddAllFrom(rows: seq<Value>, w: Value, more: seq<Value>)
    ensures AddAll(rows, [w] + more) == AddAll(AddRow(rows, w), more)
  {
    var all := [w] + more;
    if more == [] {
      assert all[..0] == [];
    } else {
      assert all[..|all| - 1] == [w] + more[..|more| - 1];
      AddAllFrom(rows, w, more[..|more| - 1]);
    }
  }

  lemma {:induction false} AddAllNonEmpty(rows: seq<Value>, more: seq<Value>)
    requires rows != []
    ensures AddAll(rows, more) != []
  {
    if more != [] { AddAllNonEmpty(rows, more[..|more| - 1]); }
  }

  lemma {:induction false} WindowMembers(rows: seq<Value>, w: Value, more: seq<Value>)
    ensures forall r :: r in AddAll(AddRow(rows, w), more) ==> r == w || r in rows || r in more
  {
    if more != [] {
      WindowMembers(rows, w, more[..|more| - 1]);
    }
  }

  lemma OnlyOneVouches(sha: Digest, rows: seq<Value>, w: Value, contentHash: Text)
    requires Vouches(sha, w, contentHash)
    requires forall r :: r in rows && r != w ==> Get(r, CONTENT_HASH) != Str(contentHash)
    ensures IsWitnessed(sha, rows, contentHash) <==> w in rows
  {
  }

  // ---------------------------------------------------------------- one append

  datatype Request = Request(contentHash: Value, generatedAt: Value, recordedAt: Option<Text>, recordCount: Text)

  datatype Reply =
    | BadContentHash | BadGeneratedAt | BadNow | LockBusy | AppendFailed
    | Added(id: Text)
    | Deduped(id: Text)

  function BodyOf(q: Request): seq<Field>
    requires q.contentHash.Str? && q.generatedAt.Str? && q.recordedAt.Some?
  {
    Body(q.contentHash.s, q.generatedAt.s, q.recordedAt.value, q.recordCount)
  }

  /** A request with nothing to refuse. */
  predicate Answerable(sha: Digest, q: Request) {
    && IsHexString(q.contentHash) && q.generatedAt.Str? && q.generatedAt.s != [] && q.recordedAt.Some?
    && WitnessId(sha, Obj(BodyOf(q))).Some?
  }

  /** The row it asks for. */
  function RowOf(sha: Digest, q: Request): Value
    requires Answerable(sha, q)
  {
    MakeRow(sha, BodyOf(q)).value
  }

  class Ledger {
    var file: Option<Bytes>

    constructor (file: Option<Bytes>)
      ensures this.file == file
    {
      this.file := file;
    }

    /**
     Checks, lock, read, deduplicate, cap, write. Refusals and duplicates leave the ledger alone; a write is the
     append to what was read, and a ledger that could not be read counts as missing.
     */
    method AppendSnapshotWitness(sha: Digest, parse: Parser, q: Request, gotLock: bool, readable: bool, writes: bool)
      returns (reply: Reply)
      requires IsNumberToken(q.recordCount)
      modifies this
      ensures reply.BadContentHash? <==> !IsHexString(q.contentHash)
      ensures reply.BadGeneratedAt? <==> IsHexString(q.contentHash) && (!q.generatedAt.Str? || q.generatedAt.s == [])
      ensures reply.LockBusy? ==> !gotLock
      ensures reply.BadNow? ==> q.recordedAt.None?
      ensures !Answerable(sha, q) || !gotLock ==> file == old(file) && !reply.Added? && !reply.Deduped?
      ensures Answerable(sha, q) && gotLock ==>
        var row := RowOf(sha, q);
        var seen := if readable then old(file) else None;
        && IdOf(row).Str?
        && reply == (if Known(RowsOrNone(parse, seen), row) then Deduped(IdOf(row).s)
                     else if writes then Added(IdOf(row).s) else AppendFailed)
        && file == (if reply.Added? then AppendRow(parse, seen, row) else old(file))
    {
      if !IsHexString(q.contentHash) { return BadContentHash; }
      if !q.generatedAt.Str? || q.generatedAt.s == [] { return BadGeneratedAt; }
      if q.recordedAt.None? { return BadNow; }
      var body := Body(q.contentHash.s, q.generatedAt.s, q.recordedAt.value, q.recordCount);
      var id := WitnessId(sha, Obj(body));
      if id.None? { return AppendFailed; }
      var row := Obj([Field(Ascii(WITNESS_ID), Str(id.value))] + body);
      assert IsBody(body);
      MadeRowVouches(sha, body, row);
      if !gotLock { return LockBusy; }
      var read := if readable then ReadRows(parse, file) else None;
      var rows := if read.None? then [] else read.value;
      if Known(rows, row) { return Deduped(id.value); }
      if !writes { return AppendFailed; }
      file := Some(RowsBytes(Last(rows + [row], MAX_RECORDS)));
      return Added(id.value);
    }
  }

  // ---------------------------------------------------------------- rows and snapshots spelled out

  /** A witness id is the digest of the canonical text of the row's other fields. */
  lemma WitnessIdIsDigest(sha: Digest, a: seq<Field>, id: Value, b: seq<Field>)
    requires forall g :: g in a + b ==> g.key != Ascii("witness_id")
    ensures WitnessId(sha, Obj(a + [Field(Ascii("witness_id"), id)] + b)) ==
      match Canonical(Obj(a + b)) case None => None case Some(t) => Some(sha(t))
  {
    WithoutMiddle(a, Field(Ascii("witness_id"), id), b);
  }

  /** The row the writer makes: the id of its body, and the body field by field. */
  lemma MadeRowSpelled(sha: Digest, contentHash: Text, generatedAt: Text, recordedAt: Text, recordCount: Text, row: Value)
    requires MakeRow(sha, Body(contentHash, generatedAt, recordedAt, recordCount)) == Some(row)
    ensures var body := [Field(Ascii("schema_version"), Str(Ascii("v1"))), Field(Ascii("content_hash"), Str(contentHash)),
                         Field(Ascii("generated_at"), Str(generatedAt)), Field(Ascii("recorded_at"), Str(recordedAt)),
                         Field(Ascii("record_count"), Num(recordCount))];
      && Canonical(Obj(body)).Some?
      && row == Obj([Field(Ascii("witness_id"), Str(sha(Canonical(Obj(body)).value)))] + body)
  {
    var body := Body(contentHash, generatedAt, recordedAt, recordCount);
    BodySpelled(contentHash, generatedAt, recordedAt, recordCount);
    BodyNamesDistinct();
    WithoutNothing(body, Ascii(WITNESS_ID));
  }

  lemma BodySpelled(contentHash: Text, generatedAt: Text, recordedAt: Text, recordCount: Text)
    ensures Body(contentHash, generatedAt, recordedAt, recordCount) ==
      [Field(Ascii("schema_version"), Str(Ascii("v1"))), Field(Ascii("content_hash"), Str(contentHash)),
       Field(Ascii("generated_at"), Str(generatedAt)), Field(Ascii("recorded_at"), Str(recordedAt)),
       Field(Ascii("record_count"), Num(recordCount))]
  {
  }

  /**
   A snapshot without a digest in its content hash is invalid. One with its personas is a mismatch exactly when the
   digest of the canonical text of its other fields is not that hash; one without is never a mismatch.
   */
  lemma MismatchIff(sha: Digest, parse: Parser, a: seq<Field>, hash: Value, b: seq<Field>, file: Option<Bytes>)
    requires forall g :: g in a + b ==> g.key != Ascii("content_hash")
    ensures var snap := Obj(a + [Field(Ascii("content_hash"), hash)] + b);
      && (VerdictOf(sha, parse, snap, file).InvalidSnapshot? <==> !(hash.Str? && IsHexDigest(hash.s)))
      && (VerdictOf(sha, parse, snap, file).IntegrityMismatch? <==>
            && hash.Str? && IsHexDigest(hash.s) && Get(snap, "personas").Arr?
            && !(Canonical(Obj(a + b)).Some? && hash.s == sha(Canonical(Obj(a + b)).value)))
  {
    var f := Field(Ascii("content_hash"), hash);
    WithoutMiddle(a, f, b);
    LookupMiddle(a, f, b);
    if hash.Str? { DigestIs(hash.s); }
  }

  lemma {:induction false} LookupMiddle(a: seq<Field>, f: Field, b: seq<Field>)
    requires forall g :: g in a + b ==> g.key != f.key
    ensures Lookup(a + [f] + b, f.key) == f.val
  {
    if a == [] {
      assert (a + [f] + b)[0] == f;
    } else {
      assert (a + [f] + b)[1..] == a[1..] + [f] + b && a[0] in a + b;
      forall g | g in a[1..] + b ensures g.key != f.key { assert g in a + b; }
      LookupMiddle(a[1..], f, b);
    }
  }

  lemma {:induction false} TruthyFewer(vs: seq<Value>)
    ensures |Truthy(vs)| <= |vs| && forall v :: v in Truthy(vs) <==> v in vs && !Falsy(v)
  {
    if vs != [] { TruthyFewer(vs[1..]); }
  }

  lemma {:induction false} ParseAllFewer(parse: Parser, lines: seq<Text>)
    ensures |ParseAll(parse, lines)| <= |lines|
  {
    if lines != [] { ParseAllFewer(parse, lines[1..]); }
  }

  /** Whatever the file holds, at most 1,024 rows are read, and only from its last four mebibytes. */
  lemma ReadIsBounded(parse: Parser, file: Bytes, head: Bytes)
    ensures |ReadRows(parse, Some(file)).value| <= 1024 && forall r :: r in ReadRows(parse, Some(file)).value ==> !Falsy(r)
    ensures |file| > 4_194_304 ==> ReadRows(parse, Some(head + file)) == ReadRows(parse, Some(file))
  {
    var lines := Last(LinesOf(TailText(file, MAX_LEDGER_BYTES)), MAX_RECORDS);
    ParseAllFewer(parse, lines);
    TruthyFewer(ParseAll(parse, lines));
    if |file| > 4_194_304 { TailForgets(head, file, MAX_LEDGER_BYTES); }
  }
}
