/** The lifecycle of a record spelled out on the fields of the log: what each state of the projection means. */
module LifecycleRules {
  import opened Wrappers
  import opened Json
  import opened TransactionRecord
  import opened RecordRules
  import opened Provenance
  import Reachability

  // ---------------------------------------------------------------- what a log says of an id

  /** The list field of the record names the id, a digest. */
  ghost predicate Lists(record: Value, name: string, id: Text) {
    IsHexDigest(id) && Get(record, name).Arr? && Str(id) in Get(record, name).items
  }

  /** A committed operation of this class names the id among its affected records. */
  ghost predicate Targeted(records: seq<Value>, op: string, id: Text) {
    exists x :: x in records
      && Get(x, "operation_class") == Str(Ascii(op)) && Get(x, "commit_outcome") == Str(Ascii("COMMITTED"))
      && Lists(x, "affected_records", id)
  }

  /** The first record with this id. */
  ghost predicate IsFirst(records: seq<Value>, k: nat, id: Text) {
    && k < |records| && IsHexDigest(id) && Get(records[k], "transaction_id") == Str(id)
    && forall i :: 0 <= i < k ==> Get(records[i], "transaction_id") != Str(id)
  }

  /** The first record with one id has the other among its evidence. */
  ghost predicate Cites(records: seq<Value>, from: Text, to: Text) {
    exists k: nat :: IsFirst(records, k, from) && Lists(records[k], "evidence_refs", to)
  }

  /** A chain of citations, each id cited by the one before it. */
  ghost predicate IsTrail(records: seq<Value>, trail: seq<Text>) {
    && trail != [] && IsHexDigest(trail[0])
    && forall i :: 0 <= i < |trail| - 1 ==> Cites(records, trail[i], trail[i + 1])
  }

  ghost predicate DependsOn(records: seq<Value>, id: Text, dep: Text) {
    exists trail :: IsTrail(records, trail) && trail[0] == id && trail[|trail| - 1] == dep
  }

  // ---------------------------------------------------------------- the model against it

  lemma HexIdIs(v: Value, id: Text)
    ensures HexId(v) == Some(id) <==> v == Str(id) && IsHexDigest(id)
  {
    DigestIs(id);
  }

  lemma ListsIs(record: Value, name: string, id: Text)
    ensures id in Ids(ItemsOf(Get(record, name))) <==> Lists(record, name, id)
  {
    var items := ItemsOf(Get(record, name));
    if id in Ids(items) {
      var v :| v in items && HexId(v) == Some(id);
      HexIdIs(v, id);
    }
    if Lists(record, name, id) {
      HexIdIs(Str(id), id);
      assert Str(id) in items;
    }
  }

  lemma TargetedIs(records: seq<Value>, op: string, id: Text)
    requires IsAscii(op)
    ensures id in Affected(records, op) <==> Targeted(records, op, id)
  {
    if id in Affected(records, op) {
      var x :| x in records && CommittedOp(x, op) && id in Ids(ItemsOf(Get(x, "affected_records")));
      ListsIs(x, "affected_records", id);
    }
    if Targeted(records, op, id) {
      var x :| x in records
        && Get(x, "operation_class") == Str(Ascii(op)) && Get(x, "commit_outcome") == Str(Ascii("COMMITTED"))
        && Lists(x, "affected_records", id);
      ListsIs(x, "affected_records", id);
      assert CommittedOp(x, op);
    }
  }

  /** Where the first record with an id stands. */
  lemma {:induction false} FirstAt(records: seq<Value>, id: Text) returns (k: nat)
    requires FirstWith(records, id).Some?
    ensures IsFirst(records, k, id) && FirstWith(records, id) == Some(records[k])
  {
    HexIdIs(Get(records[0], "transaction_id"), id);
    if IdOf(records[0]) == Some(id) {
      k := 0;
    } else {
      var n := FirstAt(records[1..], id);
      k := n + 1;
      forall i | 0 <= i < k ensures Get(records[i], "transaction_id") != Str(id) {
        if i > 0 { assert records[i] == records[1..][i - 1]; }
      }
    }
  }

  lemma {:induction false} FirstIs(records: seq<Value>, k: nat, id: Text)
    requires IsFirst(records, k, id)
    ensures FirstWith(records, id) == Some(records[k])
  {
    HexIdIs(Get(records[0], "transaction_id"), id);
    if k > 0 {
      forall i | 0 <= i < k - 1 ensures Get(records[1..][i], "transaction_id") != Str(id) {
        assert records[1..][i] == records[i + 1];
      }
      FirstIs(records[1..], k - 1, id);
    }
  }

  lemma CitesIs(records: seq<Value>, from: Text, to: Text)
    ensures to in Evidence(records)(from) <==> Cites(records, from, to)
  {
    if to in RefsOf(records, from) {
      var k := FirstAt(records, from);
      ListsIs(records[k], "evidence_refs", to);
    }
    if Cites(records, from, to) {
      var k: nat :| IsFirst(records, k, from) && Lists(records[k], "evidence_refs", to);
      FirstIs(records, k, from);
      ListsIs(records[k], "evidence_refs", to);
    }
  }

  lemma {:induction false} TrailTo(records: seq<Value>, id: Text, dep: Text, n: nat) returns (trail: seq<Text>)
    requires IsHexDigest(id) && Reachability.ReachedIn(Evidence(records), {id}, dep, n)
    ensures IsTrail(records, trail) && trail[0] == id && trail[|trail| - 1] == dep
    decreases n
  {
    if dep == id {
      trail := [id];
    } else {
      var mid := LastStep(records, id, dep, n);
      trail := TrailTo(records, id, mid, n - 1);
      LongerTrail(records, trail, dep);
      trail := trail + [dep];
    }
  }

  lemma LastStep(records: seq<Value>, id: Text, dep: Text, n: nat) returns (mid: Text)
    requires Reachability.ReachedIn(Evidence(records), {id}, dep, n) && dep != id
    ensures n > 0 && Reachability.ReachedIn(Evidence(records), {id}, mid, n - 1) && Cites(records, mid, dep)
  {
    mid :| Reachability.ReachedIn(Evidence(records), {id}, mid, n - 1) && dep in Evidence(records)(mid);
    CitesIs(records, mid, dep);
  }

  lemma LongerTrail(records: seq<Value>, trail: seq<Text>, dep: Text)
    requires IsTrail(records, trail) && Cites(records, trail[|trail| - 1], dep)
    ensures IsTrail(records, trail + [dep])
  {
    var longer := trail + [dep];
    forall i | 0 <= i < |longer| - 1 ensures Cites(records, longer[i], longer[i + 1]) {
      if i < |trail| - 1 { assert Cites(records, trail[i], trail[i + 1]); }
    }
  }

  lemma {:induction false} TrailReaches(records: seq<Value>, trail: seq<Text>, n: nat)
    requires IsTrail(records, trail) && n < |trail|
    ensures Reachability.ReachedIn(Evidence(records), {trail[0]}, trail[n], n)
  {
    if n > 0 {
      TrailReaches(records, trail, n - 1);
      assert Cites(records, trail[n - 1], trail[n - 1 + 1]);
      CitesIs(records, trail[n - 1], trail[n]);
    }
  }

  /** What is reachable from an id is what it depends on. */
  lemma ReachIs(records: seq<Value>, id: Text, dep: Text)
    ensures dep in ReachSet(records, Ids([Str(id)])) <==> DependsOn(records, id, dep)
  {
    var edges, bound := Evidence(records), AllRefs(records);
    EvidenceWithin(records);
    HexIdIs(Str(id), id);
    if IsHexDigest(id) {
      assert Ids([Str(id)]) == {id};
      Reachability.ReachSetMembers(edges, bound, {id}, dep);
      if Reachability.Reachable(edges, {id}, dep) {
        var n: nat :| Reachability.ReachedIn(edges, {id}, dep, n);
        var trail := TrailTo(records, id, dep, n);
      }
      if DependsOn(records, id, dep) {
        var trail :| IsTrail(records, trail) && trail[0] == id && trail[|trail| - 1] == dep;
        TrailReaches(records, trail, |trail| - 1);
      }
    } else {
      assert Ids([Str(id)]) == {};
      NothingReached(records, dep);
    }
  }

  lemma NothingReached(records: seq<Value>, dep: Text)
    ensures dep !in ReachSet(records, {})
  {
    if Reachability.Reachable(Evidence(records), {}, dep) {
      var n: nat :| Reachability.ReachedIn(Evidence(records), {}, dep, n);
      NoneIn(records, dep, n);
    }
  }

  lemma {:induction false} NoneIn(records: seq<Value>, dep: Text, n: nat)
    ensures !Reachability.ReachedIn(Evidence(records), {}, dep, n)
    decreases n
  {
    if Reachability.ReachedIn(Evidence(records), {}, dep, n) {
      var mid :| Reachability.ReachedIn(Evidence(records), {}, mid, n - 1) && dep in Evidence(records)(mid);
      NoneIn(records, mid, n - 1);
    }
  }

  // ---------------------------------------------------------------- the states

  /** More than the retention window, 90 days unless asked otherwise, has passed since the commit, or the intent. */
  predicate AgedOut(record: Value, clock: Clock) {
    var committed := Get(record, "committed_at");
    var raw := if committed in FALSE_VALUES then Get(record, "intent_recorded_at") else committed;
    var days := if clock.retentionDays.Some? && clock.retentionDays.value > 0 then clock.retentionDays.value else 90;
    && raw.Str? && clock.parseDate(raw.s).Some?
    && clock.nowMs - clock.parseDate(raw.s).value > days * 24 * 60 * 60 * 1000
  }

  /** The record's id is targeted by a committed operation of the class. */
  ghost predicate IsTargeted(record: Value, records: seq<Value>, op: string) {
    Get(record, "transaction_id").Str? && Targeted(records, op, Get(record, "transaction_id").s)
  }

  /** The record is not superseded, but something it depends on is. */
  ghost predicate HasLostGround(record: Value, records: seq<Value>) {
    var id := Get(record, "transaction_id");
    && id.Str? && !Targeted(records, "SUPERSEDE", id.s)
    && exists dep :: dep != id.s && DependsOn(records, id.s, dep) && Targeted(records, "SUPERSEDE", dep)
  }

  /** The states an outcome settles by itself. */
  function Final(outcome: Value): Option<Lifecycle> {
    if outcome == Str(Ascii("ABORTED")) || outcome == Str(Ascii("ROLLED-BACK")) then Some(Aborted)
    else if outcome == Str(Ascii("NOT_APPLICABLE")) then Some(Informational)
    else if outcome == Str(Ascii("PENDING")) then Some(Candidate)
    else None
  }

  /** The lifecycle state, from the fields of the record and the log alone. */
  ghost function LifecycleOf(record: Value, records: seq<Value>, clock: Clock): Lifecycle {
    var outcome := Get(record, "commit_outcome");
    if !record.Obj? then NotARecord
    else match Final(outcome)
      case Some(s) => s
      case None => Standing(record, records, outcome == Str(Ascii("COMMITTED")) && AgedOut(record, clock))
  }

  /** Where a record without a final outcome stands in the log. */
  ghost function Standing(record: Value, records: seq<Value>, aged: bool): Lifecycle {
    if IsTargeted(record, records, "TOMBSTONE") then Tombstoned
    else if IsTargeted(record, records, "SUPERSEDE") then Superseded
    else if HasLostGround(record, records) then Stale
    else if aged then Archived
    else Active
  }

  lemma TargetedIsNamed(record: Value, records: seq<Value>, op: string)
    requires IsAscii(op)
    ensures Names(Get(record, "transaction_id"), Affected(records, op)) <==> IsTargeted(record, records, op)
  {
    if Get(record, "transaction_id").Str? { TargetedIs(records, op, Get(record, "transaction_id").s); }
  }

  lemma ReachedAll(records: seq<Value>, id: Text)
    ensures forall dep :: dep in ReachSet(records, Ids([Str(id)])) <==> DependsOn(records, id, dep)
  {
    forall dep ensures dep in ReachSet(records, Ids([Str(id)])) <==> DependsOn(records, id, dep) {
      ReachIs(records, id, dep);
    }
  }

  lemma TargetedAll(records: seq<Value>, op: string)
    requires IsAscii(op)
    ensures forall dep :: dep in Affected(records, op) <==> Targeted(records, op, dep)
  {
    forall dep ensures dep in Affected(records, op) <==> Targeted(records, op, dep) { TargetedIs(records, op, dep); }
  }

  lemma LostGround(records: seq<Value>, id: Text, reach: set<Text>, superseded: set<Text>)
    requires forall dep :: dep in reach <==> DependsOn(records, id, dep)
    requires forall dep :: dep in superseded <==> Targeted(records, "SUPERSEDE", dep)
    ensures (id !in superseded && exists dep :: dep in reach && dep != id && dep in superseded) <==>
      && !Targeted(records, "SUPERSEDE", id)
      && exists dep :: dep != id && DependsOn(records, id, dep) && Targeted(records, "SUPERSEDE", dep)
  {
  }

  lemma StaleIs(record: Value, records: seq<Value>, clock: Clock)
    ensures IsStale(FactsOf(record, records, clock)) <==> HasLostGround(record, records)
  {
    var id := Get(record, "transaction_id");
    if id.Str? {
      TargetedAll(records, "SUPERSEDE");
      ReachedAll(records, id.s);
      LostGround(records, id.s, ReachSet(records, Ids([id])), Affected(records, "SUPERSEDE"));
    }
  }

  lemma AgedIs(record: Value, clock: Clock)
    ensures Timestamp(record, clock).Some?
            && clock.nowMs - Timestamp(record, clock).value > RetentionDays(clock.retentionDays) * DAY_MS
       <==> AgedOut(record, clock)
  {
    FalsyIs(Get(record, "committed_at"));
  }

  lemma StandingIs(record: Value, records: seq<Value>, clock: Clock)
    requires Settled(record).None?
    ensures State(record, records, clock) == Standing(record, records, Committed(record) && AgedOut(record, clock))
  {
    TargetedIsNamed(record, records, "TOMBSTONE");
    TargetedIsNamed(record, records, "SUPERSEDE");
    StaleIs(record, records, clock);
    AgedIs(record, clock);
  }

  /** The state of the model is the state spelled out. */
  lemma StateIs(record: Value, records: seq<Value>, clock: Clock)
    ensures State(record, records, clock) == LifecycleOf(record, records, clock)
  {
    SettledIs(record, records, clock);
    if Settled(record).None? { StandingIs(record, records, clock); } else { StateSettled(record, records, clock); }
  }

  lemma StateSettled(record: Value, records: seq<Value>, clock: Clock)
    requires Settled(record).Some?
    ensures State(record, records, clock) == Settled(record).value
  {
  }

  lemma SettledIs(record: Value, records: seq<Value>, clock: Clock)
    ensures LifecycleOf(record, records, clock) ==
      if Settled(record).Some? then Settled(record).value
      else Standing(record, records, Committed(record) && AgedOut(record, clock))
  {
    FinalIs(record);
  }

  lemma FinalIs(record: Value)
    ensures Settled(record) == if record.Obj? then Final(Get(record, "commit_outcome")) else Some(NotARecord)
  {
  }
}
