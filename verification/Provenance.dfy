/**
 The bounded evidence closure of a record, and the lifecycle state derived from it.
 */
module Provenance {
  import opened Wrappers
  import opened Json
  import opened TransactionRecord
  import opened Reachability

  const DEFAULT_MAX_NODES: nat := 10000
  const DEFAULT_RETENTION_DAYS: nat := 90
  const DAY_MS: nat := 86400000

  // ---------------------------------------------------------------- reachability

  function HexId(v: Value): Option<Text> { if v.Str? && IsHex64(v.s) then Some(v.s) else None }

  function IdOf(record: Value): Option<Text> { HexId(Get(record, "transaction_id")) }

  function ItemsOf(v: Value): seq<Value> { if v.Arr? then v.items else [] }

  /** The transaction ids in a list of references; anything else is skipped. */
  function Ids(items: seq<Value>): (r: set<Text>)
    ensures forall id :: id in r <==> exists v :: v in items && HexId(v) == Some(id)
  {
    if items == [] then {}
    else match HexId(items[0])
      case None => Ids(items[1..])
      case Some(id) => {id} + Ids(items[1..])
  }

  /** The first record with this id. */
  function FirstWith(records: seq<Value>, id: Text): (r: Option<Value>)
    ensures r.Some? ==> r.value in records && IdOf(r.value) == Some(id)
    ensures r.None? ==> forall x :: x in records ==> IdOf(x) != Some(id)
  {
    if records == [] then None
    else if IdOf(records[0]) == Some(id) then Some(records[0])
    else FirstWith(records[1..], id)
  }

  /** Where one id leads. */
  function RefsOf(records: seq<Value>, id: Text): set<Text> {
    match FirstWith(records, id)
    case None => {}
    case Some(r) => Ids(ItemsOf(Get(r, "evidence_refs")))
  }

  function AllRefs(records: seq<Value>): set<Text> {
    if records == [] then {} else Ids(ItemsOf(Get(records[0], "evidence_refs"))) + AllRefs(records[1..])
  }

  lemma RefsWithin(records: seq<Value>, id: Text)
    ensures RefsOf(records, id) <= AllRefs(records)
  {
    if records != [] && IdOf(records[0]) != Some(id) { RefsWithin(records[1..], id); }
  }

  /** The evidence references of a record set as a graph on ids. */
  function Evidence(records: seq<Value>): Edges<Text> { (id: Text) => RefsOf(records, id) }

  /** Every id reachable from the seeds over evidence references. */
  ghost function ReachSet(records: seq<Value>, seeds: set<Text>): set<Text> {
    Reachability.ReachSet(Evidence(records), AllRefs(records), seeds)
  }

  lemma EvidenceWithin(records: seq<Value>)
    ensures Within(Evidence(records), AllRefs(records))
  {
    forall id ensures Evidence(records)(id) <= AllRefs(records) { RefsWithin(records, id); }
  }

  // ---------------------------------------------------------------- the bounded walk

  function ClampMaxNodes(asked: Option<int>): (n: nat)
    ensures n > 0 && (asked.Some? && asked.value > 0 ==> n == asked.value)
    ensures asked.None? || asked.value <= 0 ==> n == 10000
  {
    if asked.Some? && asked.value > 0 then asked.value else DEFAULT_MAX_NODES
  }

  method IndexById(records: seq<Value>) returns (index: map<Text, Value>)
    ensures forall id :: id in index <==> FirstWith(records, id).Some?
    ensures forall id :: id in index ==> FirstWith(records, id) == Some(index[id])
  {
    index := map[];
    for i := 0 to |records|
      invariant forall id :: id in index <==> FirstWith(records[..i], id).Some?
      invariant forall id :: id in index ==> FirstWith(records[..i], id) == Some(index[id])
    {
      forall id ensures FirstWith(records[..i + 1], id) ==
        (if FirstWith(records[..i], id).Some? then FirstWith(records[..i], id)
         else if IdOf(records[i]) == Some(id) then Some(records[i]) else None)
      {
        FirstWithNext(records, i, id);
      }
      var id := IdOf(records[i]);
      if id.Some? && id.value !in index {
        index := index[id.value := records[i]];
      }
    }
    assert records[..|records|] == records;
  }

  lemma {:induction false} FirstWithNext(records: seq<Value>, i: nat, id: Text)
    requires i < |records|
    ensures FirstWith(records[..i + 1], id) ==
      (if FirstWith(records[..i], id).Some? then FirstWith(records[..i], id)
       else if IdOf(records[i]) == Some(id) then Some(records[i]) else None)
  {
    if i > 0 {
      assert records[..i + 1][1..] == records[1..][..i];
      assert records[..i][1..] == records[1..][..i - 1];
      FirstWithNext(records[1..], i - 1, id);
    } else {
      assert records[..1][1..] == [];
    }
  }

  /**
   Breadth-first over evidence references, stopping at the cap: the result is the reachable set when that fits
   the cap, and otherwise as many reachable ids as the cap allows.
   */
  method CollectClosure(start: seq<Value>, records: seq<Value>, maxNodes: nat) returns (visited: set<Text>)
    requires maxNodes > 0
    ensures visited <= ReachSet(records, Ids(start)) && |visited| <= maxNodes
    ensures |ReachSet(records, Ids(start))| <= maxNodes ==> visited == ReachSet(records, Ids(start))
    ensures |ReachSet(records, Ids(start))| > maxNodes ==> |visited| == maxNodes
  {
    var index := IndexById(records);
    var queue: seq<Text>;
    ghost var edges, bound, seeds := Evidence(records), AllRefs(records), Ids(start);
    EvidenceWithin(records);
    visited, queue := Seed(start, edges, bound, maxNodes);
    while queue != [] && |visited| < maxNodes
      invariant Exploring(edges, bound, seeds, maxNodes, visited, queue)
      decreases maxNodes - |visited|, |queue|
    {
      var id := queue[0];
      var refs := if id in index then ItemsOf(Get(index[id], "evidence_refs")) else [];
      visited, queue := Expand(refs, edges, bound, seeds, maxNodes, visited, queue);
    }
    Explored(edges, bound, seeds, maxNodes, visited, queue);
  }

  method Seed(start: seq<Value>, ghost edges: Edges<Text>, ghost bound: set<Text>, maxNodes: nat)
    returns (visited: set<Text>, queue: seq<Text>)
    requires maxNodes > 0
    ensures Exploring(edges, bound, Ids(start), maxNodes, visited, queue)
  {
    visited, queue := {}, [];
    for i := 0 to |start|
      invariant |visited| <= maxNodes && visited <= Ids(start)
      invariant forall id :: id in queue <==> id in visited
      invariant |visited| < maxNodes ==> Ids(start[..i]) <= visited
    {
      if |visited| >= maxNodes { break; }
      IdsNext(start, i);
      IdsPrefix(start, i + 1);
      var id := HexId(start[i]);
      if id.Some? && id.value !in visited {
        visited := visited + {id.value};
        queue := queue + [id.value];
      }
    }
    assert start[..|start|] == start;
    ReachSetSeeds(edges, bound, Ids(start));
  }

  method Expand(refs: seq<Value>, ghost edges: Edges<Text>, ghost bound: set<Text>, ghost seeds: set<Text>, maxNodes: nat,
                visited: set<Text>, queue: seq<Text>)
    returns (visited': set<Text>, queue': seq<Text>)
    requires Within(edges, bound) && queue != [] && |visited| < maxNodes
    requires Exploring(edges, bound, seeds, maxNodes, visited, queue)
    requires edges(queue[0]) == Ids(refs)
    ensures Exploring(edges, bound, seeds, maxNodes, visited', queue')
    ensures |visited'| > |visited| || (|visited'| == |visited| && |queue'| < |queue|)
  {
    visited', queue' := visited, queue[1..];
    ReachSetEdges(edges, bound, seeds, queue[0]);
    for i := 0 to |refs|
      invariant visited <= visited' <= Reachability.ReachSet(edges, bound, seeds) && |visited'| <= maxNodes
      invariant forall x :: x in queue' ==> x in visited'
      invariant forall x :: x in queue[1..] ==> x in queue'
      invariant forall x :: x in visited' && x !in visited ==> x in queue'
      invariant |visited'| > |visited| || (visited' == visited && queue' == queue[1..])
      invariant |visited'| < maxNodes ==> Ids(refs[..i]) <= visited'
    {
      IdsNext(refs, i);
      IdsPrefix(refs, i + 1);
      var ref := HexId(refs[i]);
      if ref.None? || ref.value in visited' { continue; }
      if |visited'| >= maxNodes { break; }
      visited' := visited' + {ref.value};
      queue' := queue' + [ref.value];
    }
    assert refs[..|refs|] == refs;
    Expanded(edges, bound, seeds, maxNodes, visited, queue, visited', queue');
  }

  lemma IdsNext(items: seq<Value>, k: nat)
    requires k < |items|
    ensures Ids(items[..k + 1]) == Ids(items[..k]) + (if HexId(items[k]).Some? then {HexId(items[k]).value} else {})
  {
    assert items[..k + 1] == items[..k] + [items[k]];
  }

  lemma IdsPrefix(items: seq<Value>, k: nat)
    requires k <= |items|
    ensures Ids(items[..k]) <= Ids(items)
  {
  }

  // ---------------------------------------------------------------- lifecycle

  predicate CommittedOp(record: Value, op: string)
    requires IsAscii(op)
  {
    && record.Obj?
    && Get(record, "operation_class") == Str(Ascii(op))
    && Get(record, "commit_outcome") == Str(Ascii("COMMITTED"))
  }

  /** Ids that committed operations of one class act on. */
  function Affected(records: seq<Value>, op: string): (r: set<Text>)
    requires IsAscii(op)
    ensures forall id :: id in r <==>
      exists x :: x in records && CommittedOp(x, op) && id in Ids(ItemsOf(Get(x, "affected_records")))
  {
    if records == [] then {}
    else (if CommittedOp(records[0], op) then Ids(ItemsOf(Get(records[0], "affected_records"))) else {})
         + Affected(records[1..], op)
  }

  lemma AffectedNext(records: seq<Value>, i: nat, op: string)
    requires i < |records| && IsAscii(op)
    ensures Affected(records[..i + 1], op) == Affected(records[..i], op) +
      (if CommittedOp(records[i], op) then Ids(ItemsOf(Get(records[i], "affected_records"))) else {})
  {
    var before, after := records[..i], records[..i + 1];
    assert after == before + [records[i]];
    forall id ensures id in Affected(after, op) <==>
      (id in Affected(before, op) || (CommittedOp(records[i], op) && id in Ids(ItemsOf(Get(records[i], "affected_records")))))
    {
    }
  }

  method FindAffectedByOp(records: seq<Value>, op: string) returns (r: set<Text>)
    requires IsAscii(op)
    ensures r == Affected(records, op)
  {
    r := {};
    for i := 0 to |records|
      invariant r == Affected(records[..i], op)
    {
      AffectedNext(records, i, op);
      if CommittedOp(records[i], op) {
        r := AddIds(r, ItemsOf(Get(records[i], "affected_records")));
      }
    }
    assert records[..|records|] == records;
  }

  method AddIds(s: set<Text>, items: seq<Value>) returns (r: set<Text>)
    ensures r == s + Ids(items)
  {
    r := s;
    for k := 0 to |items|
      invariant r == s + Ids(items[..k])
    {
      IdsNext(items, k);
      var id := HexId(items[k]);
      if id.Some? { r := r + {id.value}; }
    }
    assert items[..|items|] == items;
  }

  /** The current time, the asked retention window, and `Date.parse`. */
  datatype Clock = Clock(nowMs: int, retentionDays: Option<int>, parseDate: Text -> Option<int>)

  function RetentionDays(asked: Option<int>): (days: nat)
    ensures days > 0 && (asked.Some? && asked.value > 0 ==> days == asked.value)
    ensures asked.None? || asked.value <= 0 ==> days == 90
  {
    if asked.Some? && asked.value > 0 then asked.value else DEFAULT_RETENTION_DAYS
  }

  /** The commit time, or the intent time when that is missing or empty. */
  function Timestamp(record: Value, clock: Clock): Option<int> {
    var committed := Get(record, "committed_at");
    var raw := if Falsy(committed) then Get(record, "intent_recorded_at") else committed;
    if raw.Str? then clock.parseDate(raw.s) else None
  }

  /** `NotARecord` stands for the null answer. */
  datatype Lifecycle = NotARecord | Aborted | Informational | Candidate | Active | Archived | Stale | Superseded | Tombstoned

  function Settled(record: Value): Option<Lifecycle> {
    var outcome := Get(record, "commit_outcome");
    if !record.Obj? then Some(NotARecord)
    else if outcome == Str(Ascii("ABORTED")) || outcome == Str(Ascii("ROLLED-BACK")) then Some(Aborted)
    else if outcome == Str(Ascii("NOT_APPLICABLE")) then Some(Informational)
    else if outcome == Str(Ascii("PENDING")) then Some(Candidate)
    else None
  }

  predicate Committed(record: Value) { Get(record, "commit_outcome") == Str(Ascii("COMMITTED")) }

  /** What the projection looks at: the record's own fields, and the three sets the log gives it. */
  datatype Facts = Facts(settled: Option<Lifecycle>, committed: bool, id: Value, at: Option<int>,
                         superseded: set<Text>, tombstoned: set<Text>, reach: set<Text>)

  predicate Names(id: Value, ids: set<Text>) { id.Str? && id.s in ids }

  /** A dependency other than the record itself was superseded. */
  predicate IsStale(f: Facts) {
    && f.id.Str? && f.id.s !in f.superseded
    && exists dep :: dep in f.reach && dep != f.id.s && dep in f.superseded
  }

  predicate IsArchivable(f: Facts, clock: Clock) {
    && f.committed
    && !Names(f.id, f.superseded) && !Names(f.id, f.tombstoned)
    && f.at.Some?
    && clock.nowMs - f.at.value > RetentionDays(clock.retentionDays) * DAY_MS
  }

  function StateOf(f: Facts, clock: Clock): Lifecycle {
    if f.settled.Some? then f.settled.value
    else if Names(f.id, f.tombstoned) then Tombstoned
    else if Names(f.id, f.superseded) then Superseded
    else if IsStale(f) then Stale
    else if IsArchivable(f, clock) then Archived
    else Active
  }

  ghost function FactsOf(record: Value, records: seq<Value>, clock: Clock): Facts {
    Facts(Settled(record), Committed(record), Get(record, "transaction_id"), Timestamp(record, clock),
          Affected(records, "SUPERSEDE"), Affected(records, "TOMBSTONE"),
          ReachSet(records, Ids([Get(record, "transaction_id")])))
  }

  /** The lifecycle state with an unbounded closure. */
  ghost function State(record: Value, records: seq<Value>, clock: Clock): Lifecycle {
    StateOf(FactsOf(record, records, clock), clock)
  }

  ghost predicate FitsCap(record: Value, records: seq<Value>, maxNodes: nat) {
    |ReachSet(records, Ids([Get(record, "transaction_id")]))| <= maxNodes
  }

  /** Whether a superseded id other than the record's own is in its bounded closure. */
  method StaleGiven(id: Value, records: seq<Value>, superseded: set<Text>, maxNodes: nat) returns (r: bool)
    requires maxNodes > 0
    ensures var reach := ReachSet(records, Ids([id]));
      && (r ==> IsStale(Facts(None, true, id, None, superseded, {}, reach)))
      && (|reach| <= maxNodes ==> (r <==> IsStale(Facts(None, true, id, None, superseded, {}, reach))))
  {
    if !id.Str? || id.s in superseded || superseded == {} { return false; }
    var closure := CollectClosure([id], records, maxNodes);
    return exists dep :: dep in closure && dep != id.s && dep in superseded;
  }

  /** The projected state; exact when the closure fits the cap, and a claim of staleness is founded in any case. */
  method ProjectLifecycleState(record: Value, records: seq<Value>, clock: Clock, maxNodes: nat) returns (r: Lifecycle)
    requires maxNodes > 0
    ensures |ReachSet(records, Ids([Get(record, "transaction_id")]))| <= maxNodes ==> r == State(record, records, clock)
    ensures Settled(record).Some? ==> r == Settled(record).value
    ensures r.Stale? && Settled(record).None? ==> State(record, records, clock).Stale?
    ensures r.Stale? || r == StateOf(FactsOf(record, records, clock).(reach := {}), clock)
    ensures Settled(record).None? ==>
      && (r.Tombstoned? <==> State(record, records, clock).Tombstoned?)
      && (r.Superseded? <==> State(record, records, clock).Superseded?)
  {
    var settled := Settled(record);
    if settled.Some? { return settled.value; }
    var superseded := FindAffectedByOp(records, "SUPERSEDE");
    var tombstoned := FindAffectedByOp(records, "TOMBSTONE");
    r := Derive(Get(record, "transaction_id"), Committed(record), Timestamp(record, clock), superseded, tombstoned,
                records, clock, maxNodes);
  }

  method Derive(id: Value, committed: bool, at: Option<int>, superseded: set<Text>, tombstoned: set<Text>,
                records: seq<Value>, clock: Clock, maxNodes: nat)
    returns (r: Lifecycle)
    requires maxNodes > 0
    ensures var f := Facts(None, committed, id, at, superseded, tombstoned, ReachSet(records, Ids([id])));
      && (|f.reach| <= maxNodes ==> r == StateOf(f, clock))
      && (r.Stale? ==> StateOf(f, clock).Stale?)
      && (r.Stale? || r == StateOf(f.(reach := {}), clock))
      && (r.Tombstoned? <==> StateOf(f, clock).Tombstoned?)
      && (r.Superseded? <==> StateOf(f, clock).Superseded?)
  {
    if Names(id, tombstoned) { return Tombstoned; }
    if Names(id, superseded) { return Superseded; }
    var stale := StaleGiven(id, records, superseded, maxNodes);
    if stale { return Stale; }
    if IsArchivable(Facts(None, committed, id, at, superseded, tombstoned, {}), clock) { return Archived; }
    return Active;
  }

  // ---------------------------------------------------------------- states only move forward

  predicate UniqueIds(records: seq<Value>) {
    forall a, b :: a in records && b in records && IdOf(a).Some? && IdOf(a) == IdOf(b) ==> a == b
  }

  /** Every record of the first log is in the second, in any order. */
  predicate Grows(records: seq<Value>, later: seq<Value>) { forall r :: r in records ==> r in later }

  function Rank(s: Lifecycle): int {
    match s
    case Active => 0
    case Archived => 1
    case Stale => 2
    case Superseded => 3
    case Tombstoned => 4
    case _ => -1
  }

  lemma RefsGrow(records: seq<Value>, later: seq<Value>, id: Text)
    requires Grows(records, later) && UniqueIds(later)
    ensures RefsOf(records, id) <= RefsOf(later, id)
  {
  }

  /** A longer log with distinct ids only adds to what is reachable. */
  lemma MoreReached(records: seq<Value>, later: seq<Value>, seeds: set<Text>)
    requires Grows(records, later) && UniqueIds(later)
    ensures ReachSet(records, seeds) <= ReachSet(later, seeds)
  {
    EvidenceWithin(later);
    forall id ensures Evidence(records)(id) <= Evidence(later)(id) { RefsGrow(records, later, id); }
    ReachSetGrows(Evidence(records), AllRefs(records), Evidence(later), AllRefs(later), seeds);
  }

  lemma AffectedGrows(records: seq<Value>, later: seq<Value>, op: string)
    requires Grows(records, later) && IsAscii(op)
    ensures Affected(records, op) <= Affected(later, op)
  {
  }

  lemma CommittedUnsettled(record: Value)
    requires Committed(record)
    ensures Settled(record).None?
  {
    AsciiDistinct("COMMITTED", "ABORTED");
    AsciiDistinct("COMMITTED", "ROLLED-BACK");
    AsciiDistinct("COMMITTED", "NOT_APPLICABLE");
    AsciiDistinct("COMMITTED", "PENDING");
  }

  /** Growing sets and a later clock never lower the rank. */
  lemma FactsMoveForward(f: Facts, g: Facts, clock: Clock, nowLater: int)
    requires f.settled.None? && g == f.(superseded := g.superseded, tombstoned := g.tombstoned, reach := g.reach)
    requires f.superseded <= g.superseded && f.tombstoned <= g.tombstoned && f.reach <= g.reach
    requires clock.nowMs <= nowLater
    ensures 0 <= Rank(StateOf(f, clock)) <= Rank(StateOf(g, clock.(nowMs := nowLater)))
  {
    if IsStale(f) {
      var dep :| dep in f.reach && dep != f.id.s && dep in f.superseded;
      assert dep in g.reach && dep in g.superseded;
    }
  }

  /** A log that grows by a record with a new id, or with none, meets the hypotheses of the next two results. */
  lemma OneMoreRecord(records: seq<Value>, r: Value)
    requires UniqueIds(records) && (IdOf(r).Some? ==> forall x :: x in records ==> IdOf(x) != IdOf(r))
    ensures UniqueIds(records + [r]) && Grows(records, records + [r])
  {
  }

  lemma RankOrder()
    ensures Rank(Active) < Rank(Archived) < Rank(Stale) < Rank(Superseded) < Rank(Tombstoned)
  {
  }

  /** A committed record never moves back as the log grows and the clock advances. */
  lemma StateMovesForward(record: Value, records: seq<Value>, later: seq<Value>, clock: Clock, nowLater: int)
    requires Grows(records, later) && UniqueIds(later)
    requires Committed(record) && clock.nowMs <= nowLater
    ensures 0 <= Rank(State(record, records, clock)) <= Rank(State(record, later, clock.(nowMs := nowLater)))
  {
    CommittedUnsettled(record);
    AffectedGrows(records, later, "SUPERSEDE");
    AffectedGrows(records, later, "TOMBSTONE");
    MoreReached(records, later, Ids([Get(record, "transaction_id")]));
    FactsMoveForward(FactsOf(record, records, clock), FactsOf(record, later, clock.(nowMs := nowLater)), clock, nowLater);
  }

  /** The same for what is actually projected, as long as the closure stays within the cap. */
  method ProjectTwice(record: Value, records: seq<Value>, later: seq<Value>, clock: Clock, nowLater: int, maxNodes: nat)
    returns (before: Lifecycle, after: Lifecycle)
    requires maxNodes > 0 && Grows(records, later) && UniqueIds(later)
    requires Committed(record) && clock.nowMs <= nowLater
    requires FitsCap(record, later, maxNodes)
    ensures 0 <= Rank(before) <= Rank(after)
  {
    before := ProjectLifecycleState(record, records, clock, maxNodes);
    after := ProjectLifecycleState(record, later, clock.(nowMs := nowLater), maxNodes);
    MoreReached(records, later, Ids([Get(record, "transaction_id")]));
    SubsetSize(ReachSet(records, Ids([Get(record, "transaction_id")])), ReachSet(later, Ids([Get(record, "transaction_id")])));
    StateMovesForward(record, records, later, clock, nowLater);
  }
}
