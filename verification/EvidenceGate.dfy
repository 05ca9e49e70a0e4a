/**
 The pre-commit evidence gate: validate the head record, then follow predecessors to a genesis record within
 a fixed depth, cutting off at the first repeated predecessor hash.
 */
module EvidenceGate {
  import opened Wrappers
  import opened Json
  import opened TransactionRecord
  import opened RecordRules

  const MAX_EVIDENCE_CHAIN_DEPTH: nat := 1000

  datatype Reason =
    | MissingRecord
    | HeadInvalid
    | MissingResolver
    | CycleDetected
    | BottomedOut
    | ExceedsMaxDepth

  datatype Verdict = Accept(depthWalked: nat) | Reject(reason: Reason, depthWalked: nat)

  /** Looks a record up by its predecessor hash; anything falsy stands for not found. */
  type Resolver = Value -> Value

  function PrevHash(record: Value): Value { Get(record, "prev_state_hash") }

  function GenesisHash(sha: Digest, schema: Text, scope: string): Text
    requires IsAscii(scope)
  {
    sha(Ascii("GENESIS|") + schema + Ascii("|") + Ascii(scope))
  }

  /** The marker, a bootstrap sentinel, or the computed hash of one of the two scopes. */
  predicate AtGenesis(sha: Digest, record: Value) {
    || IsGenesisPosition(record)
    || (var prev, schema := PrevHash(record), Get(record, "schema_version");
        && prev.Str? && schema.Str? && schema.s != []
        && (prev.s == GenesisHash(sha, schema.s, "per-project") || prev.s == GenesisHash(sha, schema.s, "per-user")))
  }

  // ---------------------------------------------------------------- the chain

  /** How to get from a record to its predecessor, and where to stop. */
  datatype Chain = Chain(prev: Value -> Value, resolve: Resolver, genesis: Value -> bool)

  /** The `n`-th ancestor, if the chain gets that far. */
  function Ancestor(c: Chain, head: Value, n: nat): Option<Value> {
    if n == 0 then Some(head)
    else match Ancestor(c, head, n - 1)
      case None => None
      case Some(r) => var p := c.resolve(c.prev(r)); if Falsy(p) then None else Some(p)
  }

  predicate GenesisAt(c: Chain, head: Value, n: nat) {
    Ancestor(c, head, n).Some? && c.genesis(Ancestor(c, head, n).value)
  }

  /** The chain gets to its `n`-th ancestor without a genesis record after the head. */
  predicate Plods(c: Chain, head: Value, n: nat) {
    forall i :: 1 <= i <= n ==> Ancestor(c, head, i).Some? && !GenesisAt(c, head, i)
  }

  /** Two of the first `n` records name the same predecessor. */
  predicate Repeats(c: Chain, head: Value, i: nat, j: nat) {
    && i < j
    && Ancestor(c, head, i).Some? && Ancestor(c, head, j).Some?
    && c.prev(Ancestor(c, head, i).value) == c.prev(Ancestor(c, head, j).value)
  }

  lemma {:induction false} EndedStaysEnded(c: Chain, head: Value, n: nat, m: nat)
    requires n <= m && Ancestor(c, head, n).None?
    ensures Ancestor(c, head, m).None?
  {
    if n < m { EndedStaysEnded(c, head, n, m - 1); }
  }

  /** Past a repetition the chain runs in a circle. */
  lemma {:induction false} Periodic(c: Chain, head: Value, i: nat, j: nat, n: nat)
    requires Repeats(c, head, i, j) && n > j
    ensures Ancestor(c, head, n) == Ancestor(c, head, n - (j - i))
    decreases n
  {
    if n > j + 1 { Periodic(c, head, i, j, n - 1); }
  }

  /** A chain that repeats before reaching genesis never ends and never reaches it. */
  lemma {:induction false} CycleNeverReaches(c: Chain, head: Value, i: nat, j: nat, n: nat)
    requires Repeats(c, head, i, j) && Plods(c, head, j) && n >= 1
    ensures Ancestor(c, head, n).Some? && !GenesisAt(c, head, n)
    decreases n
  {
    if n > j {
      Periodic(c, head, i, j, n);
      CycleNeverReaches(c, head, i, j, n - (j - i));
    }
  }

  // ---------------------------------------------------------------- the verdict

  /** What each verdict of the walk says about the chain. */
  predicate WalkVerdict(c: Chain, head: Value, v: Verdict) {
    var n := v.depthWalked;
    && n <= MAX_EVIDENCE_CHAIN_DEPTH
    && match v
       case Accept(_) => 1 <= n && GenesisAt(c, head, n) && Plods(c, head, n - 1)
       case Reject(BottomedOut, _) => 1 <= n && Ancestor(c, head, n).None? && Plods(c, head, n - 1)
       case Reject(CycleDetected, _) =>
         && n < MAX_EVIDENCE_CHAIN_DEPTH && Plods(c, head, n)
         && (exists i :: 0 <= i < n && Repeats(c, head, i, n))
         && NoRepeatBelow(c, head, n)
       case Reject(ExceedsMaxDepth, _) =>
         && n == MAX_EVIDENCE_CHAIN_DEPTH && Plods(c, head, n)
         && NoRepeatBelow(c, head, n)
       case Reject(_, _) => false
  }

  /** The chain has exactly one verdict, so each is given exactly in its case. */
  lemma VerdictUnique(c: Chain, head: Value, v: Verdict, w: Verdict)
    requires WalkVerdict(c, head, v) && WalkVerdict(c, head, w)
    ensures v == w
  {
    if v.depthWalked < w.depthWalked {
      VerdictOrder(c, head, v, w);
    } else if w.depthWalked < v.depthWalked {
      VerdictOrder(c, head, w, v);
    } else {
      VerdictSameDepth(c, head, v, w);
    }
  }

  lemma VerdictOrder(c: Chain, head: Value, v: Verdict, w: Verdict)
    requires WalkVerdict(c, head, v) && WalkVerdict(c, head, w)
    ensures v.depthWalked >= w.depthWalked
  {
    var n, m := v.depthWalked, w.depthWalked;
    if n < m {
      assert Plods(c, head, m - 1);
      if v == Reject(CycleDetected, n) {
        var i :| 0 <= i < n && Repeats(c, head, i, n);
        CycleNeverReaches(c, head, i, n, m);
      }
    }
  }

  lemma VerdictSameDepth(c: Chain, head: Value, v: Verdict, w: Verdict)
    requires WalkVerdict(c, head, v) && WalkVerdict(c, head, w)
    requires v.depthWalked == w.depthWalked
    ensures v == w
  {
  }

  /** Following predecessors reaches a genesis record within the depth bound. */
  predicate Reaches(c: Chain, head: Value) {
    exists n :: 1 <= n <= MAX_EVIDENCE_CHAIN_DEPTH && GenesisAt(c, head, n)
  }

  /** The cycle cut and the early ends never turn away a chain that reaches genesis in bounds. */
  lemma AcceptedIffReaches(c: Chain, head: Value, v: Verdict)
    requires WalkVerdict(c, head, v)
    ensures v.Accept? <==> Reaches(c, head)
  {
    if Reaches(c, head) && !v.Accept? {
      var m :| 1 <= m <= MAX_EVIDENCE_CHAIN_DEPTH && GenesisAt(c, head, m);
      if v.reason == BottomedOut {
        if v.depthWalked <= m { EndedStaysEnded(c, head, v.depthWalked, m); }
      } else if v.reason == CycleDetected {
        var i :| 0 <= i < v.depthWalked && Repeats(c, head, i, v.depthWalked);
        CycleNeverReaches(c, head, i, v.depthWalked, m);
      }
    }
  }

  /** The predecessor hashes of the first `n` records. */
  ghost function HashesBelow(c: Chain, head: Value, n: nat): set<Value> {
    set i | 0 <= i < n && Ancestor(c, head, i).Some? :: c.prev(Ancestor(c, head, i).value)
  }

  lemma HashesNext(c: Chain, head: Value, n: nat)
    requires Ancestor(c, head, n).Some?
    ensures HashesBelow(c, head, n + 1) ==
            HashesBelow(c, head, n) + {c.prev(Ancestor(c, head, n).value)}
  {
    forall h | h in HashesBelow(c, head, n + 1)
      ensures h in HashesBelow(c, head, n) + {c.prev(Ancestor(c, head, n).value)}
    {
      var i :| 0 <= i < n + 1 && Ancestor(c, head, i).Some? && h == c.prev(Ancestor(c, head, i).value);
      if i < n { assert h in HashesBelow(c, head, n); }
    }
  }

  lemma SeenIsRepeated(c: Chain, head: Value, n: nat)
    requires Ancestor(c, head, n).Some?
    ensures c.prev(Ancestor(c, head, n).value) in HashesBelow(c, head, n) <==>
            exists i :: 0 <= i < n && Repeats(c, head, i, n)
  {
    var h := c.prev(Ancestor(c, head, n).value);
    if h in HashesBelow(c, head, n) {
      var i :| 0 <= i < n && Ancestor(c, head, i).Some? && h == c.prev(Ancestor(c, head, i).value);
      assert Repeats(c, head, i, n);
    }
  }

  predicate NoRepeatBelow(c: Chain, head: Value, n: nat) {
    forall i, j :: 0 <= i < j < n ==> !Repeats(c, head, i, j)
  }

  /** The walk stands at the `n`-th ancestor, with nothing found so far. */
  predicate Walking(c: Chain, head: Value, n: nat, cursor: Value) {
    && n <= MAX_EVIDENCE_CHAIN_DEPTH
    && Ancestor(c, head, n) == Some(cursor)
    && Plods(c, head, n)
    && NoRepeatBelow(c, head, n)
  }

  lemma WalkRepeats(c: Chain, head: Value, n: nat, cursor: Value)
    requires Walking(c, head, n, cursor) && n < MAX_EVIDENCE_CHAIN_DEPTH
    requires c.prev(cursor) in HashesBelow(c, head, n)
    ensures WalkVerdict(c, head, Reject(CycleDetected, n))
  {
    SeenIsRepeated(c, head, n);
  }

  lemma WalkEnds(c: Chain, head: Value, n: nat, cursor: Value)
    requires Walking(c, head, n, cursor) && n < MAX_EVIDENCE_CHAIN_DEPTH
    ensures Falsy(c.resolve(c.prev(cursor))) ==> WalkVerdict(c, head, Reject(BottomedOut, n + 1))
    ensures !Falsy(c.resolve(c.prev(cursor))) && c.genesis(c.resolve(c.prev(cursor))) ==>
              WalkVerdict(c, head, Accept(n + 1))
  {
  }

  lemma WalkGoesOn(c: Chain, head: Value, n: nat, cursor: Value)
    requires Walking(c, head, n, cursor) && n < MAX_EVIDENCE_CHAIN_DEPTH
    requires c.prev(cursor) !in HashesBelow(c, head, n)
    requires !Falsy(c.resolve(c.prev(cursor))) && !c.genesis(c.resolve(c.prev(cursor)))
    ensures Walking(c, head, n + 1, c.resolve(c.prev(cursor)))
  {
    SeenIsRepeated(c, head, n);
  }

  lemma WalkExhausted(c: Chain, head: Value, cursor: Value)
    requires Walking(c, head, MAX_EVIDENCE_CHAIN_DEPTH, cursor)
    ensures WalkVerdict(c, head, Reject(ExceedsMaxDepth, MAX_EVIDENCE_CHAIN_DEPTH))
  {
  }

  method WalkChain(c: Chain, head: Value) returns (v: Verdict)
    ensures WalkVerdict(c, head, v)
  {
    var seen: set<Value> := {};
    var depthWalked: nat := 0;
    var cursor := head;
    while depthWalked < MAX_EVIDENCE_CHAIN_DEPTH
      invariant Walking(c, head, depthWalked, cursor)
      invariant seen == HashesBelow(c, head, depthWalked)
    {
      WalkEnds(c, head, depthWalked, cursor);
      HashesNext(c, head, depthWalked);
      var prevHash := c.prev(cursor);
      if prevHash in seen {
        WalkRepeats(c, head, depthWalked, cursor);
        return Reject(CycleDetected, depthWalked);
      }
      seen := seen + {prevHash};
      var parent := c.resolve(prevHash);
      depthWalked := depthWalked + 1;
      if Falsy(parent) {
        return Reject(BottomedOut, depthWalked);
      }
      if c.genesis(parent) {
        return Accept(depthWalked);
      }
      WalkGoesOn(c, head, depthWalked - 1, cursor);
      cursor := parent;
    }
    WalkExhausted(c, head, cursor);
    return Reject(ExceedsMaxDepth, depthWalked);
  }

  /** The chain of predecessor hashes. */
  function ChainOf(sha: Digest, resolve: Resolver): Chain {
    Chain(PrevHash, resolve, (r: Value) => AtGenesis(sha, r))
  }

  // ---------------------------------------------------------------- the accepted chains, spelled out

  /** A marker or sentinel in the predecessor field, or the digest of one of the two genesis texts of its schema version. */
  ghost predicate IsGenesis(sha: Digest, r: Value) {
    && Get(r, "prev_state_hash").Str?
    && (IsMarker(Get(r, "prev_state_hash").s) || IsRoot(sha, Get(r, "prev_state_hash").s, Get(r, "schema_version")))
  }

  predicate IsRoot(sha: Digest, prev: Text, schema: Value) {
    && schema.Str? && schema.s != []
    && (|| prev == sha(Ascii("GENESIS|") + schema.s + Ascii("|per-project"))
        || prev == sha(Ascii("GENESIS|") + schema.s + Ascii("|per-user")))
  }

  lemma GenesisText(sha: Digest, schema: Text)
    ensures GenesisHash(sha, schema, "per-project") == sha(Ascii("GENESIS|") + schema + Ascii("|per-project"))
    ensures GenesisHash(sha, schema, "per-user") == sha(Ascii("GENESIS|") + schema + Ascii("|per-user"))
  {
    BarText("per-project", "|per-project");
    BarText("per-user", "|per-user");
    Regrouped(Ascii("GENESIS|"), schema, Ascii("|"), Ascii("per-project"));
    Regrouped(Ascii("GENESIS|"), schema, Ascii("|"), Ascii("per-user"));
  }

  lemma BarText(scope: string, barred: string)
    requires barred == "|" + scope
    ensures Ascii("|") + Ascii(scope) == Ascii(barred)
  {
  }

  lemma Regrouped(a: Text, b: Text, c: Text, d: Text)
    ensures a + b + c + d == a + b + (c + d)
  {
  }

  lemma RootIff(sha: Digest, prev: Text, schema: Value)
    ensures IsRoot(sha, prev, schema) <==>
      && schema.Str? && schema.s != []
      && (prev == GenesisHash(sha, schema.s, "per-project") || prev == GenesisHash(sha, schema.s, "per-user"))
  {
    if schema.Str? { GenesisText(sha, schema.s); }
  }

  lemma AtGenesisIff(sha: Digest, r: Value)
    ensures AtGenesis(sha, r) <==> IsGenesis(sha, r)
  {
    GenesisPositionIff(r);
    if Get(r, "prev_state_hash").Str? { RootIff(sha, Get(r, "prev_state_hash").s, Get(r, "schema_version")); }
  }

  /** What the resolver finds under a record's predecessor hash, if that counts as found. */
  predicate IsParent(resolve: Resolver, r: Value, parent: Value) {
    parent == resolve(Get(r, "prev_state_hash")) && parent !in FALSE_VALUES
  }

  /** A chain of records from the head to a genesis record, each found under the predecessor hash of the one before. */
  ghost predicate LeadsToGenesis(sha: Digest, resolve: Resolver, record: Value, rs: seq<Value>) {
    && 2 <= |rs| <= 1001
    && rs[0] == record
    && (forall i :: 0 <= i < |rs| - 1 ==>
          IsParent(resolve, rs[i], rs[i + 1]))
    && IsGenesis(sha, rs[|rs| - 1])
  }

  lemma {:induction false} AncestorsAre(sha: Digest, resolve: Resolver, record: Value, rs: seq<Value>, n: nat)
    requires LeadsToGenesis(sha, resolve, record, rs) && n < |rs|
    ensures Ancestor(ChainOf(sha, resolve), record, n) == Some(rs[n])
  {
    if n > 0 {
      AncestorsAre(sha, resolve, record, rs, n - 1);
      assert IsParent(resolve, rs[n - 1], rs[n - 1 + 1]);
      FalsyIs(rs[n]);
    }
  }

  function Ancestors(c: Chain, head: Value, n: nat): (rs: seq<Value>)
    requires Ancestor(c, head, n).Some?
    ensures |rs| == n + 1 && forall i :: 0 <= i <= n ==> Ancestor(c, head, i) == Some(rs[i])
  {
    if n == 0 then [head] else Ancestors(c, head, n - 1) + [Ancestor(c, head, n).value]
  }

  lemma AncestorNext(c: Chain, head: Value, i: nat)
    requires Ancestor(c, head, i).Some? && Ancestor(c, head, i + 1).Some?
    ensures Ancestor(c, head, i + 1).value == c.resolve(c.prev(Ancestor(c, head, i).value))
    ensures !Falsy(Ancestor(c, head, i + 1).value)
  {
  }

  lemma ReachesIff(sha: Digest, resolve: Resolver, record: Value)
    ensures Reaches(ChainOf(sha, resolve), record) <==> exists rs :: LeadsToGenesis(sha, resolve, record, rs)
  {
    var c := ChainOf(sha, resolve);
    if Reaches(c, record) {
      var n :| 1 <= n <= MAX_EVIDENCE_CHAIN_DEPTH && GenesisAt(c, record, n);
      var rs := Ancestors(c, record, n);
      forall i | 0 <= i < |rs| - 1 ensures IsParent(resolve, rs[i], rs[i + 1]) {
        AncestorNext(c, record, i);
        FalsyIs(rs[i + 1]);
      }
      AtGenesisIff(sha, rs[n]);
      assert LeadsToGenesis(sha, resolve, record, rs);
    }
    if rs :| LeadsToGenesis(sha, resolve, record, rs) {
      var n := |rs| - 1;
      AncestorsAre(sha, resolve, record, rs, n);
      AtGenesisIff(sha, rs[n]);
      assert GenesisAt(c, record, n);
    }
  }

  /** The gate comes to the walk. */
  predicate Walks(sha: Digest, record: Value, atGenesis: bool, recoverySweep: bool, resolve: Option<Resolver>) {
    && !Falsy(record) && !recoverySweep && ValidRecord(record, atGenesis)
    && !atGenesis && !AtGenesis(sha, record) && resolve.Some?
  }

  /** The gate accepts exactly the records it should, and each reason before the walk comes exactly in its case. */
  method CheckEvidenceLink(sha: Digest, record: Value, atGenesis: bool, recoverySweep: bool, resolve: Option<Resolver>)
    returns (v: Verdict)
    ensures v.Accept? <==>
      && !Falsy(record)
      && (recoverySweep
          || (ValidRecord(record, atGenesis)
              && (atGenesis || AtGenesis(sha, record) || (resolve.Some? && Reaches(ChainOf(sha, resolve.value), record)))))
    ensures !Falsy(record) && !recoverySweep && ValidRecord(record, atGenesis) && !atGenesis && !IsGenesis(sha, record)
              && resolve.Some? ==>
      (v.Accept? <==> exists rs :: LeadsToGenesis(sha, resolve.value, record, rs))
    ensures v == Reject(MissingRecord, 0) <==> Falsy(record)
    ensures v == Reject(HeadInvalid, 0) <==> !Falsy(record) && !recoverySweep && !ValidRecord(record, atGenesis)
    ensures v == Reject(MissingResolver, 0) <==>
      && !Falsy(record) && !recoverySweep && ValidRecord(record, atGenesis)
      && !atGenesis && !AtGenesis(sha, record) && resolve.None?
    ensures Walks(sha, record, atGenesis, recoverySweep, resolve) ==> WalkVerdict(ChainOf(sha, resolve.value), record, v)
    ensures !Walks(sha, record, atGenesis, recoverySweep, resolve) ==> v.depthWalked == 0
  {
    AtGenesisIff(sha, record);
    if Falsy(record) { return Reject(MissingRecord, 0); }
    if recoverySweep { return Accept(0); }
    if !ValidRecord(record, atGenesis) { return Reject(HeadInvalid, 0); }
    if atGenesis || AtGenesis(sha, record) { return Accept(0); }
    if resolve.None? { return Reject(MissingResolver, 0); }
    var c := ChainOf(sha, resolve.value);
    v := WalkChain(c, record);
    AcceptedIffReaches(c, record, v);
    ReachesIff(sha, resolve.value, record);
  }
}
