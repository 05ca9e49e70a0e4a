/** The lineage check: distinct ids and no cycle of parent links, in a linear number of steps. */
module Lineage {
  import opened Wrappers
  import Reachability

  datatype ParentField = NoParent | Parent(id: string) | BadParent

  /** An element of the chain as it comes: anything may be missing or of the wrong type. */
  datatype Entry = NotAnObject | Entry(stateId: Option<string>, parent: ParentField)

  type Parents = map<string, Option<string>>

  // ---------------------------------------------------------------- following parents

  /** `n` parent links up from `id`; an id that is not in the chain is still reached, but leads nowhere. */
  function Up(m: Parents, id: string, n: nat): Option<string>
    decreases n
  {
    if n == 0 then Some(id)
    else if id in m && m[id].Some? then Up(m, m[id].value, n - 1)
    else None
  }

  ghost predicate Acyclic(m: Parents) {
    forall id, n: nat :: n > 0 ==> Up(m, id, n) != Some(id)
  }

  ghost predicate Ends(m: Parents, id: string) { exists n: nat :: Up(m, id, n).None? }

  lemma {:induction false} UpPlus(m: Parents, id: string, a: nat, b: nat)
    ensures Up(m, id, a + b) == (match Up(m, id, a) case None => None case Some(x) => Up(m, x, b))
    decreases a
  {
    if a > 0 && id in m && m[id].Some? { UpPlus(m, m[id].value, a - 1, b); }
  }

  /** A cycle is never left. */
  lemma {:induction false} CycleStays(m: Parents, id: string, n: nat, k: nat)
    requires n > 0 && Up(m, id, n) == Some(id)
    ensures Up(m, id, k).Some?
    decreases k
  {
    if k >= n {
      UpPlus(m, id, n, k - n);
      CycleStays(m, id, n, k - n);
    } else {
      UpPlus(m, id, k, n - k);
    }
  }

  /** When every walk from a chain id ends there is no cycle. */
  lemma EndsAcyclic(m: Parents)
    requires forall id :: id in m ==> Ends(m, id)
    ensures Acyclic(m)
  {
    forall id, n: nat | n > 0 ensures Up(m, id, n) != Some(id) {
      if Up(m, id, n) == Some(id) {
        var k: nat :| Up(m, id, k).None?;
        CycleStays(m, id, n, k);
      }
    }
  }

  lemma RevisitIsCycle(m: Parents, start: string, i: nat, j: nat)
    requires i < j && Up(m, start, i).Some? && Up(m, start, i) == Up(m, start, j)
    ensures !Acyclic(m)
  {
    UpPlus(m, start, i, j - i);
    var id := Up(m, start, i).value;
    assert Up(m, id, j - i) == Some(id);
  }

  // ---------------------------------------------------------------- the chain

  predicate WellFormedEntry(e: Entry) { e.Entry? && e.stateId.Some? && !e.parent.BadParent? }

  function IdOf(e: Entry): Option<string> { if e.Entry? then e.stateId else None }

  predicate WellFormed(chain: seq<Entry>) {
    && (forall i :: 0 <= i < |chain| ==> WellFormedEntry(chain[i]))
    && (forall i, j :: 0 <= i < j < |chain| ==> IdOf(chain[i]) != IdOf(chain[j]))
  }

  function Target(e: Entry): Option<string> { if e.Entry? && e.parent.Parent? then Some(e.parent.id) else None }

  /** The parent map of a chain. */
  function ParentsOf(chain: seq<Entry>): (m: Parents)
    requires WellFormed(chain)
  {
    if chain == [] then map[]
    else
      var n := |chain| - 1;
      ParentsOf(chain[..n])[chain[n].stateId.value := Target(chain[n])]
  }

  lemma ParentsOfKeys(chain: seq<Entry>, id: string)
    requires WellFormed(chain)
    ensures id in ParentsOf(chain) <==> exists i :: 0 <= i < |chain| && IdOf(chain[i]) == Some(id)
  {
    if chain != [] {
      var n := |chain| - 1;
      ParentsOfKeys(chain[..n], id);
      forall i | 0 <= i < |chain| && IdOf(chain[i]) == Some(id) ensures id in ParentsOf(chain) {
        assert i < n ==> chain[..n][i] == chain[i];
      }
      if id in ParentsOf(chain) && IdOf(chain[n]) != Some(id) {
        var i :| 0 <= i < |chain[..n]| && IdOf(chain[..n][i]) == Some(id);
        assert chain[i] == chain[..n][i];
      }
    }
  }

  /** The parent map gives every entry's parent. */
  lemma ParentsOfEntry(chain: seq<Entry>, i: nat)
    requires WellFormed(chain) && i < |chain|
    ensures IdOf(chain[i]).value in ParentsOf(chain) && ParentsOf(chain)[IdOf(chain[i]).value] == Target(chain[i])
  {
    var n := |chain| - 1;
    if i < n {
      ParentsOfEntry(chain[..n], i);
      assert IdOf(chain[i]) != IdOf(chain[n]);
    }
  }

  /** One more entry keeps the chain well formed exactly when its id is new. */
  lemma NextWellFormed(chain: seq<Entry>, e: Entry)
    requires WellFormed(chain) && WellFormedEntry(e)
    ensures e.stateId.value !in ParentsOf(chain) <==> WellFormed(chain + [e])
  {
    ParentsOfKeys(chain, e.stateId.value);
    var more := chain + [e];
    assert more[|chain|] == e && forall i :: 0 <= i < |chain| ==> more[i] == chain[i];
    if e.stateId.value in ParentsOf(chain) {
      var i :| 0 <= i < |chain| && IdOf(chain[i]) == e.stateId;
      assert IdOf(more[i]) == IdOf(more[|chain|]);
    }
  }

  lemma NextParents(chain: seq<Entry>, e: Entry)
    requires WellFormed(chain) && WellFormed(chain + [e]) && WellFormedEntry(e)
    ensures ParentsOf(chain + [e]) == ParentsOf(chain)[IdOf(e).value := Target(e)]
  {
    var more := chain + [e];
    assert more[|chain|] == e && more[..|chain|] == chain;
  }

  /** Distinct ids, as many as entries. */
  lemma {:induction false} Size(chain: seq<Entry>)
    requires WellFormed(chain)
    ensures |ParentsOf(chain)| == |chain|
  {
    if chain != [] {
      var n := |chain| - 1;
      Size(chain[..n]);
      assert chain == chain[..n] + [chain[n]];
      NextWellFormed(chain[..n], chain[n]);
      NextParents(chain[..n], chain[n]);
      var id := chain[n].stateId.value;
      assert ParentsOf(chain).Keys == ParentsOf(chain[..n]).Keys + {id};
    }
  }

  /** Builds the parent map, or finds the chain malformed. */
  method BuildParents(chain: seq<Entry>) returns (parents: Option<Parents>, order: seq<string>)
    ensures parents.Some? <==> WellFormed(chain)
    ensures parents.Some? ==> parents.value == ParentsOf(chain)
    ensures parents.Some? ==> forall id :: id in order <==> id in parents.value
  {
    var m: Parents := map[];
    order := [];
    for i := 0 to |chain|
      invariant WellFormed(chain[..i]) && m == ParentsOf(chain[..i])
      invariant forall id :: id in order <==> id in m
    {
      var e := chain[i];
      if !WellFormedEntry(e) { return None, []; }
      assert chain[..i + 1] == chain[..i] + [e];
      NextWellFormed(chain[..i], e);
      if e.stateId.value in m {
        StillMalformed(chain, i + 1);
        return None, [];
      }
      NextParents(chain[..i], e);
      m := m[e.stateId.value := Target(e)];
      order := order + [e.stateId.value];
    }
    assert chain[..|chain|] == chain;
    return Some(m), order;
  }

  lemma StillMalformed(chain: seq<Entry>, i: nat)
    requires i <= |chain| && !WellFormed(chain[..i])
    ensures !WellFormed(chain)
  {
    if WellFormed(chain) {
      assert forall k :: 0 <= k < i ==> chain[..i][k] == chain[k];
    }
  }

  // ---------------------------------------------------------------- the walk

  /** The ids seen from `start` are the first `n` of its walk. */
  ghost predicate Seen(m: Parents, start: string, n: nat, seen: set<string>) {
    && (forall k: nat :: k < n ==> Up(m, start, k).Some? && Up(m, start, k).value in seen)
    && forall id :: id in seen ==> exists k: nat :: k < n && Up(m, start, k) == Some(id)
  }

  lemma SeenEnd(m: Parents, start: string, n: nat, seen: set<string>)
    requires Seen(m, start, n, seen) && Ends(m, start)
    ensures forall id :: id in seen ==> Ends(m, id)
  {
    forall id | id in seen ensures Ends(m, id) {
      var k: nat :| k < n && Up(m, start, k) == Some(id);
      var e: nat :| Up(m, start, e).None?;
      UpPlus(m, start, e, k);
      UpPlus(m, start, k, e);
      assert Up(m, id, e).None?;
    }
  }

  /**
   One walk from a chain id not verified yet. It stops at a revisit, which is a cycle, or at an id already
   verified, at an id outside the chain or at a root. Its steps are at most one more than the chain ids it adds.
   */
  method Walk(m: Parents, start: string, verified: set<string>)
    returns (cycle: bool, seen: set<string>, ghost added: set<string>, ghost steps: nat)
    requires start in m && start !in verified
    requires forall id :: id in verified ==> Ends(m, id)
    ensures cycle ==> !Acyclic(m)
    ensures !cycle ==> start in seen && forall id :: id in seen ==> Ends(m, id)
    ensures added <= m.Keys && added !! verified && |added| >= 1
    ensures !cycle ==> added <= seen && forall id :: id in seen && id in m ==> id in added || id in verified
    ensures |seen| <= steps <= |added| + 1
  {
    seen, added, steps := {}, {}, 0;
    var cur := Some(start);
    while cur.Some?
      invariant Walking(m, start, steps, cur, seen, verified)
      invariant added == seen
      invariant seen == {} ==> cur == Some(start)
      decreases |m.Keys - seen|
    {
      if cur.value in seen {
        Revisit(m, start, steps, cur.value, seen, verified);
        return true, seen, added, steps + 1;
      }
      StepOn(m, start, steps, cur.value, seen, verified);
      seen := seen + {cur.value};
      steps := steps + 1;
      if cur.value in verified || cur.value !in m {
        return false, seen, added, steps;
      }
      added := seen;
      cur := m[cur.value];
    }
    assert Ends(m, start);
    SeenEnd(m, start, steps, seen);
    return false, seen, added, steps;
  }

  /** After `n` steps: what was seen are chain ids not verified before, one a step. */
  ghost predicate Walking(m: Parents, start: string, n: nat, cur: Option<string>, seen: set<string>, verified: set<string>) {
    && Up(m, start, n) == cur
    && Seen(m, start, n, seen)
    && seen <= m.Keys && seen !! verified
    && n == |seen|
  }

  lemma Revisit(m: Parents, start: string, n: nat, id: string, seen: set<string>, verified: set<string>)
    requires Walking(m, start, n, Some(id), seen, verified) && id in seen
    ensures !Acyclic(m)
  {
    var k: nat :| k < n && Up(m, start, k) == Some(id);
    RevisitIsCycle(m, start, k, n);
  }

  lemma StepOn(m: Parents, start: string, n: nat, id: string, seen: set<string>, verified: set<string>)
    requires Walking(m, start, n, Some(id), seen, verified) && id !in seen
    requires forall v :: v in verified ==> Ends(m, v)
    ensures id in m && id !in verified ==> Walking(m, start, n + 1, m[id], seen + {id}, verified)
    ensures id !in m || id in verified ==> forall x :: x in seen + {id} ==> Ends(m, x)
  {
    UpPlus(m, start, n, 1);
    SeenNext(m, start, n, seen, id);
    if id in m && id !in verified {
      assert Up(m, id, 1) == (if m[id].Some? then Up(m, m[id].value, 0) else None);
    } else {
      if id !in m { assert Up(m, id, 1).None?; }
      LeadsToEnd(m, start, n, id);
      SeenEnd(m, start, n + 1, seen + {id});
    }
  }

  lemma SeenNext(m: Parents, start: string, n: nat, seen: set<string>, id: string)
    requires Seen(m, start, n, seen) && Up(m, start, n) == Some(id)
    ensures Seen(m, start, n + 1, seen + {id})
  {
  }

  lemma LeadsToEnd(m: Parents, start: string, n: nat, id: string)
    requires Up(m, start, n) == Some(id) && Ends(m, id)
    ensures Ends(m, start)
  {
    var e: nat :| Up(m, id, e).None?;
    UpPlus(m, start, n, e);
  }

  // ---------------------------------------------------------------- cycles of the entries themselves

  /** Every entry is an object with a string id and a string or null parent, and no id occurs twice. */
  predicate Sound(chain: seq<Entry>) {
    && (forall i :: 0 <= i < |chain| ==>
          chain[i].Entry? && chain[i].stateId.Some? && (chain[i].parent.NoParent? || chain[i].parent.Parent?))
    && (forall i, j :: 0 <= i < j < |chain| ==> chain[i].stateId != chain[j].stateId)
  }

  /** The entry names the other one as its parent. */
  predicate Names(chain: seq<Entry>, i: nat, j: nat)
    requires Sound(chain)
  {
    i < |chain| && j < |chain| && chain[i].parent == Parent(chain[j].stateId.value)
  }

  /** The index after the `j`-th, the first after the last. */
  function After(ks: seq<nat>, j: nat): nat
    requires j < |ks|
  {
    if j + 1 < |ks| then ks[j + 1] else ks[0]
  }

  /** Entries that each name the next as their parent, the last one the first. */
  ghost predicate IsCycle(chain: seq<Entry>, ks: seq<nat>)
    requires Sound(chain)
  {
    |ks| > 0 && forall j :: 0 <= j < |ks| ==> Names(chain, ks[j], After(ks, j))
  }

  lemma SoundIff(chain: seq<Entry>)
    ensures Sound(chain) <==> WellFormed(chain)
  {
  }

  lemma NamesIsUp(chain: seq<Entry>, i: nat, j: nat)
    requires WellFormed(chain) && Sound(chain) && Names(chain, i, j)
    ensures Up(ParentsOf(chain), chain[i].stateId.value, 1) == chain[j].stateId
  {
    ParentsOfEntry(chain, i);
    assert Up(ParentsOf(chain), chain[j].stateId.value, 0) == chain[j].stateId;
  }

  lemma {:induction false} CycleLeadsOn(chain: seq<Entry>, ks: seq<nat>, n: nat)
    requires WellFormed(chain) && Sound(chain) && IsCycle(chain, ks) && n < |ks|
    ensures ks[0] < |chain| && After(ks, n) < |chain|
    ensures Up(ParentsOf(chain), chain[ks[0]].stateId.value, n + 1) == chain[After(ks, n)].stateId
  {
    assert Names(chain, ks[0], After(ks, 0)) && Names(chain, ks[n], After(ks, n));
    NamesIsUp(chain, ks[n], After(ks, n));
    if n > 0 {
      CycleLeadsOn(chain, ks, n - 1);
      UpPlus(ParentsOf(chain), chain[ks[0]].stateId.value, n, 1);
    }
  }

  /** The entry an id that leads on belongs to, and the one it leads to. */
  lemma LeadsOn(chain: seq<Entry>, id: string, next: string) returns (i: nat)
    requires WellFormed(chain) && Up(ParentsOf(chain), id, 1) == Some(next)
    ensures i < |chain| && IdOf(chain[i]) == Some(id) && chain[i].parent == Parent(next)
  {
    var m := ParentsOf(chain);
    assert id in m && m[id].Some? && Up(m, m[id].value, 0) == Some(next);
    ParentsOfKeys(chain, id);
    i :| 0 <= i < |chain| && IdOf(chain[i]) == Some(id);
    ParentsOfEntry(chain, i);
  }

  /** The entries of `n` steps up from an id. */
  lemma {:induction false} Steps(chain: seq<Entry>, id: string, n: nat) returns (ks: seq<nat>)
    requires WellFormed(chain) && Up(ParentsOf(chain), id, n).Some?
    ensures |ks| == n
    ensures forall j :: 0 <= j < n ==> ks[j] < |chain| && IdOf(chain[ks[j]]) == Up(ParentsOf(chain), id, j)
    ensures forall j :: 0 <= j < n ==> Some(chain[ks[j]].parent) == match Up(ParentsOf(chain), id, j + 1)
                                                                 case None => None case Some(x) => Some(Parent(x))
  {
    ks := [];
    if n > 0 {
      var m := ParentsOf(chain);
      UpPlus(m, id, n - 1, 1);
      ks := Steps(chain, id, n - 1);
      var i := LeadsOn(chain, Up(m, id, n - 1).value, Up(m, id, n).value);
      ks := ks + [i];
    }
  }

  lemma CircleIsCycle(chain: seq<Entry>, id: string, n: nat) returns (ks: seq<nat>)
    requires Sound(chain) && WellFormed(chain) && n > 0 && Up(ParentsOf(chain), id, n) == Some(id)
    ensures IsCycle(chain, ks)
  {
    ks := Steps(chain, id, n);
    assert Up(ParentsOf(chain), id, 0) == Some(id);
    forall j | 0 <= j < n ensures Names(chain, ks[j], After(ks, j)) {
      assert Some(chain[ks[j]].parent) == match Up(ParentsOf(chain), id, j + 1) case None => None case Some(x) => Some(Parent(x));
    }
  }

  /** The parent map has a cycle exactly when some entries name each other round in a circle. */
  lemma CycleIff(chain: seq<Entry>)
    requires Sound(chain) && WellFormed(chain)
    ensures Acyclic(ParentsOf(chain)) <==> !exists ks :: IsCycle(chain, ks)
  {
    if ks :| IsCycle(chain, ks) {
      CycleLeadsOn(chain, ks, |ks| - 1);
    }
    if !Acyclic(ParentsOf(chain)) {
      var id, n: nat :| n > 0 && Up(ParentsOf(chain), id, n) == Some(id);
      var ks := CircleIsCycle(chain, id, n);
    }
  }

  /**
   True exactly for sound chains in which no entries name each other as parents round in a circle; linear in the
   number of entries.
   */
  method IsAcyclicChain(chain: Option<seq<Entry>>) returns (r: bool, ghost steps: nat)
    ensures r <==> chain.Some? && Sound(chain.value) && !exists ks :: IsCycle(chain.value, ks)
    ensures r <==> chain.Some? && WellFormed(chain.value) && Acyclic(ParentsOf(chain.value))
    ensures chain.Some? ==> steps <= 2 * |chain.value|
  {
    steps := 0;
    if chain.None? { return false, 0; }
    SoundIff(chain.value);
    if Sound(chain.value) { CycleIff(chain.value); }
    var parents, order := BuildParents(chain.value);
    if parents.None? { return false, 0; }
    Size(chain.value);
    r, steps := WalkAll(parents.value, order);
  }

  method WalkAll(m: Parents, order: seq<string>) returns (r: bool, ghost steps: nat)
    requires forall id :: id in order <==> id in m
    ensures r <==> Acyclic(m)
    ensures steps <= 2 * |m|
  {
    steps := 0;
    var verified: set<string> := {};
    ghost var done: set<string> := {};
    for i := 0 to |order|
      invariant done <= m.Keys && done <= verified
      invariant forall id :: id in verified && id in m ==> id in done
      invariant forall id :: id in verified ==> Ends(m, id)
      invariant forall k :: 0 <= k < i ==> order[k] in verified
      invariant steps <= 2 * |done|
    {
      if order[i] in verified { continue; }
      assert order[i] in order;
      var cycle, seen;
      ghost var added, more;
      cycle, seen, added, more := Walk(m, order[i], verified);
      Fits(done, added, m.Keys);
      steps := steps + more;
      if cycle { return false, steps; }
      verified := verified + seen;
      done := done + added;
    }
    EndsAcyclic(m);
    Fits(done, {}, m.Keys);
    assert done + {} == done;
    return true, steps;
  }

  lemma Fits(a: set<string>, b: set<string>, all: set<string>)
    requires a <= all && b <= all && a !! b
    ensures |a + b| == |a| + |b| <= |all|
  {
    Reachability.SubsetSize(a + b, all);
  }
}
