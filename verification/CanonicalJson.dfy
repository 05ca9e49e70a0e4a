/**
 The canonical serializer: keys sorted by UTF-16 code unit (the order of section 3.2.3
 of RFC 8785), absent object fields dropped, absent array elements written as null, and
 a budget on nesting depth and on visited nodes.
 */
module CanonicalJson {
  import opened Wrappers
  import opened Json

  const MAX_CANONICAL_DEPTH := 100
  const MAX_CANONICAL_NODES := 10000

  // ---------------------------------------------------------------- key order

  /** Lexicographic order by code unit. */
  predicate Less(a: Text, b: Text) {
    if b == [] then false
    else if a == [] then true
    else a[0] < b[0] || (a[0] == b[0] && Less(a[1..], b[1..]))
  }

  lemma LessIrreflexive(a: Text)
    ensures !Less(a, a)
  {
  }

  lemma {:induction a, b, c} LessTransitive(a: Text, b: Text, c: Text)
    requires Less(a, b) && Less(b, c)
    ensures Less(a, c)
  {
  }

  lemma LessTotal(a: Text, b: Text)
    ensures Less(a, b) || a == b || Less(b, a)
  {
    if a != [] && b != [] && a[0] == b[0] {
      LessTotal(a[1..], b[1..]);
      assert a == [a[0]] + a[1..] && b == [b[0]] + b[1..];
    }
  }

  predicate StrictlySorted(fields: seq<Field>) {
    forall i, j :: 0 <= i < j < |fields| ==> Less(fields[i].key, fields[j].key)
  }

  function Insert(f: Field, sorted: seq<Field>): seq<Field> {
    if sorted == [] || Less(f.key, sorted[0].key) then [f] + sorted
    else [sorted[0]] + Insert(f, sorted[1..])
  }

  /** What sorting an object's keys does to its fields. */
  function Sort(fields: seq<Field>): seq<Field> {
    if fields == [] then [] else Insert(fields[0], Sort(fields[1..]))
  }

  lemma InsertKeeps(f: Field, sorted: seq<Field>)
    ensures multiset(Insert(f, sorted)) == multiset{f} + multiset(sorted)
  {
    if sorted != [] && !Less(f.key, sorted[0].key) {
      InsertKeeps(f, sorted[1..]);
      assert sorted == [sorted[0]] + sorted[1..];
    }
  }

  lemma SortKeeps(fields: seq<Field>)
    ensures multiset(Sort(fields)) == multiset(fields)
  {
    if fields != [] {
      SortKeeps(fields[1..]);
      InsertKeeps(fields[0], Sort(fields[1..]));
      assert fields == [fields[0]] + fields[1..];
    }
  }

  lemma SortMembers(fields: seq<Field>)
    ensures |Sort(fields)| == |fields|
    ensures forall f :: f in Sort(fields) <==> f in fields
  {
    SortKeeps(fields);
    assert |Sort(fields)| == |multiset(Sort(fields))|;
    forall f ensures f in Sort(fields) <==> f in fields {
      assert f in Sort(fields) <==> f in multiset(Sort(fields));
    }
  }

  lemma InsertSorted(f: Field, sorted: seq<Field>)
    requires StrictlySorted(sorted)
    requires forall g :: g in sorted ==> g.key != f.key
    ensures StrictlySorted(Insert(f, sorted))
  {
    if sorted != [] {
      if Less(f.key, sorted[0].key) {
        forall i | 0 <= i < |sorted| ensures Less(f.key, sorted[i].key) {
          if i > 0 { LessTransitive(f.key, sorted[0].key, sorted[i].key); }
        }
      } else {
        LessTotal(f.key, sorted[0].key);
        InsertSorted(f, sorted[1..]);
        InsertKeeps(f, sorted[1..]);
        var r := Insert(f, sorted[1..]);
        forall i | 0 <= i < |r| ensures Less(sorted[0].key, r[i].key) {
          assert r[i] in multiset(r);
          assert r[i] == f || r[i] in sorted[1..];
        }
      }
    }
  }

  lemma SortAvoidsHead(fields: seq<Field>)
    requires DistinctKeys(fields) && fields != []
    ensures forall f :: f in Sort(fields[1..]) ==> f.key != fields[0].key
  {
    SortMembers(fields[1..]);
  }

  lemma SortSorts(fields: seq<Field>)
    requires DistinctKeys(fields)
    ensures StrictlySorted(Sort(fields))
  {
    if fields != [] {
      SortSorts(fields[1..]);
      SortAvoidsHead(fields);
      InsertSorted(fields[0], Sort(fields[1..]));
    }
  }

  lemma SortedDistinct(fields: seq<Field>)
    requires StrictlySorted(fields)
    ensures DistinctKeys(fields)
  {
    forall i, j | 0 <= i < j < |fields| ensures fields[i].key != fields[j].key {
      LessIrreflexive(fields[i].key);
    }
  }

  lemma SortedHeads(a: seq<Field>, b: seq<Field>)
    requires StrictlySorted(a) && StrictlySorted(b) && a != [] && b != []
    requires a[0] in b && b[0] in a
    ensures a[0] == b[0]
  {
    if a[0] != b[0] {
      var i :| 0 <= i < |b| && b[i] == a[0];
      var j :| 0 <= j < |a| && a[j] == b[0];
      LessTransitive(a[0].key, b[0].key, a[0].key);
      LessIrreflexive(a[0].key);
    }
  }

  lemma TailMultiset(a: seq<Field>)
    requires a != []
    ensures multiset(a[1..]) == multiset(a) - multiset{a[0]}
  {
    assert a == [a[0]] + a[1..];
  }

  /** A multiset of fields has at most one strictly sorted arrangement. */
  lemma {:induction false} SortedUnique(a: seq<Field>, b: seq<Field>)
    requires StrictlySorted(a) && StrictlySorted(b) && multiset(a) == multiset(b)
    ensures a == b
  {
    assert |a| == |multiset(a)| == |multiset(b)| == |b|;
    if a != [] {
      assert a[0] in multiset(b) && b[0] in multiset(a);
      SortedHeads(a, b);
      TailMultiset(a);
      TailMultiset(b);
      SortedUnique(a[1..], b[1..]);
      assert a == [a[0]] + a[1..] && b == [b[0]] + b[1..];
    }
  }

  // ---------------------------------------------------------------- the meaning of a value

  /** Sorted keys, absent fields dropped, absent array elements null. */
  function Norm(v: Value): Value
    decreases v, 1
  {
    match v
    case Arr(items) => Arr(NormItems(items))
    case Obj(fields) => Obj(Sort(NormFields(fields)))
    case _ => v
  }

  function NormItems(items: seq<Value>): (r: seq<Value>)
    ensures |r| == |items|
    decreases items, 0
  {
    if items == [] then []
    else [if items[0].Absent? then Null else Norm(items[0])] + NormItems(items[1..])
  }

  function NormFields(fields: seq<Field>): (r: seq<Field>)
    ensures forall f :: f in r ==> exists i :: 0 <= i < |fields| && fields[i].key == f.key
    decreases fields, 0
  {
    if fields == [] then []
    else if fields[0].val.Absent? then NormFields(fields[1..])
    else [Field(fields[0].key, Norm(fields[0].val))] + NormFields(fields[1..])
  }

  lemma NormFieldsDistinct(fields: seq<Field>)
    requires DistinctKeys(fields)
    ensures DistinctKeys(NormFields(fields))
  {
    if fields != [] {
      NormFieldsDistinct(fields[1..]);
    }
  }

  lemma {:induction false} NormItemsConcat(a: seq<Value>, b: seq<Value>)
    ensures NormItems(a + b) == NormItems(a) + NormItems(b)
  {
    if a == [] {
      assert a + b == b;
    } else {
      assert (a + b)[1..] == a[1..] + b;
      NormItemsConcat(a[1..], b);
    }
  }

  lemma {:induction false} NormFieldsConcat(a: seq<Field>, b: seq<Field>)
    ensures NormFields(a + b) == NormFields(a) + NormFields(b)
  {
    if a == [] {
      assert a + b == b;
    } else {
      assert (a + b)[1..] == a[1..] + b;
      NormFieldsConcat(a[1..], b);
    }
  }

  lemma {:induction false} PrintItemsConcat(a: seq<Value>, b: seq<Value>)
    ensures PrintItems(a + b) == PrintItems(a) + PrintItems(b)
  {
    if a == [] {
      assert a + b == b;
    } else {
      assert (a + b)[1..] == a[1..] + b;
      PrintItemsConcat(a[1..], b);
    }
  }

  lemma {:induction false} PrintFieldsConcat(a: seq<Field>, b: seq<Field>)
    ensures PrintFields(a + b) == PrintFields(a) + PrintFields(b)
  {
    if a == [] {
      assert a + b == b;
    } else {
      assert (a + b)[1..] == a[1..] + b;
      PrintFieldsConcat(a[1..], b);
    }
  }

  lemma NormFieldsHead(f: Field, rest: seq<Field>)
    ensures NormFields([f] + rest) ==
            if f.val.Absent? then NormFields(rest) else [Field(f.key, Norm(f.val))] + NormFields(rest)
  {
    assert ([f] + rest)[1..] == rest;
  }

  lemma InsertAtFront(f: Field, rest: seq<Field>)
    requires forall i :: 0 <= i < |rest| ==> Less(f.key, rest[i].key)
    ensures Insert(f, rest) == [f] + rest
  {
  }

  /** Inserting before or after dropping absent fields comes to the same. */
  lemma {:induction false} NormFieldsInsert(f: Field, sorted: seq<Field>)
    requires StrictlySorted(sorted)
    requires forall g :: g in sorted ==> g.key != f.key
    ensures NormFields(Insert(f, sorted)) ==
            (if f.val.Absent? then NormFields(sorted) else Insert(Field(f.key, Norm(f.val)), NormFields(sorted)))
  {
    if sorted == [] {
      NormFieldsHead(f, []);
    } else if Less(f.key, sorted[0].key) {
      NormFieldsHead(f, sorted);
      var rest := NormFields(sorted);
      forall k | 0 <= k < |rest| ensures Less(f.key, rest[k].key) {
        assert rest[k] in rest;
        var i :| 0 <= i < |sorted| && sorted[i].key == rest[k].key;
        if i > 0 { LessTransitive(f.key, sorted[0].key, sorted[i].key); }
      }
      InsertAtFront(Field(f.key, Norm(f.val)), rest);
    } else {
      NormFieldsInsert(f, sorted[1..]);
      NormFieldsHead(sorted[0], Insert(f, sorted[1..]));
      NormFieldsHead(sorted[0], sorted[1..]);
      assert sorted == [sorted[0]] + sorted[1..];
    }
  }

  lemma {:induction false} NormFieldsSort(fields: seq<Field>)
    requires DistinctKeys(fields)
    ensures NormFields(Sort(fields)) == Sort(NormFields(fields))
  {
    if fields != [] {
      NormFieldsSort(fields[1..]);
      SortSorts(fields[1..]);
      SortAvoidsHead(fields);
      NormFieldsInsert(fields[0], Sort(fields[1..]));
      NormFieldsHead(fields[0], fields[1..]);
      assert fields == [fields[0]] + fields[1..];
    }
  }

  lemma {:induction false} NormWellFormed(v: Value)
    requires WellFormed(v) && !v.Absent?
    ensures WellFormed(Norm(v)) && Present(Norm(v))
    decreases v, 1
  {
    match v
    case Arr(items) => NormItemsWellFormed(items);
    case Obj(fields) =>
      NormFieldsWellFormed(fields);
      NormFieldsDistinct(fields);
      SortSorts(NormFields(fields));
      SortedDistinct(Sort(NormFields(fields)));
      SortMembers(NormFields(fields));
    case _ =>
  }

  lemma {:induction false} NormItemsWellFormed(items: seq<Value>)
    requires forall i :: 0 <= i < |items| ==> WellFormed(items[i])
    ensures forall i :: 0 <= i < |items| ==> WellFormed(NormItems(items)[i]) && Present(NormItems(items)[i])
    decreases items, 0
  {
    if items != [] {
      if !items[0].Absent? { NormWellFormed(items[0]); }
      NormItemsWellFormed(items[1..]);
    }
  }

  lemma {:induction false} NormFieldsWellFormed(fields: seq<Field>)
    requires forall i :: 0 <= i < |fields| ==> WellFormed(fields[i].val)
    ensures forall f :: f in NormFields(fields) ==> WellFormed(f.val) && Present(f.val)
    decreases fields, 0
  {
    if fields != [] {
      if !fields[0].val.Absent? { NormWellFormed(fields[0].val); }
      NormFieldsWellFormed(fields[1..]);
    }
  }

  // ---------------------------------------------------------------- budgets

  /** Nodes charged to the budget: one per walked value and one per dropped field. */
  function Nodes(v: Value): (n: nat)
    ensures n >= 1
    decreases v, 1
  {
    match v
    case Arr(items) => 1 + NodesItems(items)
    case Obj(fields) => 1 + NodesFields(fields)
    case _ => 1
  }

  function NodesItems(items: seq<Value>): nat
    decreases items, 0
  {
    if items == [] then 0 else Nodes(items[0]) + NodesItems(items[1..])
  }

  function NodesFields(fields: seq<Field>): nat
    decreases fields, 0
  {
    if fields == [] then 0 else Nodes(fields[0].val) + NodesFields(fields[1..])
  }

  function Max(a: nat, b: nat): nat { if a < b then b else a }

  /** Nesting below the root; an absent array element is walked, an absent field is not. */
  function Depth(v: Value): nat
    decreases v, 1
  {
    match v
    case Arr(items) => DepthItems(items)
    case Obj(fields) => DepthFields(fields)
    case _ => 0
  }

  function DepthItems(items: seq<Value>): nat
    decreases items, 0
  {
    if items == [] then 0 else Max(1 + Depth(items[0]), DepthItems(items[1..]))
  }

  function DepthFields(fields: seq<Field>): nat
    decreases fields, 0
  {
    if fields == [] then 0
    else if fields[0].val.Absent? then DepthFields(fields[1..])
    else Max(1 + Depth(fields[0].val), DepthFields(fields[1..]))
  }

  lemma {:induction false} ItemsBudgetConcat(a: seq<Value>, b: seq<Value>)
    ensures NodesItems(a + b) == NodesItems(a) + NodesItems(b)
    ensures DepthItems(a + b) == Max(DepthItems(a), DepthItems(b))
  {
    if a == [] {
      assert a + b == b;
    } else {
      assert (a + b)[1..] == a[1..] + b;
      ItemsBudgetConcat(a[1..], b);
    }
  }

  lemma {:induction false} FieldsBudgetConcat(a: seq<Field>, b: seq<Field>)
    ensures NodesFields(a + b) == NodesFields(a) + NodesFields(b)
    ensures DepthFields(a + b) == Max(DepthFields(a), DepthFields(b))
  {
    if a == [] {
      assert a + b == b;
    } else {
      assert (a + b)[1..] == a[1..] + b;
      FieldsBudgetConcat(a[1..], b);
    }
  }

  lemma {:induction false} InsertBudget(f: Field, sorted: seq<Field>)
    ensures NodesFields(Insert(f, sorted)) == NodesFields([f]) + NodesFields(sorted)
    ensures DepthFields(Insert(f, sorted)) == Max(DepthFields([f]), DepthFields(sorted))
  {
    if sorted == [] || Less(f.key, sorted[0].key) {
      FieldsBudgetConcat([f], sorted);
    } else {
      InsertBudget(f, sorted[1..]);
      FieldsBudgetConcat([sorted[0]], Insert(f, sorted[1..]));
      FieldsBudgetConcat([sorted[0]], sorted[1..]);
      assert sorted == [sorted[0]] + sorted[1..];
    }
  }

  lemma {:induction false} SortBudget(fields: seq<Field>)
    ensures NodesFields(Sort(fields)) == NodesFields(fields)
    ensures DepthFields(Sort(fields)) == DepthFields(fields)
  {
    if fields != [] {
      SortBudget(fields[1..]);
      InsertBudget(fields[0], Sort(fields[1..]));
      FieldsBudgetConcat([fields[0]], fields[1..]);
      assert fields == [fields[0]] + fields[1..];
    }
  }

  // ---------------------------------------------------------------- the serializer

  datatype Outcome =
    | Done(text: Text)
    | NoText        // native stringification of an absent value yields undefined
    | TooDeep
    | TooWide

  /** Canonical text, or nothing when the value is absent or over one of the budgets. */
  function Canonical(v: Value): Option<Text> {
    if v.Absent? || Depth(v) > MAX_CANONICAL_DEPTH || Nodes(v) > MAX_CANONICAL_NODES then None
    else Some(Print(Norm(v)))
  }

  function Keys(fields: seq<Field>): (r: seq<Text>)
    ensures |r| == |fields| && forall i :: 0 <= i < |r| ==> r[i] == fields[i].key
  {
    seq(|fields|, i requires 0 <= i < |fields| => fields[i].key)
  }

  /** Property read; a missing key reads as undefined. */
  function Lookup(fields: seq<Field>, key: Text): (r: Value)
    ensures r == Absent || exists i :: 0 <= i < |fields| && fields[i].key == key && fields[i].val == r
  {
    if fields == [] then Absent
    else if fields[0].key == key then fields[0].val
    else Lookup(fields[1..], key)
  }

  lemma LookupMember(fields: seq<Field>, i: nat)
    requires DistinctKeys(fields) && i < |fields|
    ensures Lookup(fields, fields[i].key) == fields[i].val
  {
    if i > 0 {
      LookupMember(fields[1..], i - 1);
    }
  }

  lemma LookupMissing(fields: seq<Field>, key: Text)
    requires forall f :: f in fields ==> f.key != key
    ensures Lookup(fields, key) == Absent
  {
    forall i | 0 <= i < |fields| ensures fields[i].key != key {
      assert fields[i] in fields;
    }
  }

  lemma LookupSorted(fields: seq<Field>, i: nat)
    requires DistinctKeys(fields) && i < |Sort(fields)|
    ensures Lookup(fields, Sort(fields)[i].key) == Sort(fields)[i].val
    ensures exists j :: 0 <= j < |fields| && fields[j] == Sort(fields)[i]
  {
    var f := Sort(fields)[i];
    SortMembers(fields);
    assert f in fields;
    var j :| 0 <= j < |fields| && fields[j] == f;
    LookupMember(fields, j);
  }

  class Serializer {
    var nodeCount: nat
    ghost var childReads: nat  // child values read so far

    constructor ()
      ensures nodeCount == 0 && childReads == 0
    {
      nodeCount := 0;
      childReads := 0;
    }

    method Walk(v: Value, depth: nat) returns (r: Outcome)
      requires WellFormed(v) && !v.Absent?
      requires childReads == nodeCount <= MAX_CANONICAL_NODES
      modifies this
      ensures !r.NoText?
      ensures r.Done? ==>
        && depth + Depth(v) <= MAX_CANONICAL_DEPTH
        && nodeCount == old(nodeCount) + Nodes(v) <= MAX_CANONICAL_NODES
        && r.text == Print(Norm(v))
        && childReads + 1 == nodeCount
      ensures r.TooDeep? ==> depth + Depth(v) > MAX_CANONICAL_DEPTH
      ensures r.TooWide? ==> old(nodeCount) + Nodes(v) > MAX_CANONICAL_NODES
      ensures childReads <= MAX_CANONICAL_NODES
      decreases Depth(v), 3
    {
      if depth > MAX_CANONICAL_DEPTH {
        return TooDeep;
      }
      nodeCount := nodeCount + 1;
      if nodeCount > MAX_CANONICAL_NODES {
        return TooWide;
      }
      match v
      case Arr(items) => r := WalkItems(v, items, depth);
      case Obj(fields) => r := WalkFields(v, fields, depth);
      case _ => r := Done(Print(v));
    }

    method WalkItems(ghost v: Value, items: seq<Value>, depth: nat) returns (r: Outcome)
      requires v == Arr(items) && WellFormed(v)
      requires depth <= MAX_CANONICAL_DEPTH
      requires childReads + 1 == nodeCount <= MAX_CANONICAL_NODES
      modifies this
      ensures !r.NoText?
      ensures r.Done? ==>
        && depth + Depth(v) <= MAX_CANONICAL_DEPTH
        && nodeCount + 1 == old(nodeCount) + Nodes(v) <= MAX_CANONICAL_NODES + 1
        && r.text == Print(Norm(v))
        && childReads + 1 == nodeCount
      ensures r.TooDeep? ==> depth + Depth(v) > MAX_CANONICAL_DEPTH
      ensures r.TooWide? ==> old(nodeCount) + Nodes(v) > MAX_CANONICAL_NODES + 1
      ensures childReads <= MAX_CANONICAL_NODES
      decreases Depth(v), 1
    {
      var parts: seq<Text> := [];
      ghost var walked: seq<Value> := [];
      for i := 0 to |items|
        invariant |walked| == i && walked <= items
        invariant parts == PrintItems(NormItems(walked))
        invariant nodeCount == old(nodeCount) + NodesItems(walked) <= MAX_CANONICAL_NODES
        invariant depth + DepthItems(walked) <= MAX_CANONICAL_DEPTH
        invariant childReads + 1 == nodeCount
      {
        var x := items[i];
        ItemStepBudget(walked, x);
        ItemStepParts(walked, x);
        walked := walked + [x];
        ItemsPrefix(items, walked);
        childReads := childReads + 1;
        var child := if x.Absent? then Null else x;
        var part := Walk(child, depth + 1);
        if !part.Done? {
          return part;
        }
        parts := parts + [part.text];
      }
      assert walked == items;
      r := Done([OPEN_LIST] + Join(parts) + [CLOSE_LIST]);
    }

    method WalkFields(ghost v: Value, fields: seq<Field>, depth: nat) returns (r: Outcome)
      requires v == Obj(fields) && WellFormed(v)
      requires depth <= MAX_CANONICAL_DEPTH
      requires childReads + 1 == nodeCount <= MAX_CANONICAL_NODES
      modifies this
      ensures !r.NoText?
      ensures r.Done? ==>
        && depth + Depth(v) <= MAX_CANONICAL_DEPTH
        && nodeCount + 1 == old(nodeCount) + Nodes(v) <= MAX_CANONICAL_NODES + 1
        && r.text == Print(Norm(v))
        && childReads + 1 == nodeCount
      ensures r.TooDeep? ==> depth + Depth(v) > MAX_CANONICAL_DEPTH
      ensures r.TooWide? ==> old(nodeCount) + Nodes(v) > MAX_CANONICAL_NODES + 1
      ensures childReads <= MAX_CANONICAL_NODES
      decreases Depth(v), 2
    {
      SortedWalk(fields);
      var sortedKeys := Keys(Sort(fields));
      var ok, failure, parts := WalkKeys(fields, Sort(fields), sortedKeys, depth);
      r := if ok then Done([OPEN_OBJECT] + Join(parts) + [CLOSE_OBJECT]) else failure;
    }

    method WalkKeys(fields: seq<Field>, ghost sorted: seq<Field>, sortedKeys: seq<Text>, depth: nat)
      returns (ok: bool, failure: Outcome, parts: seq<Text>)
      requires |sortedKeys| == |sorted|
      requires forall i :: 0 <= i < |sorted| ==>
        && sortedKeys[i] == sorted[i].key
        && Lookup(fields, sortedKeys[i]) == sorted[i].val
        && WellFormed(sorted[i].val)
      requires depth <= MAX_CANONICAL_DEPTH
      requires childReads + 1 == nodeCount <= MAX_CANONICAL_NODES
      modifies this
      ensures ok ==>
        && depth + DepthFields(sorted) <= MAX_CANONICAL_DEPTH
        && nodeCount == old(nodeCount) + NodesFields(sorted) <= MAX_CANONICAL_NODES
        && parts == PrintFields(NormFields(sorted))
        && childReads + 1 == nodeCount
      ensures !ok ==> failure.TooDeep? || failure.TooWide?
      ensures !ok && failure.TooDeep? ==> depth + DepthFields(sorted) > MAX_CANONICAL_DEPTH
      ensures !ok && failure.TooWide? ==> old(nodeCount) + NodesFields(sorted) > MAX_CANONICAL_NODES
      ensures childReads <= MAX_CANONICAL_NODES
      decreases DepthFields(sorted), 1
    {
      ok, failure, parts := true, NoText, [];
      ghost var walked: seq<Field> := [];
      for i := 0 to |sortedKeys|
        invariant ok
        invariant |walked| == i && walked <= sorted
        invariant parts == PrintFields(NormFields(walked))
        invariant nodeCount == old(nodeCount) + NodesFields(walked) <= MAX_CANONICAL_NODES
        invariant depth + DepthFields(walked) <= MAX_CANONICAL_DEPTH
        invariant childReads + 1 == nodeCount
      {
        var k := sortedKeys[i];
        var val := Lookup(fields, k);
        ghost var f := sorted[i];
        FieldStepBudget(walked, f);
        FieldStepParts(walked, f);
        walked := walked + [f];
        FieldsPrefix(sorted, walked);
        var part := WalkField(val, depth);
        if part.NoText? {
          continue;
        }
        if !part.Done? {
          return false, part, [];
        }
        parts := parts + [Quote(k) + [COLON] + part.text];
      }
      assert walked == sorted;
    }

    /** One field value: read it once, then either charge it and drop it, or walk it. */
    method WalkField(val: Value, depth: nat) returns (r: Outcome)
      requires WellFormed(val)
      requires depth <= MAX_CANONICAL_DEPTH
      requires childReads + 1 == nodeCount <= MAX_CANONICAL_NODES
      modifies this
      ensures r.NoText? ==> val.Absent?
      ensures r.Done? ==> !val.Absent? && depth + 1 + Depth(val) <= MAX_CANONICAL_DEPTH && r.text == Print(Norm(val))
      ensures r.Done? || r.NoText? ==>
        && nodeCount == old(nodeCount) + Nodes(val) <= MAX_CANONICAL_NODES
        && childReads + 1 == nodeCount
      ensures r.TooDeep? ==> !val.Absent? && depth + 1 + Depth(val) > MAX_CANONICAL_DEPTH
      ensures r.TooWide? ==> old(nodeCount) + Nodes(val) > MAX_CANONICAL_NODES
      ensures childReads <= MAX_CANONICAL_NODES
      decreases if val.Absent? then 0 else Depth(val) + 1, 0
    {
      childReads := childReads + 1;
      if val.Absent? {
        nodeCount := nodeCount + 1;
        r := if nodeCount > MAX_CANONICAL_NODES then TooWide else NoText;
      } else {
        r := Walk(val, depth + 1);
      }
    }
  }

  /** The field loop visits fields in an order that changes neither budgets nor meaning. */
  lemma SortedWalk(fields: seq<Field>)
    requires DistinctKeys(fields)
    ensures NodesFields(Sort(fields)) == NodesFields(fields)
    ensures DepthFields(Sort(fields)) == DepthFields(fields)
    ensures NormFields(Sort(fields)) == Sort(NormFields(fields))
    ensures forall i :: 0 <= i < |Sort(fields)| ==>
      && Lookup(fields, Sort(fields)[i].key) == Sort(fields)[i].val
      && exists j :: 0 <= j < |fields| && fields[j] == Sort(fields)[i]
  {
    SortBudget(fields);
    NormFieldsSort(fields);
    forall i | 0 <= i < |Sort(fields)|
      ensures Lookup(fields, Sort(fields)[i].key) == Sort(fields)[i].val
      ensures exists j :: 0 <= j < |fields| && fields[j] == Sort(fields)[i]
    {
      LookupSorted(fields, i);
    }
  }

  lemma OneItem(x: Value)
    ensures NodesItems([x]) == Nodes(x) && DepthItems([x]) == 1 + Depth(x)
    ensures PrintItems(NormItems([x])) == [Print(if x.Absent? then Null else Norm(x))]
  {
  }

  /** How the running budget of the item loop grows by one item. */
  lemma ItemStepBudget(before: seq<Value>, x: Value)
    ensures NodesItems(before + [x]) == NodesItems(before) + Nodes(x)
    ensures DepthItems(before + [x]) == Max(DepthItems(before), 1 + Depth(x))
  {
    OneItem(x);
    ItemsBudgetConcat(before, [x]);
  }

  lemma ItemsPrefix(items: seq<Value>, prefix: seq<Value>)
    requires prefix <= items
    ensures NodesItems(prefix) <= NodesItems(items) && DepthItems(prefix) <= DepthItems(items)
  {
    var after := items[|prefix|..];
    assert items == prefix + after;
    ItemsBudgetConcat(prefix, after);
  }

  /** How the printed parts of the item loop grow by one item. */
  lemma ItemStepParts(before: seq<Value>, x: Value)
    ensures PrintItems(NormItems(before + [x])) ==
            PrintItems(NormItems(before)) + [Print(if x.Absent? then Null else Norm(x))]
  {
    OneItem(x);
    NormItemsConcat(before, [x]);
    PrintItemsConcat(NormItems(before), NormItems([x]));
  }

  lemma OneField(f: Field)
    ensures NodesFields([f]) == Nodes(f.val)
    ensures DepthFields([f]) == if f.val.Absent? then 0 else 1 + Depth(f.val)
  {
  }

  /** How the running budget of the field loop grows by one field. */
  lemma FieldStepBudget(before: seq<Field>, f: Field)
    ensures NodesFields(before + [f]) == NodesFields(before) + Nodes(f.val)
    ensures DepthFields(before + [f]) ==
            if f.val.Absent? then DepthFields(before) else Max(DepthFields(before), 1 + Depth(f.val))
  {
    OneField(f);
    FieldsBudgetConcat(before, [f]);
  }

  lemma FieldsPrefix(fields: seq<Field>, prefix: seq<Field>)
    requires prefix <= fields
    ensures NodesFields(prefix) <= NodesFields(fields) && DepthFields(prefix) <= DepthFields(fields)
  {
    var after := fields[|prefix|..];
    assert fields == prefix + after;
    FieldsBudgetConcat(prefix, after);
  }

  /** How the printed parts of the field loop grow by one field. */
  lemma FieldStepParts(before: seq<Field>, f: Field)
    ensures PrintFields(NormFields(before + [f])) ==
            PrintFields(NormFields(before)) +
            if f.val.Absent? then [] else [PrintField(Field(f.key, Norm(f.val)))]
  {
    NormFieldsConcat(before, [f]);
    NormFieldsHead(f, []);
    assert [f] + [] == [f];
    if f.val.Absent? {
      assert NormFields(before + [f]) == NormFields(before);
    } else {
      PrintFieldsConcat(NormFields(before), NormFields([f]));
    }
  }

  /** The exported serializer returns canonical text exactly when the value is within both budgets. */
  method CanonicalJsonSerialize(v: Value) returns (r: Outcome)
    requires WellFormed(v)
    ensures r.Done? <==> !v.Absent? && Depth(v) <= 100 && Nodes(v) <= 10_000
    ensures r.Done? ==>
      exists w :: Read(r.text) == Parsed(w, []) && WellFormed(w) && Ascending(w) && SameData(v, w)
    ensures r.Done? <==> Canonical(v).Some?
    ensures r.Done? ==> Canonical(v) == Some(r.text)
    ensures r.NoText? <==> v.Absent?
    ensures r.TooDeep? ==> Depth(v) > 100
    ensures r.TooWide? ==> Nodes(v) > 10_000
  {
    if Canonical(v).Some? { CanonicalTextSays(v); }
    if v.Absent? {
      return NoText;
    }
    var s := new Serializer();
    r := s.Walk(v, 0);
  }

  // ---------------------------------------------------------------- injectivity

  lemma ReadRecoversNorm(v: Value)
    requires WellFormed(v) && Canonical(v).Some?
    ensures Read(Canonical(v).value) == Parsed(Norm(v), [])
  {
    NormWellFormed(v);
    ReadUndoesPrint(Norm(v), []);
    assert Print(Norm(v)) + [] == Print(Norm(v));
  }

  /** Two serializable values have the same text exactly when they mean the same. */
  lemma CanonicalInjective(u: Value, v: Value)
    requires WellFormed(u) && WellFormed(v)
    requires Canonical(u).Some? && Canonical(v).Some?
    ensures Canonical(u) == Canonical(v) <==> Norm(u) == Norm(v)
  {
    ReadRecoversNorm(u);
    ReadRecoversNorm(v);
  }

  lemma SortForgetsOrder(f: seq<Field>, g: seq<Field>)
    requires DistinctKeys(f) && multiset(f) == multiset(g)
    ensures DistinctKeys(g) && Sort(f) == Sort(g)
  {
    forall i, j | 0 <= i < j < |g| ensures g[i].key != g[j].key {
      PermutedDistinct(f, g, i, j);
    }
    SortSorts(f);
    SortSorts(g);
    SortKeeps(f);
    SortKeeps(g);
    SortedUnique(Sort(f), Sort(g));
  }

  /** The order in which an object's keys were inserted does not show. */
  lemma CanonicalForgetsKeyOrder(f: seq<Field>, g: seq<Field>)
    requires DistinctKeys(f) && multiset(f) == multiset(g)
    ensures Canonical(Obj(f)) == Canonical(Obj(g))
  {
    SortForgetsOrder(f, g);
    NormFieldsSort(f);
    NormFieldsSort(g);
    SortBudget(f);
    SortBudget(g);
  }

  lemma PermutedDistinct(f: seq<Field>, g: seq<Field>, i: nat, j: nat)
    requires DistinctKeys(f) && multiset(f) == multiset(g)
    requires i < j < |g|
    ensures g[i].key != g[j].key
  {
    assert g[i] in multiset(g) && g[j] in multiset(g);
    assert g[i] in f && g[j] in f;
    if g[i] == g[j] {
      assert g == g[..i] + [g[i]] + g[i + 1..j] + [g[j]] + g[j + 1..];
      assert multiset(g)[g[i]] >= 2;
      DistinctCount(f, g[i]);
    }
  }

  lemma DistinctCount(f: seq<Field>, x: Field)
    requires DistinctKeys(f)
    ensures multiset(f)[x] <= 1
  {
    if f != [] {
      assert f == [f[0]] + f[1..];
      DistinctCount(f[1..], x);
      if f[0] == x {
        assert x !in f[1..];
      }
    }
  }

  /** Reading a property commutes with taking the meaning. */
  lemma LookupNorm(fields: seq<Field>, key: Text)
    requires DistinctKeys(fields)
    ensures Lookup(Norm(Obj(fields)).fields, key) == Norm(Lookup(fields, key))
  {
    NormFieldsDistinct(fields);
    LookupNormFields(fields, key);
    LookupSort(NormFields(fields), key);
  }

  lemma {:induction false} LookupNormFields(fields: seq<Field>, key: Text)
    requires DistinctKeys(fields)
    ensures Lookup(NormFields(fields), key) == Norm(Lookup(fields, key))
  {
    if fields != [] {
      LookupNormFields(fields[1..], key);
      var rest := NormFields(fields[1..]);
      if !fields[0].val.Absent? {
        assert NormFields(fields)[1..] == rest;
      } else if fields[0].key == key {
        LookupMissing(rest, key);
      }
    }
  }

  lemma LookupSort(fields: seq<Field>, key: Text)
    requires DistinctKeys(fields)
    ensures Lookup(Sort(fields), key) == Lookup(fields, key)
  {
    SortSorts(fields);
    SortMembers(fields);
    var sorted := Sort(fields);
    SortedDistinct(sorted);
    if i :| 0 <= i < |fields| && fields[i].key == key {
      assert fields[i] in sorted;
      var j :| 0 <= j < |sorted| && sorted[j] == fields[i];
      LookupMember(fields, i);
      LookupMember(sorted, j);
    } else {
      assert forall j :: 0 <= j < |sorted| ==> sorted[j] in fields;
    }
  }

  // ---------------------------------------------------------------- the order and the data of the text

  /** The first key is a proper start of the second, or has the smaller code unit where they first differ. */
  ghost predicate Before(a: Text, b: Text) {
    exists n :: 0 <= n <= |a| && n <= |b| && a[..n] == b[..n] && n < |b| && (n == |a| || a[n] < b[n])
  }

  lemma {:induction false} LessIsBefore(a: Text, b: Text)
    requires Less(a, b)
    ensures Before(a, b)
  {
    if a == [] || a[0] < b[0] {
      assert a[..0] == b[..0];
    } else {
      LessIsBefore(a[1..], b[1..]);
      var n :| 0 <= n <= |a[1..]| && n <= |b[1..]| && a[1..][..n] == b[1..][..n] && n < |b[1..]|
        && (n == |a[1..]| || a[1..][n] < b[1..][n]);
      assert a[..n + 1] == [a[0]] + a[1..][..n] && b[..n + 1] == [b[0]] + b[1..][..n];
    }
  }

  /** In every object, at every depth, the keys ascend. */
  ghost predicate Ascending(v: Value) {
    match v
    case Arr(items) => forall i :: 0 <= i < |items| ==> Ascending(items[i])
    case Obj(fields) =>
      && (forall i, j :: 0 <= i < j < |fields| ==> Before(fields[i].key, fields[j].key))
      && forall i :: 0 <= i < |fields| ==> Ascending(fields[i].val)
    case _ => true
  }

  /** The second value says what JSON can say of the first: scalars, items in order, and each present field. */
  ghost predicate SameData(v: Value, w: Value)
    decreases v
  {
    match v
    case Absent => w.Null?
    case Arr(items) =>
      w.Arr? && |w.items| == |items| && forall i :: 0 <= i < |items| ==> SameData(items[i], w.items[i])
    case Obj(fields) =>
      && w.Obj?
      && (forall i :: 0 <= i < |fields| && !fields[i].val.Absent? ==> IsSaid(fields[i], w.fields))
      && (forall j :: 0 <= j < |w.fields| ==> HasKey(fields, w.fields[j].key))
    case _ => w == v
  }

  /** One of the fields has this key and the same data. */
  ghost predicate IsSaid(f: Field, said: seq<Field>)
    decreases f
  {
    exists j :: 0 <= j < |said| && said[j].key == f.key && SameData(f.val, said[j].val)
  }

  /** The key is there, and its value is not absent. */
  predicate HasKey(fields: seq<Field>, key: Text) {
    exists i :: 0 <= i < |fields| && fields[i].key == key && !fields[i].val.Absent?
  }

  lemma {:induction false} NormItemAt(items: seq<Value>, i: nat)
    requires i < |items|
    ensures NormItems(items)[i] == if items[i].Absent? then Null else Norm(items[i])
  {
    if i > 0 { NormItemAt(items[1..], i - 1); }
  }

  lemma {:induction false} NormFieldFrom(fields: seq<Field>, g: Field)
    requires g in NormFields(fields)
    ensures exists i :: 0 <= i < |fields| && !fields[i].val.Absent? && g == Field(fields[i].key, Norm(fields[i].val))
  {
    if fields[0].val.Absent? || g != Field(fields[0].key, Norm(fields[0].val)) {
      NormFieldFrom(fields[1..], g);
      var i :| 0 <= i < |fields[1..]| && !fields[1..][i].val.Absent? && g == Field(fields[1..][i].key, Norm(fields[1..][i].val));
      assert fields[i + 1] == fields[1..][i];
    }
  }

  lemma {:induction false} NormFieldTo(fields: seq<Field>, i: nat)
    requires i < |fields| && !fields[i].val.Absent?
    ensures Field(fields[i].key, Norm(fields[i].val)) in NormFields(fields)
  {
    if i > 0 { NormFieldTo(fields[1..], i - 1); }
  }

  lemma {:induction false} NormAscends(v: Value)
    requires WellFormed(v)
    ensures Ascending(Norm(v))
  {
    match v
    case Arr(items) =>
      forall i | 0 <= i < |items| ensures Ascending(NormItems(items)[i]) {
        NormItemAt(items, i);
        NormAscends(items[i]);
      }
    case Obj(fields) => NormFieldsAscend(fields, Sort(NormFields(fields)));
    case _ =>
  }

  lemma {:induction false} NormFieldsAscend(fields: seq<Field>, sorted: seq<Field>)
    requires WellFormed(Obj(fields)) && sorted == Sort(NormFields(fields))
    ensures Ascending(Obj(sorted))
    decreases fields
  {
    NormFieldsDistinct(fields);
    SortSorts(NormFields(fields));
    SortMembers(NormFields(fields));
    forall i, j | 0 <= i < j < |sorted| ensures Before(sorted[i].key, sorted[j].key) {
      LessIsBefore(sorted[i].key, sorted[j].key);
    }
    forall j | 0 <= j < |sorted| ensures Ascending(sorted[j].val) {
      assert sorted[j] in sorted;
      NormFieldFrom(fields, sorted[j]);
      var i :| 0 <= i < |fields| && !fields[i].val.Absent? && sorted[j] == Field(fields[i].key, Norm(fields[i].val));
      NormAscends(fields[i].val);
    }
  }

  lemma {:induction false} NormSameData(v: Value)
    ensures SameData(v, if v.Absent? then Null else Norm(v))
  {
    match v
    case Arr(items) =>
      forall i | 0 <= i < |items| ensures SameData(items[i], NormItems(items)[i]) {
        NormItemAt(items, i);
        NormSameData(items[i]);
      }
    case Obj(fields) => NormFieldsSameData(fields, Sort(NormFields(fields)));
    case _ =>
  }

  lemma {:induction false} NormFieldsSameData(fields: seq<Field>, sorted: seq<Field>)
    requires sorted == Sort(NormFields(fields))
    ensures SameData(Obj(fields), Obj(sorted))
    decreases fields
  {
    SortMembers(NormFields(fields));
    forall i | 0 <= i < |fields| && !fields[i].val.Absent? ensures IsSaid(fields[i], sorted) {
      NormFieldTo(fields, i);
      var j :| 0 <= j < |sorted| && sorted[j] == Field(fields[i].key, Norm(fields[i].val));
      NormSameData(fields[i].val);
    }
    forall j | 0 <= j < |sorted| ensures HasKey(fields, sorted[j].key) {
      assert sorted[j] in sorted;
      NormFieldFrom(fields, sorted[j]);
    }
  }

  /** Canonical text is the JSON of a value with ascending keys throughout that says what the value says. */
  lemma CanonicalTextSays(v: Value)
    requires WellFormed(v) && Canonical(v).Some?
    ensures exists w :: Read(Canonical(v).value) == Parsed(w, []) && WellFormed(w) && Ascending(w) && SameData(v, w)
  {
    ReadRecoversNorm(v);
    NormWellFormed(v);
    NormAscends(v);
    NormSameData(v);
  }

  // ---------------------------------------------------------------- agreement with native JSON

  /** What native write-then-parse turns a value into: absent parts gone, key order kept. */
  function Image(v: Value): Value
    decreases v, 1
  {
    match v
    case Arr(items) => Arr(ImageItems(items))
    case Obj(fields) => Obj(ImageFields(fields))
    case _ => v
  }

  function ImageItems(items: seq<Value>): (r: seq<Value>)
    ensures |r| == |items|
    decreases items, 0
  {
    if items == [] then []
    else [if items[0].Absent? then Null else Image(items[0])] + ImageItems(items[1..])
  }

  function ImageFields(fields: seq<Field>): (r: seq<Field>)
    ensures forall f :: f in r ==> exists i :: 0 <= i < |fields| && fields[i].key == f.key
    decreases fields, 0
  {
    if fields == [] then []
    else if fields[0].val.Absent? then ImageFields(fields[1..])
    else [Field(fields[0].key, Image(fields[0].val))] + ImageFields(fields[1..])
  }

  /** The text native stringification writes for a value that is not itself absent. */
  function NativeText(v: Value): Text { Print(Image(v)) }

  lemma {:induction false} ImageWellFormed(v: Value)
    requires WellFormed(v) && !v.Absent?
    ensures WellFormed(Image(v)) && Present(Image(v))
    decreases v, 1
  {
    match v
    case Arr(items) => ImageItemsWellFormed(items);
    case Obj(fields) => ImageFieldsWellFormed(fields);
    case _ =>
  }

  lemma {:induction false} ImageItemsWellFormed(items: seq<Value>)
    requires forall i :: 0 <= i < |items| ==> WellFormed(items[i])
    ensures forall i :: 0 <= i < |items| ==> WellFormed(ImageItems(items)[i]) && Present(ImageItems(items)[i])
    decreases items, 0
  {
    if items != [] {
      if !items[0].Absent? { ImageWellFormed(items[0]); }
      ImageItemsWellFormed(items[1..]);
    }
  }

  lemma {:induction false} ImageFieldsWellFormed(fields: seq<Field>)
    requires DistinctKeys(fields)
    requires forall i :: 0 <= i < |fields| ==> WellFormed(fields[i].val)
    ensures DistinctKeys(ImageFields(fields))
    ensures forall f :: f in ImageFields(fields) ==> WellFormed(f.val) && Present(f.val)
    decreases fields, 0
  {
    if fields != [] {
      ImageFieldsWellFormed(fields[1..]);
      if !fields[0].val.Absent? {
        ImageWellFormed(fields[0].val);
        var rest := ImageFields(fields[1..]);
        forall i | 0 <= i < |rest| ensures rest[i].key != fields[0].key {
          assert rest[i] in rest;
        }
      }
    }
  }

  /** Parsing what native stringification wrote yields the image. */
  lemma NativeRoundTrip(v: Value)
    requires WellFormed(v) && !v.Absent?
    ensures Read(NativeText(v)) == Parsed(Image(v), [])
  {
    ImageWellFormed(v);
    ReadUndoesPrint(Image(v), []);
    assert Print(Image(v)) + [] == Print(Image(v));
  }

  lemma {:induction false} NormImage(v: Value)
    ensures Norm(Image(v)) == Norm(v)
    ensures Nodes(Image(v)) <= Nodes(v) && Depth(Image(v)) == Depth(v)
    ensures Image(v).Absent? <==> v.Absent?
    decreases v, 1
  {
    match v
    case Arr(items) => NormImageItems(items);
    case Obj(fields) => NormImageFields(fields);
    case _ =>
  }

  lemma {:induction false} NormImageItems(items: seq<Value>)
    ensures NormItems(ImageItems(items)) == NormItems(items)
    ensures NodesItems(ImageItems(items)) <= NodesItems(items)
    ensures DepthItems(ImageItems(items)) == DepthItems(items)
    decreases items, 0
  {
    if items != [] {
      NormImage(items[0]);
      NormImageItems(items[1..]);
    }
  }

  lemma {:induction false} NormImageFields(fields: seq<Field>)
    ensures NormFields(ImageFields(fields)) == NormFields(fields)
    ensures NodesFields(ImageFields(fields)) <= NodesFields(fields)
    ensures DepthFields(ImageFields(fields)) == DepthFields(fields)
    decreases fields, 0
  {
    if fields != [] {
      NormImage(fields[0].val);
      NormImageFields(fields[1..]);
      if !fields[0].val.Absent? {
        assert ImageFields(fields)[1..] == ImageFields(fields[1..]);
      }
    }
  }

  /** Whenever serialization returns, it returns the same text after a native round trip. */
  lemma CanonicalSurvivesNative(v: Value)
    requires WellFormed(v) && Canonical(v).Some?
    ensures Read(NativeText(v)) == Parsed(Image(v), [])
    ensures Canonical(Image(v)) == Canonical(v)
  {
    NativeRoundTrip(v);
    NormImage(v);
  }

  /**
   The converse fails only through the node budget: dropped fields are charged in memory but
   are gone after the round trip.
   */
  lemma CanonicalOfImage(v: Value)
    requires WellFormed(v) && Canonical(Image(v)).Some?
    ensures Canonical(v) == Canonical(Image(v)) <==> Nodes(v) <= MAX_CANONICAL_NODES
  {
    NormImage(v);
  }

  /** As many absent fields as asked for, under distinct one-unit keys. */
  function AbsentFields(n: nat): (r: seq<Field>)
    requires n <= 0x1_0000
    ensures |r| == n && forall i :: 0 <= i < n ==> r[i] == Field([i], Absent)
  {
    if n == 0 then [] else AbsentFields(n - 1) + [Field([n - 1], Absent)]
  }

  lemma {:induction false} AbsentFieldsCost(fields: seq<Field>)
    requires forall f :: f in fields ==> f.val.Absent?
    ensures NodesFields(fields) == |fields| && ImageFields(fields) == []
  {
    if fields != [] {
      assert fields[0] in fields;
      AbsentFieldsCost(fields[1..]);
    }
  }

  lemma EmptyObjectText()
    ensures Canonical(Obj([])) == Some([OPEN_OBJECT, CLOSE_OBJECT])
  {
    assert Norm(Obj([])) == Obj([]) by { assert Sort([]) == []; }
    assert PrintFields([]) == [] && Join([]) == [];
    assert Print(Obj([])) == [OPEN_OBJECT] + [] + [CLOSE_OBJECT];
    assert [OPEN_OBJECT] + [] + [CLOSE_OBJECT] == [OPEN_OBJECT, CLOSE_OBJECT];
    assert Depth(Obj([])) == 0 && Nodes(Obj([])) == 1;
  }

  /** An object of 10,000 or more undefined fields is over the node budget; written and read back it is the empty object. */
  lemma AbsentFieldsBreakConverse(n: nat)
    requires MAX_CANONICAL_NODES <= n <= 0x1_0000
    ensures var v := Obj(AbsentFields(n));
      && WellFormed(v) && Image(v) == Obj([])
      && Canonical(v).None? && Canonical(Image(v)) == Some([OPEN_OBJECT, CLOSE_OBJECT])
  {
    AbsentFieldsCost(AbsentFields(n));
    EmptyObjectText();
  }
}
