/** Freezing everything reachable from a value, in place, on a heap that may hold cycles and frozen parents. */
module DeepFreeze {
  /** A property value: a primitive, or a reference to another object. */
  datatype Slot = Primitive(text: string) | Ref(node: Node)

  /** A heap object: whether it is frozen, and its own enumerable property values in key order. */
  class Node {
    var frozen: bool
    var slots: seq<Slot>

    constructor (slots: seq<Slot>)
      ensures this.slots == slots && !frozen
    {
      this.slots := slots;
      frozen := false;
    }
  }

  /** References from the heap stay in it. */
  ghost predicate Closed(heap: set<Node>)
    reads heap`slots
  {
    forall n, s :: n in heap && s in n.slots && s.Ref? ==> s.node in heap
  }

  ghost predicate ReachedIn(heap: set<Node>, root: Node, n: Node, k: nat)
    reads heap`slots
    decreases k
  {
    n == root || (k > 0 && exists mid :: mid in heap && ReachedIn(heap, root, mid, k - 1) && Ref(n) in mid.slots)
  }

  /** Reachable over references in any number of steps. */
  ghost predicate Reachable(heap: set<Node>, root: Node, n: Node)
    reads heap`slots
  {
    exists k: nat :: ReachedIn(heap, root, n, k)
  }

  lemma {:induction false} ClosedContains(heap: set<Node>, root: Node, s: set<Node>, n: Node, k: nat)
    requires root in s && ReachedIn(heap, root, n, k)
    requires forall m, slot :: m in s && m in heap && slot in m.slots && slot.Ref? ==> slot.node in s
    ensures n in s
    decreases k
  {
    if n != root {
      var mid :| mid in heap && ReachedIn(heap, root, mid, k - 1) && Ref(n) in mid.slots;
      ClosedContains(heap, root, s, mid, k - 1);
    }
  }

  lemma RootReachable(heap: set<Node>, root: Node)
    ensures Reachable(heap, root, root)
  {
    assert ReachedIn(heap, root, root, 0);
  }

  lemma ChildReachable(heap: set<Node>, root: Node, n: Node, child: Node)
    requires n in heap && Reachable(heap, root, n) && Ref(child) in n.slots
    ensures Reachable(heap, root, child)
  {
    var k: nat :| ReachedIn(heap, root, n, k);
    assert ReachedIn(heap, root, child, k + 1);
  }

  /** What the traversal maintains. */
  ghost predicate Traversing(heap: set<Node>, root: Node, seen: set<Node>, stack: seq<Slot>)
    reads heap`slots
  {
    && seen <= heap
    && (forall s :: s in stack && s.Ref? ==> s.node in heap && Reachable(heap, root, s.node))
    && (forall n :: n in seen ==> Reachable(heap, root, n))
    && (root in seen || Ref(root) in stack)
    && forall n, s :: n in seen && s in n.slots && s.Ref? ==> s.node in seen || s in stack
  }

  /** A traversal with nothing left to visit has seen exactly what is reachable. */
  lemma Traversed(heap: set<Node>, root: Node, seen: set<Node>)
    requires Traversing(heap, root, seen, [])
    ensures forall n :: n in heap ==> (n in seen <==> Reachable(heap, root, n))
  {
    forall n | n in heap && Reachable(heap, root, n) ensures n in seen {
      var k: nat :| ReachedIn(heap, root, n, k);
      ClosedContains(heap, root, seen, n, k);
    }
  }

  /** Skipping a primitive or an object already seen. */
  lemma Skipped(heap: set<Node>, root: Node, seen: set<Node>, stack: seq<Slot>)
    requires Traversing(heap, root, seen, stack) && stack != []
    requires var top := stack[|stack| - 1]; top.Primitive? || top.node in seen
    ensures Traversing(heap, root, seen, stack[..|stack| - 1])
  {
    var top, rest := stack[|stack| - 1], stack[..|stack| - 1];
    assert stack == rest + [top];
  }

  /** Visiting the object on top and leaving its unseen children on the stack. */
  lemma Visited(heap: set<Node>, root: Node, seen: set<Node>, stack: seq<Slot>, node: Node, stack': seq<Slot>)
    requires Traversing(heap, root, seen, stack) && Closed(heap)
    requires stack != [] && stack[|stack| - 1] == Ref(node)
    requires forall s :: s in stack[..|stack| - 1] ==> s in stack'
    requires forall s :: s in stack' ==> s in stack || s in node.slots
    requires forall s :: s in node.slots && s.Ref? ==> s.node in seen + {node} || s in stack'
    ensures Traversing(heap, root, seen + {node}, stack')
  {
    var rest := stack[..|stack| - 1];
    assert stack == rest + [Ref(node)];
    assert Ref(node) in stack;
    forall s | s in stack' && s.Ref? ensures s.node in heap && Reachable(heap, root, s.node) {
      if s !in stack {
        assert s == Ref(s.node);
        ChildReachable(heap, root, node, s.node);
      }
    }
  }

  /**
   Everything reachable from the value is frozen, already-frozen parents included; no other object of the heap
   and no property changes. Terminates on any finite heap, cycles included.
   */
  method DeepFreezeValue(value: Slot, ghost heap: set<Node>) returns (same: Slot)
    requires Closed(heap) && (value.Ref? ==> value.node in heap)
    modifies heap`frozen
    ensures same == value
    ensures forall n :: n in heap ==> n.slots == old(n.slots)
    ensures forall n :: n in heap ==>
      (n.frozen <==> old(n.frozen) || (value.Ref? && Reachable(heap, value.node, n)))
  {
    same := value;
    if value.Primitive? { return; }
    ghost var root := value.node;
    var seen: set<Node> := {};
    var stack := [value];
    RootReachable(heap, root);
    while stack != []
      invariant Traversing(heap, root, seen, stack)
      invariant forall n :: n in heap ==> (n.frozen <==> old(n.frozen) || n in seen)
      decreases |heap - seen|, |stack|
    {
      var top := stack[|stack| - 1];
      ghost var before := stack;
      stack := stack[..|stack| - 1];
      if top.Primitive? || top.node in seen {
        Skipped(heap, root, seen, before);
        continue;
      }
      assert before == stack + [top];
      seen, stack := Visit(heap, root, top.node, seen, stack);
    }
    Traversed(heap, root, seen);
  }

  /** Freeze the object on top and put its unseen children on the stack. */
  method Visit(ghost heap: set<Node>, ghost root: Node, node: Node, seen: set<Node>, rest: seq<Slot>)
    returns (seen': set<Node>, stack': seq<Slot>)
    requires Closed(heap) && Traversing(heap, root, seen, rest + [Ref(node)]) && node !in seen
    modifies node`frozen
    ensures node.frozen && seen' == seen + {node}
    ensures Traversing(heap, root, seen', stack')
    ensures |heap - seen'| < |heap - seen|
  {
    ghost var before := rest + [Ref(node)];
    assert before[|before| - 1] == Ref(node) && before[..|before| - 1] == rest;
    assert Ref(node) in before;
    Fewer(heap, seen, node);
    seen' := seen + {node};
    node.frozen := true;
    stack' := PushChildren(node.slots, seen', rest);
    Visited(heap, root, seen, before, node, stack');
  }

  lemma Fewer(heap: set<Node>, seen: set<Node>, node: Node)
    requires node in heap && node !in seen
    ensures heap - (seen + {node}) < heap - seen && |heap - (seen + {node})| < |heap - seen|
  {
    assert heap - (seen + {node}) == (heap - seen) - {node};
  }

  /** The unseen objects among the slots join the stack. */
  method PushChildren(slots: seq<Slot>, seen: set<Node>, stack: seq<Slot>) returns (stack': seq<Slot>)
    ensures forall s :: s in stack ==> s in stack'
    ensures forall s :: s in stack' ==> s in stack || s in slots
    ensures forall s :: s in slots && s.Ref? ==> s.node in seen || s in stack'
  {
    stack' := stack;
    for i := 0 to |slots|
      invariant forall s :: s in stack ==> s in stack'
      invariant forall s :: s in stack' ==> s in stack || s in slots
      invariant forall s :: s in slots[..i] && s.Ref? ==> s.node in seen || s in stack'
    {
      var child := slots[i];
      if child.Ref? && child.node !in seen {
        stack' := stack' + [child];
      }
      assert slots[..i + 1] == slots[..i] + [child];
    }
    assert slots[..|slots|] == slots;
  }
}
