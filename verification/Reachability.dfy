/** Reachability in a finite graph, and what a bounded breadth-first search maintains. */
module Reachability {
  type Edges<!T> = T -> set<T>

  ghost predicate ReachedIn<T(!new)>(edges: Edges<T>, seeds: set<T>, id: T, n: nat)
    decreases n
  {
    id in seeds || (n > 0 && exists mid :: ReachedIn(edges, seeds, mid, n - 1) && id in edges(mid))
  }

  /** Reachable in any number of steps. */
  ghost predicate Reachable<T(!new)>(edges: Edges<T>, seeds: set<T>, id: T) {
    exists n: nat :: ReachedIn(edges, seeds, id, n)
  }

  ghost predicate Within<T(!new)>(edges: Edges<T>, bound: set<T>) { forall id :: edges(id) <= bound }

  /** Everything reachable, for edges that stay within a finite set. */
  ghost function ReachSet<T(!new)>(edges: Edges<T>, bound: set<T>, seeds: set<T>): set<T> {
    set id | id in seeds + bound && Reachable(edges, seeds, id)
  }

  lemma ReachSetMembers<T(!new)>(edges: Edges<T>, bound: set<T>, seeds: set<T>, id: T)
    requires Within(edges, bound)
    ensures id in ReachSet(edges, bound, seeds) <==> Reachable(edges, seeds, id)
  {
    if Reachable(edges, seeds, id) {
      var n: nat :| ReachedIn(edges, seeds, id, n);
      if id !in seeds {
        var mid :| ReachedIn(edges, seeds, mid, n - 1) && id in edges(mid);
      }
    }
  }

  lemma ReachSetSeeds<T(!new)>(edges: Edges<T>, bound: set<T>, seeds: set<T>)
    ensures seeds <= ReachSet(edges, bound, seeds)
  {
    forall id | id in seeds ensures id in ReachSet(edges, bound, seeds) {
      assert ReachedIn(edges, seeds, id, 0);
    }
  }

  lemma ReachSetEdges<T(!new)>(edges: Edges<T>, bound: set<T>, seeds: set<T>, id: T)
    requires Within(edges, bound) && id in ReachSet(edges, bound, seeds)
    ensures edges(id) <= ReachSet(edges, bound, seeds)
  {
    var n: nat :| ReachedIn(edges, seeds, id, n);
    forall next | next in edges(id) ensures next in ReachSet(edges, bound, seeds) {
      assert ReachedIn(edges, seeds, next, n + 1);
      ReachSetMembers(edges, bound, seeds, next);
    }
  }

  ghost predicate Closed<T(!new)>(edges: Edges<T>, s: set<T>) { forall v :: v in s ==> edges(v) <= s }

  lemma {:induction false} ClosedContains<T(!new)>(edges: Edges<T>, seeds: set<T>, s: set<T>, id: T, n: nat)
    requires seeds <= s && Closed(edges, s) && ReachedIn(edges, seeds, id, n)
    ensures id in s
    decreases n
  {
    if id !in seeds {
      var mid :| ReachedIn(edges, seeds, mid, n - 1) && id in edges(mid);
      ClosedContains(edges, seeds, s, mid, n - 1);
    }
  }

  /** The reachable set is the least closed set that holds the seeds. */
  lemma ReachSetLeast<T(!new)>(edges: Edges<T>, bound: set<T>, seeds: set<T>, s: set<T>)
    requires seeds <= s && Closed(edges, s)
    ensures ReachSet(edges, bound, seeds) <= s
  {
    forall id | id in ReachSet(edges, bound, seeds) ensures id in s {
      var n: nat :| ReachedIn(edges, seeds, id, n);
      ClosedContains(edges, seeds, s, id, n);
    }
  }

  /** More edges only add to what is reachable. */
  lemma ReachSetGrows<T(!new)>(edges: Edges<T>, bound: set<T>, more: Edges<T>, wider: set<T>, seeds: set<T>)
    requires Within(more, wider) && forall id :: edges(id) <= more(id)
    ensures ReachSet(edges, bound, seeds) <= ReachSet(more, wider, seeds)
  {
    var s := ReachSet(more, wider, seeds);
    ReachSetSeeds(more, wider, seeds);
    forall v | v in s ensures edges(v) <= s { ReachSetEdges(more, wider, seeds, v); }
    ReachSetLeast(edges, bound, seeds, s);
  }

  lemma SubsetOfSameSize<T>(a: set<T>, b: set<T>)
    requires a <= b && |a| >= |b|
    ensures a == b
  {
    if a != b {
      var x :| x in b && x !in a;
      SubsetSize(a, b - {x});
    }
  }

  lemma {:induction false} SubsetSize<T>(a: set<T>, b: set<T>)
    requires a <= b
    ensures |a| <= |b|
  {
    if a != {} {
      var x :| x in a;
      SubsetSize(a - {x}, b - {x});
    }
  }

  /** Everything found is reachable, and below the cap what is not waiting has been expanded. */
  ghost predicate Exploring<T(!new)>(edges: Edges<T>, bound: set<T>, seeds: set<T>, cap: nat, visited: set<T>, queue: seq<T>) {
    && |visited| <= cap
    && visited <= ReachSet(edges, bound, seeds)
    && (forall id :: id in queue ==> id in visited)
    && (|visited| < cap ==> seeds <= visited && forall v :: v in visited && v !in queue ==> edges(v) <= visited)
  }

  /** A search that has nothing waiting, or is at its cap, has found what there is, or as much as fits. */
  lemma Explored<T(!new)>(edges: Edges<T>, bound: set<T>, seeds: set<T>, cap: nat, visited: set<T>, queue: seq<T>)
    requires Exploring(edges, bound, seeds, cap, visited, queue)
    requires queue == [] || |visited| >= cap
    ensures |ReachSet(edges, bound, seeds)| <= cap ==> visited == ReachSet(edges, bound, seeds)
    ensures |ReachSet(edges, bound, seeds)| > cap ==> |visited| == cap
  {
    var all := ReachSet(edges, bound, seeds);
    if |visited| < cap {
      ReachSetLeast(edges, bound, seeds, visited);
      assert visited == all;
    } else if |all| <= cap {
      SubsetOfSameSize(visited, all);
    }
  }

  /** One expansion: the first waiting id leaves, its targets join unless the cap is reached. */
  lemma Expanded<T(!new)>(edges: Edges<T>, bound: set<T>, seeds: set<T>, cap: nat, visited: set<T>, queue: seq<T>,
                          visited': set<T>, queue': seq<T>)
    requires Exploring(edges, bound, seeds, cap, visited, queue) && queue != [] && |visited| < cap
    requires visited <= visited' <= ReachSet(edges, bound, seeds) && |visited'| <= cap
    requires |visited'| < cap ==> edges(queue[0]) <= visited'
    requires forall x :: x in queue' ==> x in visited'
    requires forall x :: x in queue[1..] ==> x in queue'
    requires forall x :: x in visited' && x !in visited ==> x in queue'
    ensures Exploring(edges, bound, seeds, cap, visited', queue')
  {
    if |visited'| < cap {
      forall v | v in visited' && v !in queue' ensures edges(v) <= visited' {
        assert queue == [queue[0]] + queue[1..];
        assert v in visited;
      }
    }
  }
}
