/**
 Many processes updating one file under one lock: take the lock or time out, read the whole file, write the
 updated file by an atomic rename, let the lock go. A read may fail, and is then taken as blank content. A process
 may crash at any point, after which its lock is reclaimed. The lock is the abstract one that LockProtocol proves of
 the lock file.
 */
module LockedUpdate {
  import opened Wrappers

  type Pid = int

  datatype Phase<C, A> = Waiting(a: A) | Locked(a: A) | Loaded(a: A, seen: C, blind: bool) | Stored(a: A)

  /** One write: the update, and whether it was computed from a failed read. */
  datatype Put<A> = Put(a: A, blind: bool)

  /** The file, the lock's owner, what each active process is at, and two logs: updates written, and reported. */
  datatype System<C, A> = System(content: C, owner: Option<Pid>, active: map<Pid, Phase<C, A>>, written: seq<Put<A>>,
                                 reported: seq<A>)

  datatype Event<A> = Ask(a: A) | Acquire | TimeOut | Load | ReadFault | Store | Fault | Release | Crash

  /** What an update makes of the content it read, and what a failed read is taken as. */
  datatype Rule<!C, !A> = Rule(update: (C, A) -> C, blank: C)

  function Start<C, A>(content: C): System<C, A> { System(content, None, map[], [], []) }

  /** The system after process `p` takes a step, if it can take that step. */
  function After<C, A>(f: Rule<C, A>, s: System<C, A>, p: Pid, e: Event<A>): Option<System<C, A>> {
    if e.Ask? then
      if p in s.active then None else Some(s.(active := s.active[p := Waiting(e.a)]))
    else if p !in s.active then None
    else match (e, s.active[p])
      case (Acquire, Waiting(a)) =>
        if s.owner.Some? then None else Some(s.(owner := Some(p), active := s.active[p := Locked(a)]))
      case (TimeOut, Waiting(_)) => Some(s.(active := s.active - {p}))
      case (Load, Locked(a)) => Some(s.(active := s.active[p := Loaded(a, s.content, false)]))
      case (ReadFault, Locked(a)) => Some(s.(active := s.active[p := Loaded(a, f.blank, true)]))
      case (Store, Loaded(a, seen, blind)) =>
        Some(s.(content := f.update(seen, a), active := s.active[p := Stored(a)], written := s.written + [Put(a, blind)]))
      case (Fault, Loaded(_, _, _)) => Some(s.(owner := None, active := s.active - {p}))
      case (Release, Stored(a)) =>
        Some(s.(owner := None, active := s.active - {p}, reported := s.reported + [a]))
      case (Crash, _) =>
        Some(s.(owner := if s.owner == Some(p) then None else s.owner, active := s.active - {p}))
      case _ => None
  }

  function Run<C, A>(f: Rule<C, A>, s: System<C, A>, steps: seq<(Pid, Event<A>)>): Option<System<C, A>>
    decreases steps
  {
    if steps == [] then Some(s)
    else match After(f, s, steps[0].0, steps[0].1)
      case None => None
      case Some(next) => Run(f, next, steps[1..])
  }

  /** The writes one after another, a blind one on blank content. */
  function Replay<C, A>(f: Rule<C, A>, content: C, puts: seq<Put<A>>): C {
    if puts == [] then content
    else
      var n := |puts| - 1;
      f.update(if puts[n].blind then f.blank else Replay(f, content, puts[..n]), puts[n].a)
  }

  /** The updates applied one after another. */
  function Fold<C, A>(f: Rule<C, A>, content: C, updates: seq<A>): C {
    if updates == [] then content
    else f.update(Fold(f, content, updates[..|updates| - 1]), updates[|updates| - 1])
  }

  function Acts<A>(puts: seq<Put<A>>): (r: seq<A>)
    ensures |r| == |puts| && forall i :: 0 <= i < |r| ==> r[i] == puts[i].a
  {
    seq(|puts|, i requires 0 <= i < |puts| => puts[i].a)
  }

  predicate Sighted<A(==)>(puts: seq<Put<A>>) { forall p :: p in puts ==> !p.blind }

  /** The updates from the last blind one on; all of them if none is blind. */
  function Recent<A>(puts: seq<Put<A>>): (r: seq<A>)
    ensures forall a :: a in r ==> exists p :: p in puts && p.a == a
    ensures puts != [] ==> r != []
  {
    if puts == [] then []
    else
      var n := |puts| - 1;
      (if puts[n].blind then [] else Recent(puts[..n])) + [puts[n].a]
  }

  lemma {:induction false} SightedRecent<A>(puts: seq<Put<A>>)
    requires Sighted(puts)
    ensures Recent(puts) == Acts(puts)
  {
    if puts != [] {
      var n := |puts| - 1;
      assert puts[n] in puts;
      SightedRecent(puts[..n]);
    }
  }

  /** A blind write forgets everything before it; nothing else does. */
  lemma {:induction false} ReplayIsRecent<C, A>(f: Rule<C, A>, content: C, puts: seq<Put<A>>)
    ensures Replay(f, content, puts) == Fold(f, if Sighted(puts) then content else f.blank, Recent(puts))
  {
    if puts != [] {
      var n := |puts| - 1;
      ReplayIsRecent(f, content, puts[..n]);
      assert puts == puts[..n] + [puts[n]];
      if puts[n].blind {
        assert puts[n] in puts;
        assert Recent(puts)[..0] == [];
      } else {
        assert Recent(puts)[..|Recent(puts)| - 1] == Recent(puts[..n]);
        assert Sighted(puts) <==> Sighted(puts[..n]);
      }
    }
  }

  predicate Inside<C, A>(phase: Phase<C, A>) { !phase.Waiting? }

  function Unreported<C, A>(s: System<C, A>): multiset<A> {
    if s.owner.Some? && s.owner.value in s.active && s.active[s.owner.value].Stored?
    then multiset{s.active[s.owner.value].a} else multiset{}
  }

  /** Exactly the owner is inside, and it sees the content unless its read failed. */
  ghost predicate OwnerInv<C, A>(f: Rule<C, A>, s: System<C, A>) {
    && (s.owner.Some? ==> s.owner.value in s.active)
    && (forall p :: p in s.active ==> (Inside(s.active[p]) <==> s.owner == Some(p)))
    && (forall p :: p in s.active && s.active[p].Loaded? ==>
          s.active[p].seen == if s.active[p].blind then f.blank else s.content)
  }

  /** The content is the writes in order, and what was reported, or is about to be, was written. */
  ghost predicate WrittenInv<C, A>(f: Rule<C, A>, first: C, s: System<C, A>) {
    && s.content == Replay(f, first, s.written)
    && multiset(s.reported) + Unreported(s) <= multiset(Acts(s.written))
  }

  ghost predicate Inv<C, A>(f: Rule<C, A>, first: C, s: System<C, A>) { OwnerInv(f, s) && WrittenInv(f, first, s) }

  lemma ActsOneMore<A>(puts: seq<Put<A>>, p: Put<A>)
    ensures Acts(puts + [p]) == Acts(puts) + [p.a]
  {
  }

  lemma StoreKeepsOwner<C, A>(f: Rule<C, A>, s: System<C, A>, p: Pid)
    requires OwnerInv(f, s) && p in s.active && s.active[p].Loaded?
    ensures OwnerInv(f, After(f, s, p, Store).value) && s.owner == Some(p)
  {
    assert Inside(s.active[p]);
  }

  lemma StoreKeepsWritten<C, A>(f: Rule<C, A>, first: C, s: System<C, A>, p: Pid)
    requires WrittenInv(f, first, s) && p in s.active && s.active[p].Loaded? && s.owner == Some(p)
    requires s.active[p].seen == if s.active[p].blind then f.blank else s.content
    ensures WrittenInv(f, first, After(f, s, p, Store).value)
  {
    var next := After(f, s, p, Store).value;
    assert next.written[..|s.written|] == s.written;
    ActsOneMore(s.written, Put(s.active[p].a, s.active[p].blind));
  }

  lemma StoreKeepsInv<C, A>(f: Rule<C, A>, first: C, s: System<C, A>, p: Pid)
    requires Inv(f, first, s) && p in s.active && s.active[p].Loaded?
    ensures Inv(f, first, After(f, s, p, Store).value)
  {
    StoreKeepsOwner(f, s, p);
    StoreKeepsWritten(f, first, s, p);
  }

  /** Every other step writes nothing. */
  lemma OtherKeepsOwner<C, A>(f: Rule<C, A>, s: System<C, A>, p: Pid, e: Event<A>)
    requires OwnerInv(f, s) && After(f, s, p, e).Some? && !e.Store?
    ensures OwnerInv(f, After(f, s, p, e).value)
  {
    assert p in s.active ==> (Inside(s.active[p]) <==> s.owner == Some(p));
  }

  lemma OtherKeepsWritten<C, A>(f: Rule<C, A>, first: C, s: System<C, A>, p: Pid, e: Event<A>)
    requires OwnerInv(f, s) && WrittenInv(f, first, s) && After(f, s, p, e).Some? && !e.Store?
    ensures WrittenInv(f, first, After(f, s, p, e).value)
  {
    assert p in s.active ==> (Inside(s.active[p]) <==> s.owner == Some(p));
  }

  lemma StepKeepsInv<C, A>(f: Rule<C, A>, first: C, s: System<C, A>, p: Pid, e: Event<A>)
    requires Inv(f, first, s) && After(f, s, p, e).Some?
    ensures Inv(f, first, After(f, s, p, e).value)
  {
    if e.Store? {
      StoreKeepsInv(f, first, s, p);
    } else {
      OtherKeepsOwner(f, s, p, e);
      OtherKeepsWritten(f, first, s, p, e);
    }
  }

  lemma {:induction false} RunKeepsInv<C, A>(f: Rule<C, A>, first: C, s: System<C, A>, steps: seq<(Pid, Event<A>)>)
    requires Inv(f, first, s) && Run(f, s, steps).Some?
    ensures Inv(f, first, Run(f, s, steps).value)
    decreases steps
  {
    if steps != [] {
      StepKeepsInv(f, first, s, steps[0].0, steps[0].1);
      RunKeepsInv(f, first, After(f, s, steps[0].0, steps[0].1).value, steps[1..]);
    }
  }

  /**
   Whatever the interleaving, timeouts, faults and crashes, the file is the updates since the last blind one applied
   in order, to blank content if there was a blind one; every update a process reported was written.
   */
  lemma RunIsSerial<C, A>(f: Rule<C, A>, first: C, steps: seq<(Pid, Event<A>)>)
    requires Run(f, Start(first), steps).Some?
    ensures var s := Run(f, Start(first), steps).value;
      && s.content == Fold(f, if Sighted(s.written) then first else f.blank, Recent(s.written))
      && multiset(s.reported) <= multiset(Acts(s.written))
  {
    assert Inv(f, first, Start<C, A>(first));
    RunKeepsInv(f, first, Start(first), steps);
    ReplayIsRecent(f, first, Run(f, Start(first), steps).value.written);
  }

  /** If no read fails, that is all of them in order. */
  lemma SightedRunIsSerial<C, A>(f: Rule<C, A>, first: C, steps: seq<(Pid, Event<A>)>)
    requires Run(f, Start(first), steps).Some? && forall i :: 0 <= i < |steps| ==> !steps[i].1.ReadFault?
    ensures var s := Run(f, Start(first), steps).value;
      Sighted(s.written) && s.content == Fold(f, first, Acts(s.written))
  {
    RunIsSerial(f, first, steps);
    NoFaultSighted(f, Start(first), steps);
    SightedRecent(Run(f, Start(first), steps).value.written);
  }

  ghost predicate AllSighted<C, A>(s: System<C, A>) {
    && Sighted(s.written)
    && forall p :: p in s.active && s.active[p].Loaded? ==> !s.active[p].blind
  }

  lemma {:induction false} NoFaultSighted<C, A>(f: Rule<C, A>, s: System<C, A>, steps: seq<(Pid, Event<A>)>)
    requires Run(f, s, steps).Some? && AllSighted(s) && forall i :: 0 <= i < |steps| ==> !steps[i].1.ReadFault?
    ensures AllSighted(Run(f, s, steps).value)
    decreases steps
  {
    if steps != [] {
      var next := After(f, s, steps[0].0, steps[0].1).value;
      assert AllSighted(next);
      NoFaultSighted(f, next, steps[1..]);
    }
  }

  ghost predicate AllAsked<C, A>(s: System<C, A>, ok: A -> bool) {
    && (forall p :: p in s.active ==> ok(s.active[p].a))
    && (forall w :: w in s.written ==> ok(w.a))
  }

  /** Only what was asked for is written. */
  lemma {:induction false} RunWritesAsked<C, A>(f: Rule<C, A>, s: System<C, A>, steps: seq<(Pid, Event<A>)>, ok: A -> bool)
    requires Run(f, s, steps).Some? && AllAsked(s, ok)
    requires forall i :: 0 <= i < |steps| && steps[i].1.Ask? ==> ok(steps[i].1.a)
    ensures AllAsked(Run(f, s, steps).value, ok)
    decreases steps
  {
    if steps != [] {
      assert AllAsked(After(f, s, steps[0].0, steps[0].1).value, ok);
      RunWritesAsked(f, After(f, s, steps[0].0, steps[0].1).value, steps[1..], ok);
    }
  }

  lemma {:induction false} RunConcat<C, A>(f: Rule<C, A>, s: System<C, A>, a: seq<(Pid, Event<A>)>, b: seq<(Pid, Event<A>)>)
    requires Run(f, s, a).Some?
    ensures Run(f, s, a + b) == Run(f, Run(f, s, a).value, b)
    decreases a
  {
    if a == [] {
      assert a + b == b;
    } else {
      assert (a + b)[1..] == a[1..] + b;
      RunConcat(f, After(f, s, a[0].0, a[0].1).value, a[1..], b);
    }
  }

  /** Five steps one after another. */
  lemma RunFive<C, A>(f: Rule<C, A>, s: System<C, A>, steps: seq<(Pid, Event<A>)>, s1: System<C, A>, s2: System<C, A>,
                      s3: System<C, A>, s4: System<C, A>, s5: System<C, A>)
    requires |steps| == 5
    requires After(f, s, steps[0].0, steps[0].1) == Some(s1) && After(f, s1, steps[1].0, steps[1].1) == Some(s2)
    requires After(f, s2, steps[2].0, steps[2].1) == Some(s3) && After(f, s3, steps[3].0, steps[3].1) == Some(s4)
    requires After(f, s4, steps[4].0, steps[4].1) == Some(s5)
    ensures Run(f, s, steps) == Some(s5)
  {
    var t1, t2, t3, t4 := steps[1..], steps[2..], steps[3..], steps[4..];
    assert t1[1..] == t2 && t2[1..] == t3 && t3[1..] == t4 && t4[1..] == [];
    assert Run(f, s4, t4) == Some(s5);
    assert Run(f, s3, t3) == Some(s5);
    assert Run(f, s2, t2) == Some(s5);
    assert Run(f, s1, t1) == Some(s5);
  }
}
