/**
 The file lock as a step protocol of many processes over one lock path. Files are inodes:
 a process that has created the lock file writes its pid through the open descriptor, while
 reads and unlinks go through the path. Creation, pid write, read-back, pid read, liveness
 check and unlink are separate steps.
 */
module LockProtocol {
  import opened Wrappers

  type Pid = int
  type Inode = nat

  /** Contents of a lock file; `Blank` is empty or not a number. */
  datatype Content = Blank | Owner(pid: Pid)

  /** Program counter of a process inside acquire, the critical section or outside. */
  datatype Pc =
    | Idle
    | Trying                  // top of the retry loop
    | Created(ino: Inode)     // exclusive create succeeded, pid not written yet
    | Written                 // pid written, not read back yet
    | Holding                 // acquire returned true
    | Contended               // exclusive create failed, contents not read yet
    | ReclaimOwn              // read its own pid, about to unlink
    | CheckAlive(q: Pid)      // read another pid, liveness not checked yet
    | ReclaimDead             // found that pid dead, about to unlink
    | Dead

  /** The lock path, the contents of every inode ever created, and the processes. */
  datatype State = State(path: Option<Inode>, data: map<Inode, Content>, next: Inode, pc: map<Pid, Pc>)

  ghost predicate WellFormed(s: State) {
    && (s.path.Some? ==> s.path.value in s.data)
    && (forall i :: i in s.data ==> i < s.next)
    && (forall p :: p in s.pc && s.pc[p].Created? ==> s.pc[p].ino in s.data)
  }

  ghost predicate Alive(s: State, p: Pid) { p in s.pc && s.pc[p] != Dead }

  ghost function At(s: State, p: Pid, pc: Pc): State { s.(pc := s.pc[p := pc]) }

  /** What the file currently at the lock path contains. */
  ghost function Contents(s: State): Option<Content> {
    if s.path.Some? && s.path.value in s.data then Some(s.data[s.path.value]) else None
  }

  datatype Event =
    | Begin | TimeOut | Create | CreateFails | WritePid | Verify | Read | SeeAlive | SeeDead
    | Unlink | Release | Crash | Restart | Reclaim

  /**
   One step of process `p`. `Crash` and `Restart` belong to the crash model only, `Reclaim` is the
   read, liveness check and unlink of a dead owner's file in one step.
   */
  ghost predicate Step(s: State, t: State, p: Pid, e: Event) {
    && p in s.pc
    && match e
       case Begin => s.pc[p] == Idle && t == At(s, p, Trying)
       case TimeOut => s.pc[p] == Trying && t == At(s, p, Idle)
       case Create =>
         && s.pc[p] == Trying && s.path == None
         && t == At(s, p, Created(s.next)).(path := Some(s.next), data := s.data[s.next := Blank], next := s.next + 1)
       case CreateFails => s.pc[p] == Trying && s.path.Some? && t == At(s, p, Contended)
       case WritePid =>
         && s.pc[p].Created?
         && t == At(s, p, Written).(data := s.data[s.pc[p].ino := Owner(p)])
       case Verify =>
         && s.pc[p] == Written
         && t == At(s, p, if Contents(s) == Some(Owner(p)) then Holding else Trying)
       case Read =>
         && s.pc[p] == Contended
         && t == At(s, p, match Contents(s)
                          case None => Trying
                          case Some(Blank) => Trying
                          case Some(Owner(q)) => if q == p then ReclaimOwn else CheckAlive(q))
       case SeeAlive => s.pc[p].CheckAlive? && Alive(s, s.pc[p].q) && t == At(s, p, Trying)
       case SeeDead => s.pc[p].CheckAlive? && !Alive(s, s.pc[p].q) && t == At(s, p, ReclaimDead)
       case Unlink => s.pc[p] in {ReclaimOwn, ReclaimDead} && t == At(s, p, Trying).(path := None)
       case Release => s.pc[p] == Holding && t == At(s, p, Idle).(path := None)
       case Crash => s.pc[p] != Dead && t == At(s, p, Dead)
       case Restart => s.pc[p] == Dead && t == At(s, p, Idle)
       case Reclaim =>
         && s.pc[p] == Contended
         && Contents(s).Some? && Contents(s).value.Owner?
         && var q := Contents(s).value.pid;
            if q == p || !Alive(s, q) then t == At(s, p, Trying).(path := None) else t == At(s, p, Trying)
  }

  /** All steps split, no process exits. */
  ghost predicate SplitNext(s: State, t: State) {
    exists p, e :: e !in {Crash, Restart, Reclaim} && Step(s, t, p, e)
  }

  /**
   Processes crash anywhere and restart under the same pid; an owner's file is reclaimed in one
   step, so a read that meets an owner is not split off.
   */
  ghost predicate CrashNext(s: State, t: State) {
    exists p, e ::
      && Step(s, t, p, e)
      && !(e == Read && Contents(s).Some? && Contents(s).value.Owner?)
  }

  ghost predicate SplitRun(run: seq<State>) {
    forall i :: 0 <= i < |run| - 1 ==> SplitNext(run[i], run[i + 1])
  }

  ghost predicate CrashRun(run: seq<State>) {
    forall i :: 0 <= i < |run| - 1 ==> CrashNext(run[i], run[i + 1])
  }

  /** At most one process is between a true return of acquire and its release. */
  ghost predicate Exclusive(s: State) {
    forall p, q :: p in s.pc && q in s.pc && s.pc[p] == Holding && s.pc[q] == Holding ==> p == q
  }

  /** Everybody outside or dead; the lock path may hold a leftover file. */
  ghost predicate Initial(s: State) {
    && WellFormed(s)
    && forall p :: p in s.pc ==> s.pc[p] == Idle || s.pc[p] == Dead
  }

  /** A leftover file naming a process that no longer lives. */
  ghost predicate StaleLock(s: State) {
    Contents(s).Some? && Contents(s).value.Owner? && !Alive(s, Contents(s).value.pid)
  }

  // ---------------------------------------------------------------- safety with split steps

  ghost predicate Owning(pc: Pc) { pc.Created? || pc == Written || pc == Holding }

  /** A process that owns the lock sees its own file at the path. */
  ghost predicate OwnFile(s: State, p: Pid)
    requires p in s.pc
  {
    match s.pc[p]
    case Created(i) => s.path == Some(i) && Contents(s) == Some(Blank)
    case Written => Contents(s) == Some(Owner(p))
    case Holding => Contents(s) == Some(Owner(p))
    case _ => true
  }

  ghost predicate OneOwner(s: State) {
    forall p, q :: p in s.pc && q in s.pc && Owning(s.pc[p]) && Owning(s.pc[q]) ==> p == q
  }

  ghost predicate SplitInv(s: State) {
    && WellFormed(s)
    && OneOwner(s)
    && (forall p :: p in s.pc ==> s.pc[p] != ReclaimDead && OwnFile(s, p))
    && (forall p :: p in s.pc && s.pc[p] == ReclaimOwn ==> Contents(s) == Some(Owner(p)))
    && (forall p :: p in s.pc && s.pc[p].CheckAlive? ==> Alive(s, s.pc[p].q))
    && !StaleLock(s)
  }

  lemma SplitInvInit(s: State)
    requires Initial(s) && !StaleLock(s)
    ensures SplitInv(s)
  {
  }

  lemma WellFormedKept(s: State, t: State, p: Pid, e: Event)
    requires WellFormed(s) && Step(s, t, p, e)
    ensures WellFormed(t) && t.pc.Keys == s.pc.Keys && forall q :: q in s.pc && q != p ==> t.pc[q] == s.pc[q]
  {
    assert t.pc.Keys == s.pc.Keys;
  }

  lemma OneOwnerKept(s: State, t: State, p: Pid, e: Event)
    requires WellFormed(s) && OneOwner(s) && Step(s, t, p, e)
    requires forall q :: q in s.pc ==> OwnFile(s, q)
    ensures OneOwner(t)
  {
    WellFormedKept(s, t, p, e);
    forall q | q in t.pc && Owning(t.pc[q]) ensures Owning(s.pc[q]) || (q == p && e == Create) {
    }
    if e == Create {
      forall q | q in s.pc ensures !Owning(s.pc[q]) { assert OwnFile(s, q); }
    }
  }

  /** Whatever step is taken, owners keep seeing their own file, provided nobody reclaims a live one. */
  lemma OwnersKept(s: State, t: State, p: Pid, e: Event)
    requires WellFormed(s) && OneOwner(s) && Step(s, t, p, e)
    requires forall q :: q in s.pc ==> OwnFile(s, q)
    requires e == Unlink ==> forall q :: q in s.pc ==> !Owning(s.pc[q])
    ensures WellFormed(t) && OneOwner(t) && t.pc.Keys == s.pc.Keys
    ensures forall q :: q in t.pc ==> OwnFile(t, q)
  {
    WellFormedKept(s, t, p, e);
    OneOwnerKept(s, t, p, e);
    forall q | q in t.pc ensures OwnFile(t, q) {
      assert OwnFile(s, q);
      assert OwnFile(s, p);
    }
  }

  /** Nobody gets to reclaim another process's file, and no file of a dead owner appears. */
  lemma SplitPendingKept(s: State, t: State, p: Pid, e: Event)
    requires SplitInv(s) && e !in {Crash, Restart, Reclaim} && Step(s, t, p, e)
    ensures forall q :: q in t.pc ==> t.pc[q] != ReclaimDead
    ensures forall q :: q in t.pc && t.pc[q] == ReclaimOwn ==> Contents(t) == Some(Owner(q))
    ensures forall q :: q in t.pc && t.pc[q].CheckAlive? ==> Alive(t, t.pc[q].q)
    ensures !StaleLock(t)
  {
    assert forall q :: q in s.pc && q != p ==> t.pc[q] == s.pc[q];
    assert OwnFile(s, p);
    assert forall q :: Alive(s, q) ==> Alive(t, q);
  }

  lemma SplitInvStep(s: State, t: State, p: Pid, e: Event)
    requires SplitInv(s) && e !in {Crash, Restart, Reclaim} && Step(s, t, p, e)
    ensures SplitInv(t)
  {
    if e == Unlink {
      forall q | q in s.pc ensures !Owning(s.pc[q]) {
        assert OwnFile(s, q);
      }
    }
    OwnersKept(s, t, p, e);
    SplitPendingKept(s, t, p, e);
  }

  lemma {:induction false} SplitRunInv(run: seq<State>, n: nat)
    requires SplitRun(run) && n < |run|
    requires Initial(run[0]) && !StaleLock(run[0])
    ensures SplitInv(run[n])
  {
    if n == 0 {
      SplitInvInit(run[0]);
    } else {
      SplitRunInv(run, n - 1);
      assert SplitNext(run[n - 1], run[n - 1 + 1]);
      var p, e :| e !in {Crash, Restart, Reclaim} && Step(run[n - 1], run[n], p, e);
      SplitInvStep(run[n - 1], run[n], p, e);
    }
  }

  // ---------------------------------------------------------------- safety with crashes

  ghost predicate CrashInv(s: State) {
    && WellFormed(s)
    && OneOwner(s)
    && (forall p :: p in s.pc ==> OwnFile(s, p))
    && (forall p :: p in s.pc ==> s.pc[p] !in {ReclaimOwn, ReclaimDead} && !s.pc[p].CheckAlive?)
  }

  lemma CrashInvStep(s: State, t: State, p: Pid, e: Event)
    requires CrashInv(s) && Step(s, t, p, e)
    requires !(e == Read && Contents(s).Some? && Contents(s).value.Owner?)
    ensures CrashInv(t)
  {
    OwnersKept(s, t, p, e);
  }

  lemma {:induction false} CrashRunInv(run: seq<State>, n: nat)
    requires CrashRun(run) && n < |run| && Initial(run[0])
    ensures CrashInv(run[n])
  {
    if n > 0 {
      CrashRunInv(run, n - 1);
      assert CrashNext(run[n - 1], run[n - 1 + 1]);
      var p, e :| Step(run[n - 1], run[n], p, e)
        && !(e == Read && Contents(run[n - 1]).Some? && Contents(run[n - 1]).value.Owner?);
      CrashInvStep(run[n - 1], run[n], p, e);
    }
  }

  /**
   With crashes and restarts anywhere and reclaim in one step, exclusion holds over every run from
   every leftover file: empty, garbage, or naming a dead, live or restarting process.
   */
  lemma CrashMutualExclusion(run: seq<State>, n: nat)
    requires CrashRun(run) && n < |run| && Initial(run[0])
    ensures Exclusive(run[n])
  {
    CrashRunInv(run, n);
  }

  // ---------------------------------------------------------------- the exact condition for split steps

  ghost predicate SplitReaches(s: State, t: State) {
    exists run: seq<State> :: SplitRun(run) && |run| > 0 && run[0] == s && run[|run| - 1] == t
  }

  lemma SplitReachesStep(s: State, t: State, u: State, p: Pid, e: Event)
    requires SplitReaches(s, t) && Step(t, u, p, e) && e !in {Crash, Restart, Reclaim}
    ensures SplitReaches(s, u)
  {
    var run: seq<State> :| SplitRun(run) && |run| > 0 && run[0] == s && run[|run| - 1] == t;
    var more := run + [u];
    forall i | 0 <= i < |more| - 1 ensures SplitNext(more[i], more[i + 1]) {
      assert i < |run| - 1 ==> SplitNext(run[i], run[i + 1]);
    }
    assert SplitRun(more) && more[0] == s && more[|more| - 1] == u;
  }

  /** An idle process that meets a dead owner's file gets ready to unlink it. */
  lemma MeetDeadOwner(s: State, t: State, p: Pid)
    requires SplitReaches(s, t) && StaleLock(t) && p in t.pc && t.pc[p] == Idle
    ensures SplitReaches(s, At(t, p, ReclaimDead)) && StaleLock(At(t, p, ReclaimDead))
  {
    var d := Contents(t).value.pid;
    var t1, t2, t3, t4 := At(t, p, Trying), At(t, p, Contended), At(t, p, CheckAlive(d)), At(t, p, ReclaimDead);
    SplitReachesStep(s, t, t1, p, Begin);
    SplitReachesStep(s, t1, t2, p, CreateFails);
    SplitReachesStep(s, t2, t3, p, Read);
    SplitReachesStep(s, t3, t4, p, SeeDead);
  }

  /** A process about to unlink goes on to hold the lock, whatever file is there by now. */
  lemma UnlinkAndTake(s: State, t: State, p: Pid) returns (u: State)
    requires SplitReaches(s, t) && p in t.pc && t.pc[p] == ReclaimDead
    ensures SplitReaches(s, u) && u.pc == t.pc[p := Holding]
  {
    var i := t.next;
    var t1 := At(t, p, Trying).(path := None);
    var t2 := At(t1, p, Created(i)).(path := Some(i), data := t.data[i := Blank], next := i + 1);
    var t3 := At(t2, p, Written).(data := t2.data[i := Owner(p)]);
    u := At(t3, p, Holding);
    SplitReachesStep(s, t, t1, p, Unlink);
    SplitReachesStep(s, t1, t2, p, Create);
    SplitReachesStep(s, t2, t3, p, WritePid);
    SplitReachesStep(s, t3, u, p, Verify);
  }

  /** Two live processes and a dead owner's file: with all steps split, exclusion fails. */
  lemma StaleLockBreaksExclusion(s: State, p: Pid, q: Pid)
    requires Initial(s) && StaleLock(s)
    requires Alive(s, p) && Alive(s, q) && p != q
    ensures exists t :: SplitReaches(s, t) && !Exclusive(t)
  {
    assert SplitRun([s]) && [s][0] == s;
    MeetDeadOwner(s, s, p);
    var s1 := At(s, p, ReclaimDead);
    MeetDeadOwner(s, s1, q);
    var s2 := UnlinkAndTake(s, At(s1, q, ReclaimDead), q);
    var s3 := UnlinkAndTake(s, s2, p);
    assert s3.pc[p] == Holding && s3.pc[q] == Holding;
  }

  /**
   With all steps split, no exits and at least two live processes, every reachable state keeps mutual
   exclusion exactly when no file of a dead owner lies at the lock path at the start.
   */
  lemma SplitMutualExclusionIff(s: State, p: Pid, q: Pid)
    requires Initial(s) && Alive(s, p) && Alive(s, q) && p != q
    ensures (forall t :: SplitReaches(s, t) ==> Exclusive(t)) <==> !StaleLock(s)
  {
    if StaleLock(s) {
      StaleLockBreaksExclusion(s, p, q);
    } else {
      forall t | SplitReaches(s, t) ensures Exclusive(t) {
        var run: seq<State> :| SplitRun(run) && |run| > 0 && run[0] == s && run[|run| - 1] == t;
        SplitRunInv(run, |run| - 1);
      }
    }
  }

  /** The smallest such start: two idle processes and a file that names a third, which is gone. */
  lemma StaleLockExample()
    ensures exists t :: SplitReaches(State(Some(0), map[0 := Owner(7)], 1, map[1 := Idle, 2 := Idle]), t) && !Exclusive(t)
  {
    var s := State(Some(0), map[0 := Owner(7)], 1, map[1 := Idle, 2 := Idle]);
    assert Initial(s) && StaleLock(s) && Alive(s, 1) && Alive(s, 2);
    StaleLockBreaksExclusion(s, 1, 2);
  }

  // ---------------------------------------------------------------- who can ever hold the lock

  ghost predicate CrashReaches(s: State, t: State) {
    exists run: seq<State> :: CrashRun(run) && |run| > 0 && run[0] == s && run[|run| - 1] == t
  }

  lemma CrashReachesStep(s: State, t: State, u: State, p: Pid, e: Event)
    requires CrashReaches(s, t) && Step(t, u, p, e)
    requires !(e == Read && Contents(t).Some? && Contents(t).value.Owner?)
    ensures CrashReaches(s, u)
  {
    var run: seq<State> :| CrashRun(run) && |run| > 0 && run[0] == s && run[|run| - 1] == t;
    var more := run + [u];
    forall i | 0 <= i < |more| - 1 ensures CrashNext(more[i], more[i + 1]) {
      assert i < |run| - 1 ==> CrashNext(run[i], run[i + 1]);
    }
    assert CrashRun(more) && more[0] == s && more[|more| - 1] == u;
  }

  /** With no file at the path a process at the top of its loop gets the lock. */
  lemma TakesFreeLock(s: State, t: State, p: Pid) returns (u: State)
    requires CrashReaches(s, t) && p in t.pc && t.pc[p] == Trying && t.path == None
    ensures CrashReaches(s, u) && p in u.pc && u.pc[p] == Holding
  {
    var i := t.next;
    var t1 := At(t, p, Created(i)).(path := Some(i), data := t.data[i := Blank], next := i + 1);
    var t2 := At(t1, p, Written).(data := t1.data[i := Owner(p)]);
    u := At(t2, p, Holding);
    CrashReachesStep(s, t, t1, p, Create);
    CrashReachesStep(s, t1, t2, p, WritePid);
    CrashReachesStep(s, t2, u, p, Verify);
  }

  /** A file that names a dead process, or the process itself, is reclaimed first. */
  lemma ReclaimsAndTakes(s: State, t: State, p: Pid) returns (u: State)
    requires CrashReaches(s, t) && p in t.pc && t.pc[p] == Trying
    requires Contents(t).Some? && Contents(t).value.Owner?
    requires Contents(t).value.pid == p || !Alive(t, Contents(t).value.pid)
    ensures CrashReaches(s, u) && p in u.pc && u.pc[p] == Holding
  {
    var t1 := At(t, p, Contended);
    var t2 := At(t1, p, Trying).(path := None);
    CrashReachesStep(s, t, t1, p, CreateFails);
    CrashReachesStep(s, t1, t2, p, Reclaim);
    u := TakesFreeLock(s, t2, p);
  }

  /** Nobody can get past a file that is empty or no number. */
  ghost predicate Stuck(s: State) {
    Contents(s) == Some(Blank) && forall p :: p in s.pc ==> s.pc[p] in {Idle, Trying, Contended, Dead}
  }

  lemma StuckStep(s: State, t: State, p: Pid, e: Event)
    requires Stuck(s) && Step(s, t, p, e)
    ensures Stuck(t)
  {
  }

  lemma {:induction false} StuckRun(run: seq<State>, n: nat)
    requires CrashRun(run) && n < |run| && Stuck(run[0])
    ensures Stuck(run[n])
  {
    if n > 0 {
      StuckRun(run, n - 1);
      assert CrashNext(run[n - 1], run[n - 1 + 1]);
      var p, e :| Step(run[n - 1], run[n], p, e)
        && !(e == Read && Contents(run[n - 1]).Some? && Contents(run[n - 1]).value.Owner?);
      StuckStep(run[n - 1], run[n], p, e);
    }
  }

  lemma HoldsSometime(s: State, p: Pid) returns (u: State)
    requires Initial(s) && p in s.pc && s.pc[p] == Idle && Contents(s) != Some(Blank)
    ensures CrashReaches(s, u) && p in u.pc && u.pc[p] == Holding
  {
    assert CrashRun([s]) && [s][0] == s;
    var t := At(s, p, Trying);
    CrashReachesStep(s, s, t, p, Begin);
    if s.path == None {
      u := TakesFreeLock(s, t, p);
    } else {
      var q := Contents(s).value.pid;
      if q == p || !Alive(t, q) {
        u := ReclaimsAndTakes(s, t, p);
      } else {
        CrashReachesStep(s, t, At(t, q, Dead), q, Crash);
        u := ReclaimsAndTakes(s, At(t, q, Dead), p);
      }
    }
  }

  /**
   A live process can get the lock in some run exactly when the file left at the path is not empty or garbage: such a
   file is never reclaimed, and everyone times out on it for good.
   */
  lemma HoldableIff(s: State, p: Pid)
    requires Initial(s) && p in s.pc && s.pc[p] == Idle
    ensures (exists t :: CrashReaches(s, t) && p in t.pc && t.pc[p] == Holding) <==> Contents(s) != Some(Blank)
  {
    if Contents(s) != Some(Blank) {
      var u := HoldsSometime(s, p);
    } else {
      forall t | CrashReaches(s, t) && p in t.pc ensures t.pc[p] != Holding {
        var run: seq<State> :| CrashRun(run) && |run| > 0 && run[0] == s && run[|run| - 1] == t;
        StuckRun(run, |run| - 1);
      }
    }
  }

  // ---------------------------------------------------------------- the abstract lock

  /** The process that holds the lock, if any. */
  ghost function Holder(s: State): (h: Option<Pid>)
    requires Exclusive(s)
    ensures h.Some? ==> h.value in s.pc && s.pc[h.value] == Holding
    ensures h.None? ==> forall p :: p in s.pc ==> s.pc[p] != Holding
  {
    if p :| p in s.pc && s.pc[p] == Holding then
      assert forall q :: q in s.pc && s.pc[q] == Holding ==> q == p;
      Some(p)
    else None
  }

  /** Every step of the crash model is a step of the abstract lock: ownership never passes directly. */
  lemma CrashRefinesAbstractLock(s: State, t: State, p: Pid, e: Event)
    requires CrashInv(s) && Step(s, t, p, e)
    requires !(e == Read && Contents(s).Some? && Contents(s).value.Owner?)
    ensures CrashInv(t) && Exclusive(s) && Exclusive(t)
    ensures Holder(s) == Holder(t) || Holder(s).None? || Holder(t).None?
    ensures Holder(t) != Holder(s) ==> Holder(t) == Some(p) || Holder(s) == Some(p)
  {
    CrashInvStep(s, t, p, e);
    OthersHold(s, t, p, e);
  }

  lemma OthersHold(s: State, t: State, p: Pid, e: Event)
    requires Step(s, t, p, e)
    ensures forall q :: q != p ==> ((q in t.pc && t.pc[q] == Holding) <==> (q in s.pc && s.pc[q] == Holding))
  {
  }
}
