/**
 The keyed appenders over the lock files themselves: every step of taking and releasing a lock is a step of
 LockProtocol on the lock file of the appender's key, and only a verified pid lets an appender go on under the lock.
 A dead owner's file is reclaimed in one step. Every behaviour of this system is one of KeyedAppend, so its results
 hold with the lock files in place of the abstract lock.
 */
module LockedAppend {
  import opened Wrappers
  import opened Json
  import opened RecordStore
  import K = KeyedAppend
  import L = LockProtocol

  type JobId = K.JobId

  /** The appenders, with `store.holder` as a record of who took which lock, and one lock file for each key. */
  datatype State = State(store: K.State, locks: map<Text, L.State>)

  datatype Event =
    | Inner(l: L.Event)   // inside acquire
    | Took                // acquire returns true
    | GaveUp              // acquire returns false
    | Body(e: K.Event)    // a step of the scan or the write
    | Left                // release, or nothing to release
    | Died

  ghost predicate IsInner(e: L.Event) { e in {L.Begin, L.Create, L.CreateFails, L.WritePid, L.Verify, L.Read, L.Reclaim} }

  ghost predicate IsBody(e: K.Event) { !e.Lock? && !e.TimeOut? && !e.Leave? && !e.Crash? && !e.Reclaim? }

  /** A read that meets an owner is not split from the liveness check and the unlink. */
  ghost predicate Whole(l: L.State, e: L.Event) {
    !(e == L.Read && L.Contents(l).Some? && L.Contents(l).value.Owner?)
  }

  /** Only the lock of `key` moves, by a step of `j`. */
  ghost predicate LockMoves(s: State, t: State, key: Text, j: JobId, le: L.Event) {
    && key in s.locks && key in t.locks && t.locks == s.locks[key := t.locks[key]]
    && L.Step(s.locks[key], t.locks[key], j, le) && Whole(s.locks[key], le)
  }

  ghost predicate Acquires(s: State, t: State, key: Text, j: JobId, le: L.Event) {
    LockMoves(s, t, key, j, le) && IsInner(le) && t.locks[key].pc[j] != L.Holding && t.store == s.store
  }

  ghost predicate Takes(s: State, t: State, key: Text, j: JobId) {
    && LockMoves(s, t, key, j, L.Verify) && t.locks[key].pc[j] == L.Holding
    && t.store == K.At(s.store, j, K.Listing(true)).(holder := s.store.holder[key := j])
  }

  ghost predicate GivesUp(s: State, t: State, key: Text, j: JobId) {
    LockMoves(s, t, key, j, L.TimeOut) && t.store == K.At(s.store, j, K.Listing(false))
  }

  ghost predicate Leaves(s: State, t: State, key: Text, j: JobId, pc: K.Pc)
    requires pc.Leaving?
  {
    && (if pc.locked then LockMoves(s, t, key, j, L.Release) else t.locks == s.locks)
    && t.store == K.At(s.store, j, K.Finished(pc.result))
                   .(holder := if pc.locked then s.store.holder - {key} else s.store.holder)
  }

  ghost predicate Dies(s: State, t: State, key: Text, j: JobId) {
    && t.locks.Keys == s.locks.Keys
    && (forall k :: k in s.locks ==> L.Step(s.locks[k], t.locks[k], j, L.Crash))
    && t.store == K.At(s.store, j, K.Crashed)
                   .(holder := if key in s.store.holder && s.store.holder[key] == j
                               then s.store.holder - {key} else s.store.holder)
  }

  ghost predicate Step(c: K.Config, s: State, t: State, j: JobId, e: Event) {
    && j in c.jobs && j in s.store.pc
    && var key, pc := c.jobs[j].key, s.store.pc[j];
       match e
       case Inner(le) => pc.Start? && Acquires(s, t, key, j, le)
       case Took => pc.Start? && Takes(s, t, key, j)
       case GaveUp => pc.Start? && GivesUp(s, t, key, j)
       case Body(be) => IsBody(be) && t.locks == s.locks && K.Step(c, s.store, t.store, j, be)
       case Left => pc.Leaving? && Leaves(s, t, key, j, pc)
       case Died => !pc.Finished? && !pc.Crashed? && Dies(s, t, key, j)
  }

  ghost predicate Allowed(c: K.Config, s: State, j: JobId, e: Event, f: K.Faults) {
    (e.GaveUp? ==> f.timeOuts) && (e.Body? ==> K.Allowed(c, s.store, j, e.e, f))
  }

  ghost predicate Next(c: K.Config, s: State, t: State, f: K.Faults) {
    exists j, e :: Step(c, s, t, j, e) && Allowed(c, s, j, e, f)
  }

  /** Nobody has begun; the lock paths may hold leftover files. */
  ghost predicate Initial(c: K.Config, s: State) {
    && K.Initial(c, s.store)
    && (forall j :: j in c.jobs ==> c.jobs[j].key in s.locks)
    && (forall k :: k in s.locks ==>
          && L.Initial(s.locks[k]) && s.locks[k].pc.Keys == c.jobs.Keys
          && forall j :: j in c.jobs ==> s.locks[k].pc[j] == L.Idle)
  }

  ghost predicate Run(c: K.Config, run: seq<State>, f: K.Faults) {
    && |run| > 0
    && Initial(c, run[0])
    && forall i :: 0 <= i < |run| - 1 ==> Next(c, run[i], run[i + 1], f)
  }

  // ---------------------------------------------------------------- the link between locks and appenders

  /** Nothing but the entry of `j` differs. */
  ghost predicate OnlyAt<V(!new)>(before: map<JobId, V>, after: map<JobId, V>, j: JobId) {
    after.Keys == before.Keys && forall i :: i in before && i != j ==> after[i] == before[i]
  }

  /** How an appender stands to one lock, its own or another's. */
  ghost predicate LinkOk(at: L.Pc, pc: K.Pc, own: bool) {
    (at == L.Holding <==> own && K.InLock(pc)) && (at == L.Dead <==> pc.Crashed?)
  }

  ghost predicate LocksOk(c: K.Config, locks: map<Text, L.State>) {
    && (forall j :: j in c.jobs ==> c.jobs[j].key in locks)
    && (forall k :: k in locks ==> L.CrashInv(locks[k]) && locks[k].pc.Keys == c.jobs.Keys)
  }

  ghost predicate LinksOk(c: K.Config, s: State)
    requires LocksOk(c, s.locks) && K.Valid(c, s.store)
  {
    forall k, j :: k in s.locks && j in c.jobs ==> LinkOk(s.locks[k].pc[j], s.store.pc[j], k == c.jobs[j].key)
  }

  /** Who is on record as a lock's holder is inside it. */
  ghost predicate HoldersOk(c: K.Config, s: K.State)
    requires K.Valid(c, s)
  {
    forall k :: k in s.holder ==> c.jobs[s.holder[k]].key == k && K.InLock(s.pc[s.holder[k]])
  }

  ghost predicate Linked(c: K.Config, s: State) {
    K.Valid(c, s.store) && LocksOk(c, s.locks) && LinksOk(c, s) && HoldersOk(c, s.store)
  }

  lemma InitialLock(l: L.State)
    requires L.Initial(l)
    ensures L.CrashInv(l)
  {
  }

  lemma InitialLinked(c: K.Config, s: State)
    requires Initial(c, s)
    ensures Linked(c, s)
  {
    forall k | k in s.locks ensures L.CrashInv(s.locks[k]) { InitialLock(s.locks[k]); }
    InitialLinks(c, s);
  }

  lemma InitialLinks(c: K.Config, s: State)
    requires LocksOk(c, s.locks) && K.Valid(c, s.store)
    requires forall j :: j in s.store.pc ==> s.store.pc[j] == K.Start
    requires forall k, j :: k in s.locks && j in c.jobs ==> s.locks[k].pc[j] == L.Idle
    ensures LinksOk(c, s)
  {
  }

  /** A step on one lock keeps that lock's invariant and every other process where it was. */
  lemma LockStep(l: L.State, l': L.State, j: JobId, e: L.Event)
    requires L.CrashInv(l) && L.Step(l, l', j, e) && Whole(l, e)
    ensures L.CrashInv(l') && OnlyAt(l.pc, l'.pc, j) && j in l.pc
  {
    L.CrashInvStep(l, l', j, e);
  }

  lemma InnerAlive(l: L.State, l': L.State, j: JobId, e: L.Event)
    requires L.Step(l, l', j, e) && (IsInner(e) || e == L.TimeOut || e == L.Release)
    ensures l'.pc[j] != L.Dead
    ensures e == L.TimeOut || e == L.Release ==> l'.pc[j] == L.Idle
  {
  }

  /** What a step of the scan or the write does to its appender. */
  lemma BodyStep(c: K.Config, s: K.State, t: K.State, j: JobId, e: K.Event)
    requires K.Valid(c, s) && K.Step(c, s, t, j, e) && IsBody(e)
    ensures OnlyAt(s.pc, t.pc, j) && t.holder == s.holder
    ensures K.InLock(t.pc[j]) == K.InLock(s.pc[j]) && !t.pc[j].Crashed? && !s.pc[j].Crashed?
  {
  }

  /** One appender and its own lock moved. */
  ghost predicate Moved(c: K.Config, s: State, t: State, j: JobId) {
    && j in c.jobs && c.jobs[j].key in s.locks
    && var key := c.jobs[j].key;
    && t.locks.Keys == s.locks.Keys && (forall k :: k in s.locks && k != key ==> t.locks[k] == s.locks[k])
    && j in t.locks[key].pc && OnlyAt(s.locks[key].pc, t.locks[key].pc, j)
    && j in s.store.pc && j in t.store.pc && OnlyAt(s.store.pc, t.store.pc, j)
    && LinkOk(t.locks[key].pc[j], t.store.pc[j], true)
    && t.store.pc[j].Crashed? == s.store.pc[j].Crashed?
  }

  lemma LocksMoved(c: K.Config, s: State, t: State, j: JobId)
    requires LocksOk(c, s.locks) && Moved(c, s, t, j) && L.CrashInv(t.locks[c.jobs[j].key])
    ensures LocksOk(c, t.locks)
  {
    assert j in s.locks[c.jobs[j].key].pc;
  }

  lemma LinkMoved(c: K.Config, s: State, t: State, j: JobId, k: Text, i: JobId)
    requires Moved(c, s, t, j) && k in t.locks && i in c.jobs
    requires i in s.locks[k].pc && i in t.locks[k].pc && i in s.store.pc && i in t.store.pc
    requires LinkOk(s.locks[k].pc[i], s.store.pc[i], k == c.jobs[i].key)
    requires k != c.jobs[j].key ==> !K.InLock(t.store.pc[j]) || i != j || !(k == c.jobs[i].key)
    ensures LinkOk(t.locks[k].pc[i], t.store.pc[i], k == c.jobs[i].key)
  {
  }

  lemma LinksMoved(c: K.Config, s: State, t: State, j: JobId)
    requires Linked(c, s) && Moved(c, s, t, j) && K.Valid(c, t.store) && L.CrashInv(t.locks[c.jobs[j].key])
    ensures LocksOk(c, t.locks) && LinksOk(c, t)
  {
    LocksMoved(c, s, t, j);
    forall k, i | k in t.locks && i in c.jobs ensures LinkOk(t.locks[k].pc[i], t.store.pc[i], k == c.jobs[i].key) {
      LinkOf(c, s, k, i);
      LinkMoved(c, s, t, j, k, i);
    }
  }

  lemma LinkOf(c: K.Config, s: State, k: Text, i: JobId)
    requires LocksOk(c, s.locks) && K.Valid(c, s.store) && LinksOk(c, s) && k in s.locks && i in c.jobs
    ensures LinkOk(s.locks[k].pc[i], s.store.pc[i], k == c.jobs[i].key)
  {
  }

  lemma HoldersHold(c: K.Config, s: State, k: Text)
    requires Linked(c, s) && k in s.locks
    ensures k in s.store.holder ==> s.store.holder[k] in s.locks[k].pc && s.locks[k].pc[s.store.holder[k]] == L.Holding
  {
    if k in s.store.holder {
      var i := s.store.holder[k];
      LinkOf(c, s, k, i);
    }
  }

  lemma HoldingUnique(l: L.State, i: JobId, j: JobId)
    requires L.CrashInv(l) && i != j && i in l.pc && j in l.pc && l.pc[i] == L.Holding
    ensures l.pc[j] != L.Holding
  {
    assert L.Owning(l.pc[i]);
  }

  lemma NobodyHeld(l: L.State, l': L.State, j: JobId, i: JobId)
    requires L.CrashInv(l) && L.Step(l, l', j, L.Verify) && l'.pc[j] == L.Holding && i in l.pc
    ensures l.pc[i] != L.Holding
  {
    LockStep(l, l', j, L.Verify);
    if i != j { HoldingUnique(l', j, i); }
  }

  /** The lock a process is about to hold has no holder on record. */
  lemma TookIsFree(c: K.Config, s: State, t: State, j: JobId)
    requires Linked(c, s) && Step(c, s, t, j, Took)
    ensures c.jobs[j].key !in s.store.holder
  {
    var key := c.jobs[j].key;
    if key in s.store.holder {
      NobodyHeld(s.locks[key], t.locks[key], j, s.store.holder[key]);
      HoldersHold(c, s, key);
    }
  }

  // ---------------------------------------------------------------- every step is one of KeyedAppend, or none, or two

  lemma AtOnly(s: K.State, j: JobId, pc: K.Pc, holder: map<Text, JobId>)
    requires j in s.pc
    ensures OnlyAt(s.pc, K.At(s, j, pc).(holder := holder).pc, j) && K.At(s, j, pc).(holder := holder).pc[j] == pc
    ensures OnlyAt(s.pc, K.At(s, j, pc).pc, j) && K.At(s, j, pc).pc[j] == pc
  {
  }

  /** A step on an appender's own lock, and what it means for the appender. */
  lemma LockMoved(c: K.Config, s: State, t: State, j: JobId, le: L.Event)
    requires LocksOk(c, s.locks) && j in c.jobs && LockMoves(s, t, c.jobs[j].key, j, le)
    requires j in t.locks[c.jobs[j].key].pc && j in s.store.pc && j in t.store.pc && OnlyAt(s.store.pc, t.store.pc, j)
    requires LinkOk(t.locks[c.jobs[j].key].pc[j], t.store.pc[j], true)
    requires t.store.pc[j].Crashed? == s.store.pc[j].Crashed?
    ensures Moved(c, s, t, j) && L.CrashInv(t.locks[c.jobs[j].key])
  {
    OneLock(s.locks, t.locks, c.jobs[j].key);
    LockStep(s.locks[c.jobs[j].key], t.locks[c.jobs[j].key], j, le);
  }

  lemma OneLock(locks: map<Text, L.State>, locks': map<Text, L.State>, key: Text)
    requires key in locks && key in locks' && locks' == locks[key := locks'[key]]
    ensures locks'.Keys == locks.Keys && forall k :: k in locks && k != key ==> locks'[k] == locks[k]
  {
  }

  lemma TookMoved(c: K.Config, s: State, t: State, j: JobId)
    requires LocksOk(c, s.locks) && K.Valid(c, s.store) && j in c.jobs && s.store.pc[j].Start?
    requires Takes(s, t, c.jobs[j].key, j)
    ensures Moved(c, s, t, j) && L.CrashInv(t.locks[c.jobs[j].key])
  {
    AtOnly(s.store, j, K.Listing(true), s.store.holder[c.jobs[j].key := j]);
    LockMoved(c, s, t, j, L.Verify);
  }

  lemma TookHolders(c: K.Config, s: K.State, t: K.State, j: JobId)
    requires K.Valid(c, s) && HoldersOk(c, s) && j in c.jobs && s.pc[j].Start?
    requires t == K.At(s, j, K.Listing(true)).(holder := s.holder[c.jobs[j].key := j])
    ensures K.Valid(c, t) && HoldersOk(c, t)
  {
  }

  lemma TookLinked(c: K.Config, s: State, t: State, j: JobId)
    requires Linked(c, s) && Step(c, s, t, j, Took)
    ensures Linked(c, t)
  {
    TookMoved(c, s, t, j);
    TookHolders(c, s.store, t.store, j);
    LinksMoved(c, s, t, j);
  }

  lemma TookSimulated(c: K.Config, s: State, t: State, j: JobId)
    requires Linked(c, s) && Step(c, s, t, j, Took)
    ensures K.Step(c, s.store, t.store, j, K.Lock)
  {
    TookIsFree(c, s, t, j);
  }

  lemma InnerMoved(c: K.Config, s: State, t: State, j: JobId, le: L.Event)
    requires LocksOk(c, s.locks) && K.Valid(c, s.store) && j in c.jobs && s.store.pc[j].Start?
    requires Acquires(s, t, c.jobs[j].key, j, le)
    ensures Moved(c, s, t, j) && L.CrashInv(t.locks[c.jobs[j].key]) && t.store == s.store
  {
    InnerAlive(s.locks[c.jobs[j].key], t.locks[c.jobs[j].key], j, le);
    LockMoved(c, s, t, j, le);
  }

  lemma InnerSimulated(c: K.Config, s: State, t: State, j: JobId, le: L.Event)
    requires Linked(c, s) && Step(c, s, t, j, Inner(le))
    ensures Linked(c, t)
  {
    InnerMoved(c, s, t, j, le);
    LinksMoved(c, s, t, j);
  }

  lemma GaveUpMoved(c: K.Config, s: State, t: State, j: JobId)
    requires LocksOk(c, s.locks) && K.Valid(c, s.store) && j in c.jobs && s.store.pc[j].Start?
    requires GivesUp(s, t, c.jobs[j].key, j)
    ensures Moved(c, s, t, j) && L.CrashInv(t.locks[c.jobs[j].key])
  {
    InnerAlive(s.locks[c.jobs[j].key], t.locks[c.jobs[j].key], j, L.TimeOut);
    AtOnly(s.store, j, K.Listing(false), map[]);
    LockMoved(c, s, t, j, L.TimeOut);
  }

  lemma StartHoldsNothing(c: K.Config, s: K.State, t: K.State, j: JobId)
    requires K.Valid(c, s) && HoldersOk(c, s) && j in c.jobs && s.pc[j].Start?
    requires t == K.At(s, j, K.Listing(false))
    ensures K.Valid(c, t) && HoldersOk(c, t)
  {
  }

  lemma GaveUpLinked(c: K.Config, s: State, t: State, j: JobId)
    requires Linked(c, s) && Step(c, s, t, j, GaveUp)
    ensures Linked(c, t)
  {
    GaveUpMoved(c, s, t, j);
    StartHoldsNothing(c, s.store, t.store, j);
    LinksMoved(c, s, t, j);
  }

  lemma BodyMoved(c: K.Config, s: State, t: State, j: JobId)
    requires LocksOk(c, s.locks) && K.Valid(c, s.store) && LinksOk(c, s) && j in c.jobs && t.locks == s.locks
    requires j in t.store.pc && OnlyAt(s.store.pc, t.store.pc, j)
    requires K.InLock(t.store.pc[j]) == K.InLock(s.store.pc[j]) && !t.store.pc[j].Crashed? && !s.store.pc[j].Crashed?
    ensures Moved(c, s, t, j) && L.CrashInv(t.locks[c.jobs[j].key])
  {
    var key := c.jobs[j].key;
    LinkOf(c, s, key, j);
    assert OnlyAt(s.locks[key].pc, t.locks[key].pc, j);
  }

  lemma BodyHolders(c: K.Config, s: K.State, t: K.State, j: JobId)
    requires K.Valid(c, s) && HoldersOk(c, s) && j in c.jobs && j in t.pc
    requires OnlyAt(s.pc, t.pc, j) && t.holder == s.holder && K.InLock(t.pc[j]) == K.InLock(s.pc[j])
    ensures K.Valid(c, t) && HoldersOk(c, t)
  {
    forall k | k in t.holder ensures c.jobs[t.holder[k]].key == k && K.InLock(t.pc[t.holder[k]]) {
      var i := s.holder[k];
      assert c.jobs[i].key == k && K.InLock(s.pc[i]);
      assert i != j ==> t.pc[i] == s.pc[i];
    }
  }

  lemma BodySimulated(c: K.Config, s: State, t: State, j: JobId, e: K.Event)
    requires Linked(c, s) && t.locks == s.locks && K.Step(c, s.store, t.store, j, e) && IsBody(e)
    ensures Linked(c, t)
  {
    BodyStep(c, s.store, t.store, j, e);
    BodyMoved(c, s, t, j);
    BodyHolders(c, s.store, t.store, j);
    LinksMoved(c, s, t, j);
  }

  lemma LeftAt(s: State, t: State, key: Text, j: JobId, pc: K.Pc)
    requires pc.Leaving? && j in s.store.pc && Leaves(s, t, key, j, pc)
    ensures j in t.store.pc && t.store.pc[j] == K.Finished(pc.result) && OnlyAt(s.store.pc, t.store.pc, j)
  {
    AtOnly(s.store, j, K.Finished(pc.result), t.store.holder);
  }

  lemma ReleasedMoved(c: K.Config, s: State, t: State, j: JobId)
    requires LocksOk(c, s.locks) && K.Valid(c, s.store) && j in c.jobs && s.store.pc[j].Leaving?
    requires s.store.pc[j].locked && Leaves(s, t, c.jobs[j].key, j, s.store.pc[j])
    ensures Moved(c, s, t, j) && L.CrashInv(t.locks[c.jobs[j].key])
  {
    LeftAt(s, t, c.jobs[j].key, j, s.store.pc[j]);
    InnerAlive(s.locks[c.jobs[j].key], t.locks[c.jobs[j].key], j, L.Release);
    LockMoved(c, s, t, j, L.Release);
  }

  lemma UnlockedMoved(c: K.Config, s: State, t: State, j: JobId)
    requires LocksOk(c, s.locks) && K.Valid(c, s.store) && LinksOk(c, s) && j in c.jobs && s.store.pc[j].Leaving?
    requires !s.store.pc[j].locked && Leaves(s, t, c.jobs[j].key, j, s.store.pc[j])
    ensures Moved(c, s, t, j) && L.CrashInv(t.locks[c.jobs[j].key])
  {
    LeftAt(s, t, c.jobs[j].key, j, s.store.pc[j]);
    BodyMoved(c, s, t, j);
  }

  lemma LeftHolders(c: K.Config, s: K.State, t: K.State, j: JobId)
    requires K.Valid(c, s) && HoldersOk(c, s) && j in c.jobs && s.pc[j].Leaving?
    requires t == K.At(s, j, K.Finished(s.pc[j].result))
                  .(holder := if s.pc[j].locked then s.holder - {c.jobs[j].key} else s.holder)
    ensures K.Valid(c, t) && HoldersOk(c, t)
  {
    forall k | k in t.holder ensures c.jobs[t.holder[k]].key == k && K.InLock(t.pc[t.holder[k]]) {
      assert c.jobs[s.holder[k]].key == k && K.InLock(s.pc[s.holder[k]]);
    }
  }

  lemma LeftSimulated(c: K.Config, s: State, t: State, j: JobId)
    requires Linked(c, s) && Step(c, s, t, j, Left)
    ensures K.Step(c, s.store, t.store, j, K.Leave) && Linked(c, t)
  {
    if s.store.pc[j].locked { ReleasedMoved(c, s, t, j); } else { UnlockedMoved(c, s, t, j); }
    LeftHolders(c, s.store, t.store, j);
    LinksMoved(c, s, t, j);
  }

  lemma DiedLock(l: L.State, l': L.State, j: JobId)
    requires L.CrashInv(l) && L.Step(l, l', j, L.Crash)
    ensures L.CrashInv(l') && j in l.pc && l'.pc == l.pc[j := L.Dead]
  {
    L.CrashInvStep(l, l', j, L.Crash);
  }

  lemma DiedLocks(c: K.Config, locks: map<Text, L.State>, locks': map<Text, L.State>, j: JobId)
    requires LocksOk(c, locks) && locks'.Keys == locks.Keys
    requires forall k :: k in locks ==> L.Step(locks[k], locks'[k], j, L.Crash)
    ensures LocksOk(c, locks')
    ensures forall k :: k in locks ==> locks'[k].pc == locks[k].pc[j := L.Dead]
  {
    forall k | k in locks ensures L.CrashInv(locks'[k]) && j in locks[k].pc && locks'[k].pc == locks[k].pc[j := L.Dead] {
      DiedLock(locks[k], locks'[k], j);
    }
  }

  lemma DiedLinks(c: K.Config, s: State, t: State, j: JobId)
    requires LocksOk(c, s.locks) && K.Valid(c, s.store) && LinksOk(c, s)
    requires LocksOk(c, t.locks) && K.Valid(c, t.store) && t.locks.Keys == s.locks.Keys
    requires t.store.pc == s.store.pc[j := K.Crashed]
    requires forall k :: k in s.locks ==> t.locks[k].pc == s.locks[k].pc[j := L.Dead]
    ensures LinksOk(c, t)
  {
    forall k, i | k in t.locks && i in c.jobs ensures LinkOk(t.locks[k].pc[i], t.store.pc[i], k == c.jobs[i].key) {
      LinkOf(c, s, k, i);
      DiedLink(s.locks[k].pc, t.locks[k].pc, s.store.pc, t.store.pc, i, j, k == c.jobs[i].key);
    }
  }

  lemma DiedLink(at: map<JobId, L.Pc>, at': map<JobId, L.Pc>, pc: map<JobId, K.Pc>, pc': map<JobId, K.Pc>, i: JobId,
                 j: JobId, own: bool)
    requires at' == at[j := L.Dead] && pc' == pc[j := K.Crashed] && i in at && i in pc && LinkOk(at[i], pc[i], own)
    ensures LinkOk(at'[i], pc'[i], own)
  {
  }

  lemma DiedHolders(c: K.Config, s: K.State, t: K.State, j: JobId)
    requires K.Valid(c, s) && HoldersOk(c, s) && j in c.jobs
    requires var key := c.jobs[j].key;
      t == K.At(s, j, K.Crashed).(holder := if key in s.holder && s.holder[key] == j then s.holder - {key} else s.holder)
    ensures K.Valid(c, t) && HoldersOk(c, t)
  {
    forall k | k in t.holder ensures c.jobs[t.holder[k]].key == k && K.InLock(t.pc[t.holder[k]]) {
      assert c.jobs[s.holder[k]].key == k && K.InLock(s.pc[s.holder[k]]);
    }
  }

  lemma DiedLinked(c: K.Config, s: State, t: State, j: JobId)
    requires Linked(c, s) && Step(c, s, t, j, Died)
    ensures Linked(c, t)
  {
    DiedHolders(c, s.store, t.store, j);
    DiedLocks(c, s.locks, t.locks, j);
    DiedLinks(c, s, t, j);
  }

  lemma DiedSimulated(c: K.Config, s: State, t: State, j: JobId)
    requires Step(c, s, t, j, Died)
    ensures K.Step(c, s.store, K.At(s.store, j, K.Crashed), j, K.Crash)
    ensures t.store == K.At(s.store, j, K.Crashed) || K.Step(c, K.At(s.store, j, K.Crashed), t.store, j, K.Reclaim)
  {
  }

  // ---------------------------------------------------------------- what carries over

  /** The facts KeyedAppend keeps of its runs. */
  ghost predicate Kept(c: K.Config, dir0: Directory, s: K.State, locked: bool) {
    && K.Known(c, dir0, s) && K.Reported(c, s)
    && (locked ==> K.LockedInv(c, s))
  }

  lemma AbstractStep(c: K.Config, dir0: Directory, s: K.State, t: K.State, j: JobId, e: K.Event, locked: bool)
    requires K.ContentAddressed(c, dir0) && Kept(c, dir0, s, locked) && K.Step(c, s, t, j, e)
    requires locked ==> K.Allowed(c, s, j, e, K.NONE)
    ensures Kept(c, dir0, t, locked) && K.Keeps(c, s.dir, t.dir)
  {
    K.StepKeepsReports(c, dir0, s, t, j, e);
    if locked { K.LockedInvStep(c, dir0, s, t, j, e); }
  }

  lemma StepKept(c: K.Config, dir0: Directory, s: State, t: State, j: JobId, e: Event, f: K.Faults)
    requires K.ContentAddressed(c, dir0) && Linked(c, s) && Step(c, s, t, j, e) && Allowed(c, s, j, e, f)
    requires Kept(c, dir0, s.store, f == K.NONE)
    ensures Linked(c, t) && Kept(c, dir0, t.store, f == K.NONE) && K.Keeps(c, s.store.dir, t.store.dir)
  {
    var locked := f == K.NONE;
    match e
    case Inner(le) => InnerSimulated(c, s, t, j, le);
    case Took =>
      TookSimulated(c, s, t, j);
      TookLinked(c, s, t, j);
      AbstractStep(c, dir0, s.store, t.store, j, K.Lock, locked);
    case GaveUp =>
      GaveUpLinked(c, s, t, j);
      AbstractStep(c, dir0, s.store, t.store, j, K.TimeOut, locked);
    case Body(be) =>
      BodySimulated(c, s, t, j, be);
      AbstractStep(c, dir0, s.store, t.store, j, be, locked);
    case Left =>
      LeftSimulated(c, s, t, j);
      AbstractStep(c, dir0, s.store, t.store, j, K.Leave, locked);
    case Died => DiedKept(c, dir0, s, t, j, locked);
  }

  lemma DiedKept(c: K.Config, dir0: Directory, s: State, t: State, j: JobId, locked: bool)
    requires K.ContentAddressed(c, dir0) && Linked(c, s) && Step(c, s, t, j, Died) && Kept(c, dir0, s.store, locked)
    ensures Linked(c, t) && Kept(c, dir0, t.store, locked) && K.Keeps(c, s.store.dir, t.store.dir)
  {
    var mid := K.At(s.store, j, K.Crashed);
    DiedLinked(c, s, t, j);
    DiedSimulated(c, s, t, j);
    AbstractStep(c, dir0, s.store, mid, j, K.Crash, locked);
    if t.store != mid { AbstractStep(c, dir0, mid, t.store, j, K.Reclaim, locked); }
  }

  lemma {:induction false} RunKept(c: K.Config, run: seq<State>, f: K.Faults, n: nat)
    requires Run(c, run, f) && n < |run| && K.ContentAddressed(c, run[0].store.dir)
    requires f == K.NONE ==> K.Unique(c, run[0].store.dir)
    ensures Linked(c, run[n]) && Kept(c, run[0].store.dir, run[n].store, f == K.NONE)
    ensures K.Keeps(c, run[0].store.dir, run[n].store.dir)
  {
    if n == 0 {
      InitialLinked(c, run[0]);
      if f == K.NONE { K.InitialLocked(c, run[0].store); }
    } else {
      RunKept(c, run, f, n - 1);
      assert Next(c, run[n - 1], run[n - 1 + 1], f);
      var j, e :| Step(c, run[n - 1], run[n], j, e) && Allowed(c, run[n - 1], j, e, f);
      StepKept(c, run[0].store.dir, run[n - 1], run[n], j, e, f);
    }
  }

  /**
   Over the lock files, from any leftover files and with crashes anywhere: if acquire never gives up and no scan
   misses a file of its own key through a failed read or listing, no key gets two records.
   */
  lemma NeverTwoRecordsOverLockFiles(c: K.Config, run: seq<State>, n: nat)
    requires Run(c, run, K.NONE) && n < |run|
    requires K.ContentAddressed(c, run[0].store.dir) && K.Unique(c, run[0].store.dir)
    ensures K.Unique(c, run[n].store.dir)
  {
    RunKept(c, run, K.NONE, n);
  }

  lemma ReportedRecord(c: K.Config, s: K.State, j: JobId)
    requires K.Reported(c, s) && j in c.jobs && j in s.pc && K.Result(s.pc[j]).Some? && K.Result(s.pc[j]) != Some(K.Fault)
    ensures exists name :: name in s.dir && c.holds(name, s.dir[name], c.jobs[j].key)
  {
    assert K.ReportedOk(c, s, j);
    var name := K.Result(s.pc[j]).value.name;
    assert name in s.dir && c.holds(name, s.dir[name], c.jobs[j].key);
  }

  /** Whatever happens, an append that reports success has a record of its key, and no record is lost. */
  lemma NeverSuppressedOverLockFiles(c: K.Config, run: seq<State>, n: nat, j: JobId)
    requires Run(c, run, K.ANY) && n < |run| && K.ContentAddressed(c, run[0].store.dir)
    requires j in c.jobs && j in run[n].store.pc
    requires K.Result(run[n].store.pc[j]).Some? && K.Result(run[n].store.pc[j]) != Some(K.Fault)
    ensures exists name :: name in run[n].store.dir && c.holds(name, run[n].store.dir[name], c.jobs[j].key)
    ensures K.Keeps(c, run[0].store.dir, run[n].store.dir)
  {
    RunKept(c, run, K.ANY, n);
    ReportedRecord(c, run[n].store, j);
  }
}
