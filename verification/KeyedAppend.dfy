/**
 Many appenders of one run, interleaved: each takes the lock of its idempotency key or times out and
 goes on without it, lists the directory, reads the listed files one by one, and either reports an
 earlier record or writes its own. A listing that fails is taken as an empty one, and a file whose read
 fails as one that holds nothing. The lock is the abstract one of LockProtocol: taken only when free,
 given up by its holder, or reclaimed after a crash of its holder.
 */
module KeyedAppend {
  import opened Wrappers
  import opened Json
  import opened CanonicalJson
  import opened TransactionRecord
  import opened RecordStore

  type JobId = int

  /** One append call: the file it would write and the key it is for. */
  datatype Job = Job(name: Text, body: Body, key: Text)

  /** `holds(name, body, key)`: the file would be accepted as the record of the key. */
  datatype Config = Config(holds: (Text, Body, Text) -> bool, jobs: map<JobId, Job>)

  datatype Outcome = Wrote(name: Text) | Found(name: Text) | Fault

  datatype Pc =
    | Start
    | Listing(locked: bool)
    | Reading(locked: bool, todo: set<Text>)
    | Writing(locked: bool)
    | Leaving(locked: bool, result: Outcome)
    | Finished(result: Outcome)
    | Crashed

  datatype State = State(dir: Directory, holder: map<Text, JobId>, pc: map<JobId, Pc>)

  datatype Event =
    | Lock | TimeOut | List | ListFault | Hit(name: Text) | Miss(name: Text) | ReadFault(name: Text) | ScanEnd
    | Write | WriteFault | Leave | Crash | Reclaim

  ghost predicate Valid(c: Config, s: State) {
    && s.pc.Keys == c.jobs.Keys
    && forall k :: k in s.holder ==> s.holder[k] in c.jobs
  }

  ghost function At(s: State, j: JobId, pc: Pc): State { s.(pc := s.pc[j := pc]) }

  ghost predicate Step(c: Config, s: State, t: State, j: JobId, e: Event) {
    && j in c.jobs && j in s.pc
    && var job, pc := c.jobs[j], s.pc[j];
       match e
       case Lock =>
         pc.Start? && job.key !in s.holder && t == At(s, j, Listing(true)).(holder := s.holder[job.key := j])
       case TimeOut => pc.Start? && t == At(s, j, Listing(false))
       case List => pc.Listing? && t == At(s, j, Reading(pc.locked, s.dir.Keys))
       case ListFault => pc.Listing? && t == At(s, j, Writing(pc.locked))
       case Hit(n) =>
         && pc.Reading? && n in pc.todo && n in s.dir && c.holds(n, s.dir[n], job.key)
         && t == At(s, j, Leaving(pc.locked, Found(n)))
       case Miss(n) =>
         && pc.Reading? && n in pc.todo && n in s.dir && !c.holds(n, s.dir[n], job.key)
         && t == At(s, j, Reading(pc.locked, pc.todo - {n}))
       case ReadFault(n) => pc.Reading? && n in pc.todo && t == At(s, j, Reading(pc.locked, pc.todo - {n}))
       case ScanEnd => pc.Reading? && pc.todo == {} && t == At(s, j, Writing(pc.locked))
       case Write =>
         && pc.Writing?
         && t == At(s, j, Leaving(pc.locked, Wrote(job.name))).(dir := s.dir[job.name := job.body])
       case WriteFault => pc.Writing? && t == At(s, j, Leaving(pc.locked, Fault))
       case Leave =>
         && pc.Leaving?
         && t == At(s, j, Finished(pc.result)).(holder := if pc.locked then s.holder - {job.key} else s.holder)
       case Crash => !pc.Finished? && t == At(s, j, Crashed)
       case Reclaim =>
         pc.Crashed? && job.key in s.holder && s.holder[job.key] == j && t == s.(holder := s.holder - {job.key})
  }

  ghost predicate Initial(c: Config, s: State) {
    && Valid(c, s)
    && s.holder == map[]
    && forall j :: j in s.pc ==> s.pc[j] == Start
  }

  /** Which harmful faults may happen. */
  datatype Faults = Faults(timeOuts: bool, fileReads: bool, listings: bool)

  const ANY := Faults(true, true, true)
  const NONE := Faults(false, false, false)

  /** The file holds the key of the appender. */
  ghost predicate HoldsKeyOf(c: Config, s: State, j: JobId, n: Text) {
    j in c.jobs && n in s.dir && c.holds(n, s.dir[n], c.jobs[j].key)
  }

  /**
   The faults that hurt: a lock timeout, a failed read of a file that holds the appender's own key, and a failed
   listing of a directory with such a file. Other failed reads and listings, write faults and crashes are free.
   */
  ghost predicate Allowed(c: Config, s: State, j: JobId, e: Event, f: Faults) {
    match e
    case TimeOut => f.timeOuts
    case ReadFault(n) => HoldsKeyOf(c, s, j, n) ==> f.fileReads
    case ListFault => (exists n :: HoldsKeyOf(c, s, j, n)) ==> f.listings
    case _ => true
  }

  /** A failed read of a file without the appender's key, and a failed listing without such a file, do no harm. */
  lemma HarmlessFaults(c: Config, s: State, j: JobId, name: Text)
    requires j in c.jobs && name in s.dir
    ensures !c.holds(name, s.dir[name], c.jobs[j].key) ==> Allowed(c, s, j, ReadFault(name), NONE)
    ensures (forall n :: n in s.dir ==> !c.holds(n, s.dir[n], c.jobs[j].key)) ==> Allowed(c, s, j, ListFault, NONE)
    ensures Allowed(c, s, j, WriteFault, NONE) && Allowed(c, s, j, Crash, NONE) && Allowed(c, s, j, Reclaim, NONE)
  {
  }

  ghost predicate Next(c: Config, s: State, t: State, f: Faults) {
    exists j, e :: Step(c, s, t, j, e) && Allowed(c, s, j, e, f)
  }

  ghost predicate Run(c: Config, run: seq<State>, f: Faults) {
    && |run| > 0
    && Initial(c, run[0])
    && forall i :: 0 <= i < |run| - 1 ==> Next(c, run[i], run[i + 1], f)
  }

  // ---------------------------------------------------------------- hypotheses on the files

  /** Every file that is in the directory at the start or may be written. */
  ghost predicate MayExist(c: Config, dir: Directory, n: Text, b: Body) {
    || (n in dir && dir[n] == b)
    || exists j :: j in c.jobs && c.jobs[j].name == n && c.jobs[j].body == b
  }

  /** No name can hold two keys, and every job's file holds the job's key. */
  ghost predicate ContentAddressed(c: Config, dir: Directory) {
    && (forall n, a, b, k, l ::
          MayExist(c, dir, n, a) && MayExist(c, dir, n, b) && c.holds(n, a, k) && c.holds(n, b, l) ==> k == l)
    && forall j :: j in c.jobs ==> c.holds(c.jobs[j].name, c.jobs[j].body, c.jobs[j].key)
  }

  /** No key is held by two files. */
  ghost predicate Unique(c: Config, dir: Directory) {
    forall m, n, k :: m in dir && n in dir && c.holds(m, dir[m], k) && c.holds(n, dir[n], k) ==> m == n
  }

  // ---------------------------------------------------------------- what every step keeps

  ghost predicate Known(c: Config, dir0: Directory, s: State) {
    forall n :: n in s.dir ==> MayExist(c, dir0, n, s.dir[n])
  }

  ghost predicate Keeps(c: Config, d: Directory, d': Directory) {
    forall n, k :: n in d && c.holds(n, d[n], k) ==> n in d' && c.holds(n, d'[n], k)
  }

  /** No step removes a record: a file that holds a key goes on holding it. */
  lemma StepKeepsRecords(c: Config, dir0: Directory, s: State, t: State, j: JobId, e: Event)
    requires ContentAddressed(c, dir0) && Known(c, dir0, s) && Step(c, s, t, j, e)
    ensures Known(c, dir0, t)
    ensures Keeps(c, s.dir, t.dir)
  {
    if e == Write {
      var job := c.jobs[j];
      assert MayExist(c, dir0, job.name, job.body);
    }
  }

  ghost function Result(pc: Pc): Option<Outcome> {
    if pc.Leaving? || pc.Finished? then Some(pc.result) else None
  }

  /** An append has an outcome once it is leaving, with or without the lock, and when it is finished. */
  lemma ResultIff(pc: Pc, r: Outcome)
    ensures Result(pc) == Some(r) <==> pc in {Leaving(true, r), Leaving(false, r), Finished(r)}
  {
  }

  /** An appender that reports success has a record of its key in the directory. */
  ghost predicate ReportedOk(c: Config, s: State, j: JobId)
    requires j in s.pc && j in c.jobs
  {
    match Result(s.pc[j])
    case Some(Wrote(n)) => n in s.dir && c.holds(n, s.dir[n], c.jobs[j].key)
    case Some(Found(n)) => n in s.dir && c.holds(n, s.dir[n], c.jobs[j].key)
    case _ => true
  }

  ghost predicate Reported(c: Config, s: State) {
    Valid(c, s) && forall j :: j in c.jobs ==> ReportedOk(c, s, j)
  }

  lemma StepKeepsReports(c: Config, dir0: Directory, s: State, t: State, j: JobId, e: Event)
    requires ContentAddressed(c, dir0) && Known(c, dir0, s) && Reported(c, s) && Step(c, s, t, j, e)
    ensures Known(c, dir0, t) && Reported(c, t)
    ensures Keeps(c, s.dir, t.dir)
  {
    StepKeepsRecords(c, dir0, s, t, j, e);
    assert t.pc.Keys == s.pc.Keys;
    forall i | i in c.jobs ensures ReportedOk(c, t, i) {
      assert ReportedOk(c, s, i);
    }
  }

  lemma {:induction false} RunKeepsReports(c: Config, run: seq<State>, f: Faults, n: nat)
    requires Run(c, run, f) && n < |run| && ContentAddressed(c, run[0].dir)
    ensures Known(c, run[0].dir, run[n]) && Reported(c, run[n])
    ensures Keeps(c, run[0].dir, run[n].dir)
  {
    if n > 0 {
      RunKeepsReports(c, run, f, n - 1);
      assert Next(c, run[n - 1], run[n - 1 + 1], f);
      var j, e :| Step(c, run[n - 1], run[n], j, e) && Allowed(c, run[n - 1], j, e, f);
      StepKeepsReports(c, run[0].dir, run[n - 1], run[n], j, e);
    }
  }

  /**
   With any mix of timeouts, failed listings, reads and writes, and crashes: an append that returned ok leaves a record of its key
   in the directory in every later state, and no record that was there at the start is lost.
   */
  lemma FailOpenNeverSuppresses(c: Config, run: seq<State>, m: nat, n: nat, j: JobId)
    requires Run(c, run, ANY) && ContentAddressed(c, run[0].dir)
    requires m <= n < |run| && j in c.jobs && j in run[m].pc
    requires Result(run[m].pc[j]).Some? && Result(run[m].pc[j]) != Some(Fault)
    ensures exists name :: name in run[n].dir && c.holds(name, run[n].dir[name], c.jobs[j].key)
    ensures Keeps(c, run[0].dir, run[n].dir)
  {
    RunKeepsReports(c, run, ANY, n);
    LaterKeeps(c, run, m, n);
    RunKeepsReports(c, run, ANY, m);
    assert ReportedOk(c, run[m], j);
    var name := Result(run[m].pc[j]).value.name;
    assert name in run[n].dir && c.holds(name, run[n].dir[name], c.jobs[j].key);
  }

  lemma KeepsTransitive(c: Config, a: Directory, b: Directory, d: Directory)
    requires Keeps(c, a, b) && Keeps(c, b, d)
    ensures Keeps(c, a, d)
  {
  }

  lemma NextKeeps(c: Config, run: seq<State>, n: nat)
    requires Run(c, run, ANY) && ContentAddressed(c, run[0].dir) && n + 1 < |run|
    ensures Keeps(c, run[n].dir, run[n + 1].dir)
  {
    RunKeepsReports(c, run, ANY, n);
    assert Next(c, run[n], run[n + 1], ANY);
    var j, e :| Step(c, run[n], run[n + 1], j, e);
    StepKeepsRecords(c, run[0].dir, run[n], run[n + 1], j, e);
  }

  lemma {:induction false} KeepsThrough(c: Config, run: seq<State>, m: nat, n: nat)
    requires m <= n < |run| && forall i :: m <= i < n ==> Keeps(c, run[i].dir, run[i + 1].dir)
    ensures Keeps(c, run[m].dir, run[n].dir)
  {
    if m < n {
      KeepsThrough(c, run, m, n - 1);
      assert Keeps(c, run[n - 1].dir, run[n - 1 + 1].dir);
      KeepsTransitive(c, run[m].dir, run[n - 1].dir, run[n].dir);
    }
  }

  lemma LaterKeeps(c: Config, run: seq<State>, m: nat, n: nat)
    requires Run(c, run, ANY) && ContentAddressed(c, run[0].dir) && m <= n < |run|
    ensures Keeps(c, run[m].dir, run[n].dir)
  {
    forall i | m <= i < n ensures Keeps(c, run[i].dir, run[i + 1].dir) { NextKeeps(c, run, i); }
    KeepsThrough(c, run, m, n);
  }

  // ---------------------------------------------------------------- uniqueness without harmful faults

  ghost predicate InLock(pc: Pc) {
    match pc
    case Listing(l) => l
    case Reading(l, _) => l
    case Writing(l) => l
    case Leaving(l, _) => l
    case _ => false
  }

  ghost predicate OutOfLock(pc: Pc) {
    match pc
    case Listing(l) => !l
    case Reading(l, _) => !l
    case Writing(l) => !l
    case Leaving(l, _) => !l
    case _ => false
  }

  /** What a scan under the lock has already ruled out stays ruled out. */
  ghost predicate ScanSound(c: Config, s: State, j: JobId)
    requires j in s.pc && j in c.jobs
  {
    match s.pc[j]
    case Reading(_, todo) => forall n :: n in s.dir && c.holds(n, s.dir[n], c.jobs[j].key) ==> n in todo
    case Writing(_) => forall n :: n in s.dir ==> !c.holds(n, s.dir[n], c.jobs[j].key)
    case _ => true
  }

  ghost predicate LockedInv(c: Config, s: State) {
    && Valid(c, s)
    && Unique(c, s.dir)
    && (forall j :: j in c.jobs ==> !OutOfLock(s.pc[j]))
    && (forall j :: j in c.jobs && InLock(s.pc[j]) ==> c.jobs[j].key in s.holder && s.holder[c.jobs[j].key] == j)
    && (forall j :: j in c.jobs ==> ScanSound(c, s, j))
  }

  lemma StaysLocked(c: Config, s: State, t: State, j: JobId, e: Event)
    requires LockedInv(c, s) && Step(c, s, t, j, e) && e != TimeOut
    ensures Valid(c, t)
    ensures forall i :: i in c.jobs ==> !OutOfLock(t.pc[i])
  {
    assert t.pc.Keys == s.pc.Keys;
    assert forall i :: i in c.jobs && i != j ==> t.pc[i] == s.pc[i];
  }

  lemma HoldersKept(c: Config, s: State, t: State, j: JobId, e: Event)
    requires LockedInv(c, s) && Step(c, s, t, j, e) && e != TimeOut
    ensures forall i :: i in c.jobs && i in t.pc && InLock(t.pc[i]) ==>
              c.jobs[i].key in t.holder && t.holder[c.jobs[i].key] == i
  {
    assert t.pc.Keys == s.pc.Keys;
    forall i | i in c.jobs && InLock(t.pc[i]) ensures c.jobs[i].key in t.holder && t.holder[c.jobs[i].key] == i {
      if i != j {
        assert t.pc[i] == s.pc[i];
        assert InLock(s.pc[j]) && c.jobs[i].key == c.jobs[j].key ==> i == j;
      }
    }
  }

  /** A write under the lock is the first of its key. */
  lemma WriteKeepsUnique(c: Config, dir0: Directory, s: State, t: State, j: JobId)
    requires ContentAddressed(c, dir0) && Known(c, dir0, s) && LockedInv(c, s) && Step(c, s, t, j, Write)
    ensures Unique(c, t.dir)
    ensures forall n, k :: n in t.dir && c.holds(n, t.dir[n], k) ==>
      (n in s.dir && c.holds(n, s.dir[n], k)) || (n == c.jobs[j].name && k == c.jobs[j].key)
  {
    var job := c.jobs[j];
    assert ScanSound(c, s, j);
    assert MayExist(c, dir0, job.name, job.body);
    forall n, k | n in t.dir && c.holds(n, t.dir[n], k)
      ensures (n in s.dir && c.holds(n, s.dir[n], k)) || (n == job.name && k == job.key)
    {
      if n == job.name {
        assert c.holds(n, job.body, job.key);
      }
    }
  }

  lemma LockedInvScans(c: Config, dir0: Directory, s: State, t: State, j: JobId, e: Event, i: JobId)
    requires ContentAddressed(c, dir0) && Known(c, dir0, s) && LockedInv(c, s)
    requires Step(c, s, t, j, e) && Allowed(c, s, j, e, NONE) && i in c.jobs && i in t.pc
    ensures ScanSound(c, t, i)
  {
    assert ScanSound(c, s, i);
    if e == ListFault {
      forall n | n in s.dir ensures !c.holds(n, s.dir[n], c.jobs[j].key) {
        assert !HoldsKeyOf(c, s, j, n);
      }
    }
    if e == Write {
      WriteKeepsUnique(c, dir0, s, t, j);
      if i != j && c.jobs[i].key == c.jobs[j].key {
        assert InLock(s.pc[j]) && !InLock(s.pc[i]);
      }
    }
  }

  lemma LockedInvStep(c: Config, dir0: Directory, s: State, t: State, j: JobId, e: Event)
    requires ContentAddressed(c, dir0) && Known(c, dir0, s) && LockedInv(c, s)
    requires Step(c, s, t, j, e) && Allowed(c, s, j, e, NONE)
    ensures LockedInv(c, t)
  {
    StaysLocked(c, s, t, j, e);
    HoldersKept(c, s, t, j, e);
    if e == Write {
      WriteKeepsUnique(c, dir0, s, t, j);
    }
    forall i | i in c.jobs ensures ScanSound(c, t, i) {
      LockedInvScans(c, dir0, s, t, j, e, i);
    }
  }

  lemma InitialLocked(c: Config, s: State)
    requires Initial(c, s) && Unique(c, s.dir)
    ensures LockedInv(c, s)
  {
    assert forall j :: j in c.jobs ==> s.pc[j] == Start;
  }

  lemma {:induction false} RunKeepsUnique(c: Config, run: seq<State>, n: nat)
    requires Run(c, run, NONE) && n < |run|
    requires ContentAddressed(c, run[0].dir) && Unique(c, run[0].dir)
    ensures LockedInv(c, run[n])
  {
    if n == 0 {
      InitialLocked(c, run[0]);
    } else {
      RunKeepsUnique(c, run, n - 1);
      RunKeepsReports(c, run, NONE, n - 1);
      assert Next(c, run[n - 1], run[n - 1 + 1], NONE);
      var j, e :| Step(c, run[n - 1], run[n], j, e) && Allowed(c, run[n - 1], j, e, NONE);
      LockedInvStep(c, run[0].dir, run[n - 1], run[n], j, e);
    }
  }

  /**
   If no lock times out, no appender fails to read a file that holds its own key and none fails to list a directory
   with such a file, then no interleaving of appends, other faults and crashes stores two records of one key.
   */
  lemma NeverTwoRecordsOfOneKey(c: Config, run: seq<State>, n: nat)
    requires Run(c, run, NONE) && n < |run|
    requires ContentAddressed(c, run[0].dir) && Unique(c, run[0].dir)
    ensures Unique(c, run[n].dir)
  {
    RunKeepsUnique(c, run, n);
  }

  // ---------------------------------------------------------------- the exact condition

  ghost predicate Reaches(c: Config, s: State, t: State, f: Faults) {
    exists run :: Run(c, run, f) && run[0] == s && run[|run| - 1] == t
  }

  lemma ReachesStep(c: Config, s: State, t: State, u: State, j: JobId, e: Event, f: Faults)
    requires Reaches(c, s, t, f) && Step(c, t, u, j, e) && Allowed(c, t, j, e, f)
    ensures Reaches(c, s, u, f)
  {
    var run :| Run(c, run, f) && run[0] == s && run[|run| - 1] == t;
    var more := run + [u];
    forall i | 0 <= i < |more| - 1 ensures Next(c, more[i], more[i + 1], f) {
      assert i < |run| - 1 ==> Next(c, run[i], run[i + 1], f);
    }
    assert Run(c, more, f) && more[0] == s && more[|more| - 1] == u;
  }

  ghost function Stores(c: Config, t: State, j: JobId, locked: bool): State
    requires j in c.jobs
  {
    At(t, j, Leaving(locked, Wrote(c.jobs[j].name))).(dir := t.dir[c.jobs[j].name := c.jobs[j].body])
  }

  /** An appender that timed out on an empty directory gets to its write. */
  lemma ReachesWriting(c: Config, s: State, t: State, j: JobId, f: Faults)
    requires Reaches(c, s, t, f) && j in c.jobs && j in t.pc && t.pc[j] == Start && t.dir == map[] && f.timeOuts
    ensures Reaches(c, s, At(t, j, Writing(false)), f)
  {
    var t1, t2 := At(t, j, Listing(false)), At(t, j, Reading(false, {}));
    ReachesStep(c, s, t, t1, j, TimeOut, f);
    assert t1.dir.Keys == {};
    ReachesStep(c, s, t1, t2, j, List, f);
    ReachesStep(c, s, t2, At(t, j, Writing(false)), j, ScanEnd, f);
  }

  /** Two appends of one key with different file names, and nothing stored yet. */
  ghost predicate Rivals(c: Config, s: State, i: JobId, j: JobId) {
    && Initial(c, s) && s.dir == map[] && ContentAddressed(c, s.dir)
    && i in c.jobs && j in c.jobs && c.jobs[i].key == c.jobs[j].key && c.jobs[i].name != c.jobs[j].name
  }

  lemma StartReached(c: Config, s: State, f: Faults)
    requires Initial(c, s)
    ensures Reaches(c, s, s, f)
  {
    assert Run(c, [s], f) && [s][0] == s;
  }

  lemma BothStored(c: Config, d: Directory, i: JobId, j: JobId)
    requires i in c.jobs && j in c.jobs && c.jobs[i].key == c.jobs[j].key && c.jobs[i].name != c.jobs[j].name
    requires c.holds(c.jobs[i].name, c.jobs[i].body, c.jobs[i].key) && c.holds(c.jobs[j].name, c.jobs[j].body, c.jobs[j].key)
    ensures !Unique(c, d[c.jobs[i].name := c.jobs[i].body][c.jobs[j].name := c.jobs[j].body])
  {
    var d' := d[c.jobs[i].name := c.jobs[i].body][c.jobs[j].name := c.jobs[j].body];
    assert c.holds(c.jobs[i].name, d'[c.jobs[i].name], c.jobs[i].key);
    assert c.holds(c.jobs[j].name, d'[c.jobs[j].name], c.jobs[i].key);
  }

  /** Two appends of one key that both time out can both write. */
  lemma TimeOutsAllowDuplicates(c: Config, s: State, i: JobId, j: JobId, f: Faults)
    requires Rivals(c, s, i, j) && f.timeOuts
    ensures exists t :: Reaches(c, s, t, f) && !Unique(c, t.dir)
  {
    StartReached(c, s, f);
    ReachesWriting(c, s, s, i, f);
    var s1 := At(s, i, Writing(false));
    ReachesWriting(c, s, s1, j, f);
    var s2 := At(s1, j, Writing(false));
    ReachesStep(c, s, s2, Stores(c, s2, i, false), i, Write, f);
    ReachesStep(c, s, Stores(c, s2, i, false), Stores(c, Stores(c, s2, i, false), j, false), j, Write, f);
    BothStored(c, s.dir, i, j);
  }

  /** An append under its lock, from start to finish, on an empty directory. */
  lemma FirstAppend(c: Config, s: State, i: JobId, j: JobId, f: Faults) returns (t: State)
    requires Rivals(c, s, i, j)
    ensures Reaches(c, s, t, f)
    ensures t.holder == map[] && t.dir == map[c.jobs[i].name := c.jobs[i].body]
    ensures t.pc == s.pc[i := Finished(Wrote(c.jobs[i].name))]
  {
    var job := c.jobs[i];
    StartReached(c, s, f);
    var s1 := At(s, i, Listing(true)).(holder := s.holder[job.key := i]);
    var s2 := At(s1, i, Reading(true, {}));
    var s3 := At(s2, i, Writing(true));
    var s4 := Stores(c, s3, i, true);
    t := At(s4, i, Finished(Wrote(job.name))).(holder := s4.holder - {job.key});
    ReachesStep(c, s, s, s1, i, Lock, f);
    assert s1.dir.Keys == {};
    ReachesStep(c, s, s1, s2, i, List, f);
    ReachesStep(c, s, s2, s3, i, ScanEnd, f);
    ReachesStep(c, s, s3, s4, i, Write, f);
    ReachesStep(c, s, s4, t, i, Leave, f);
    assert t.holder == map[];
  }

  /** The second append, its scan blinded by one fault. */
  lemma SecondAppend(c: Config, s: State, t: State, i: JobId, j: JobId, f: Faults)
    requires Rivals(c, s, i, j) && i != j && Reaches(c, s, t, f) && t.holder == map[]
    requires t.dir == map[c.jobs[i].name := c.jobs[i].body] && j in t.pc && t.pc[j] == Start
    requires f.fileReads || f.listings
    ensures exists u :: Reaches(c, s, u, f) && !Unique(c, u.dir)
  {
    var job, name := c.jobs[j], c.jobs[i].name;
    var t1 := At(t, j, Listing(true)).(holder := t.holder[job.key := j]);
    var t3 := At(t1, j, Writing(true));
    ReachesStep(c, s, t, t1, j, Lock, f);
    if f.listings {
      ReachesStep(c, s, t1, t3, j, ListFault, f);
    } else {
      var t2, t2' := At(t1, j, Reading(true, {name})), At(t1, j, Reading(true, {}));
      assert t1.dir.Keys == {name};
      ReachesStep(c, s, t1, t2, j, List, f);
      assert {name} - {name} == {};
      ReachesStep(c, s, t2, t2', j, ReadFault(name), f);
      ReachesStep(c, s, t2', t3, j, ScanEnd, f);
    }
    var u := Stores(c, t3, j, true);
    ReachesStep(c, s, t3, u, j, Write, f);
    BothStored(c, map[], i, j);
    assert u.dir == map[][name := c.jobs[i].body][job.name := job.body];
  }

  /** One failed read of the rival's file, or one failed listing, in a locked scan is enough. */
  lemma FailedScansAllowDuplicates(c: Config, s: State, i: JobId, j: JobId, f: Faults)
    requires Rivals(c, s, i, j) && (f.fileReads || f.listings)
    ensures exists t :: Reaches(c, s, t, f) && !Unique(c, t.dir)
  {
    var t := FirstAppend(c, s, i, j, f);
    SecondAppend(c, s, t, i, j, f);
  }

  /**
   With two appends of one key, every reachable directory holds at most one record of each key exactly when none of
   the three harmful faults may happen.
   */
  lemma UniqueIffNoHarmfulFault(c: Config, s: State, i: JobId, j: JobId, f: Faults)
    requires Rivals(c, s, i, j)
    ensures (forall t :: Reaches(c, s, t, f) ==> Unique(c, t.dir)) <==> f == NONE
  {
    if f == NONE {
      forall t | Reaches(c, s, t, f) ensures Unique(c, t.dir) {
        var run :| Run(c, run, f) && run[0] == s && run[|run| - 1] == t;
        NeverTwoRecordsOfOneKey(c, run, |run| - 1);
      }
    } else if f.timeOuts {
      TimeOutsAllowDuplicates(c, s, i, j, f);
    } else {
      FailedScansAllowDuplicates(c, s, i, j, f);
    }
  }

  // ---------------------------------------------------------------- the record store is content addressed

  /** An append of a record, as the store would perform it. */
  ghost function JobOf(record: Value, key: Text): Job
    requires Get(record, TRANSACTION_ID).Str?
  {
    Job(FileName(RecordId(record)), Content(Image(record)), key)
  }

  ghost predicate Appendable(sha: Digest, record: Value, key: Text) {
    && WellFormed(record) && Admission(sha, record).None? && RequiredPresent(record)
    && IsHex64(key) && Get(record, "idempotency_key") == Str(key)
  }

  /** The store's own test of a file for a key. */
  ghost function HoldsOf(sha: Digest): (Text, Body, Text) -> bool { (n, b, k) => HoldsKey(sha, n, b, k) }

  ghost predicate StoreConfig(sha: Digest, c: Config) {
    && c.holds == HoldsOf(sha)
    && forall j :: j in c.jobs ==> IsStoreJob(sha, c.jobs[j])
  }

  ghost predicate IsStoreJob(sha: Digest, job: Job) {
    exists record, key :: Appendable(sha, record, key) && job == JobOf(record, key)
  }

  lemma StoreJob(sha: Digest, record: Value, key: Text)
    requires Appendable(sha, record, key) && Get(record, TRANSACTION_ID).Str?
    ensures IsStoreJob(sha, JobOf(record, key))
  {
  }

  /** The digest tells apart the id texts of all files that may exist in the run. */
  ghost predicate SeparatesFiles(sha: Digest, c: Config, dir: Directory) {
    forall n, a, b ::
      MayExist(c, dir, n, a) && MayExist(c, dir, n, b) && a.Content? && b.Content?
      && IdText(a.value).Some? && IdText(b.value).Some? ==>
        Separates(sha, IdText(a.value).value, IdText(b.value).value)
  }

  lemma StoreJobHolds(sha: Digest, c: Config, j: JobId)
    requires StoreConfig(sha, c) && j in c.jobs
    ensures c.jobs[j].body.Content? && WellFormed(c.jobs[j].body.value)
    ensures c.holds(c.jobs[j].name, c.jobs[j].body, c.jobs[j].key)
  {
    var record, key :| Appendable(sha, record, key) && c.jobs[j] == JobOf(record, key);
    AdmittedHoldsKey(sha, record, key);
    ImageWellFormed(record);
  }

  /** The hypotheses of the run theorems hold of the record store itself. */
  lemma StoreIsContentAddressed(sha: Digest, c: Config, dir: Directory)
    requires StoreConfig(sha, c) && WellFormedDirectory(dir) && SeparatesFiles(sha, c, dir)
    ensures ContentAddressed(c, dir)
  {
    forall j | j in c.jobs ensures c.holds(c.jobs[j].name, c.jobs[j].body, c.jobs[j].key) {
      StoreJobHolds(sha, c, j);
    }
    forall n, a, b, k, l |
      MayExist(c, dir, n, a) && MayExist(c, dir, n, b) && c.holds(n, a, k) && c.holds(n, b, l)
      ensures k == l
    {
      OneKeyOfName(sha, c, dir, n, a, b, k, l);
    }
  }

  lemma OneKeyOfName(sha: Digest, c: Config, dir: Directory, n: Text, a: Body, b: Body, k: Text, l: Text)
    requires StoreConfig(sha, c) && WellFormedDirectory(dir) && SeparatesFiles(sha, c, dir)
    requires MayExist(c, dir, n, a) && MayExist(c, dir, n, b) && c.holds(n, a, k) && c.holds(n, b, l)
    ensures k == l
  {
    HeldKey(sha, n, a, k);
    HeldKey(sha, n, b, l);
    MayExistWellFormed(sha, c, dir, n, a);
    MayExistWellFormed(sha, c, dir, n, b);
    SameNameSameKey(sha, n, a, b, k, l);
  }

  lemma MayExistWellFormed(sha: Digest, c: Config, dir: Directory, n: Text, b: Body)
    requires StoreConfig(sha, c) && WellFormedDirectory(dir) && MayExist(c, dir, n, b) && b.Content?
    ensures WellFormed(b.value)
  {
    if !(n in dir && dir[n] == b) {
      var j :| j in c.jobs && c.jobs[j].name == n && c.jobs[j].body == b;
      StoreJobHolds(sha, c, j);
    }
  }
}
