/**
 Many writers of persona volumes: each takes its persona's lock, writes the volume file, takes the catalog lock,
 reads the catalog, writes it back with its own entry, and lets both locks go. A catalog that cannot be read is
 taken as empty. Locks are never reclaimed or given up on here: no process exits inside and no lock times out.
 */
module PersonaWrites {
  import opened Wrappers
  import opened Json
  import opened TransactionRecord
  import opened Catalog

  type Pid = int

  /** One `writePersonaVolume` call: the persona, the serialized volume, and the time stamp its entry gets. */
  datatype Job = Job(persona: Text, data: Text, stamp: Text)

  datatype Config = Config(jobs: map<Pid, Job>, stack: Text, hash: Text -> Text)

  datatype Phase =
    | Waiting
    | HasPersona
    | VolumeWritten
    | HasCatalog
    | Loaded(seen: seq<Entry>)
    | CatalogWritten
    | CatalogFree
    | Finished

  datatype State = State(dir: Volumes, entries: seq<Entry>, personaOwner: map<Text, Pid>, catalogOwner: Option<Pid>,
                         at: map<Pid, Phase>)

  predicate IsDigitUnit(c: CodeUnit) { 48 <= c <= 57 }
  predicate IsLowerUnit(c: CodeUnit) { 97 <= c <= 122 }

  /** Two digits, a hyphen, a lower-case letter, then lower-case letters, digits and hyphens. */
  predicate ValidPersona(p: Text) {
    && |p| >= 4 && IsDigitUnit(p[0]) && IsDigitUnit(p[1]) && p[2] == 45 && IsLowerUnit(p[3])
    && forall i :: 4 <= i < |p| ==> IsLowerUnit(p[i]) || IsDigitUnit(p[i]) || p[i] == 45
  }

  /** Digits, hyphen and letter in front, then any letters, digits and hyphens. */
  lemma ValidPersonaIff(p: Text)
    ensures ValidPersona(p) <==>
      && |p| >= 4 && '0' as int <= p[0] <= '9' as int && '0' as int <= p[1] <= '9' as int && p[2] == '-' as int
      && 'a' as int <= p[3] <= 'z' as int && forall c :: c in p[4..] ==> IsTailUnit(c)
  {
    if |p| >= 4 {
      var rest := p[4..];
      assert forall i :: 4 <= i < |p| ==> p[i] == rest[i - 4];
      forall c | ValidPersona(p) && c in rest ensures IsTailUnit(c) {
        var k :| 0 <= k < |rest| && rest[k] == c;
        assert p[k + 4] == c;
      }
      assert rest == p[4..] && forall k :: 0 <= k < |rest| ==> rest[k] in rest;
    }
  }

  predicate IsTailUnit(c: CodeUnit) {
    'a' as int <= c <= 'z' as int || '0' as int <= c <= '9' as int || c == '-' as int
  }

  ghost predicate ValidConfig(c: Config) {
    forall p :: p in c.jobs ==> ValidPersona(c.jobs[p].persona) && |c.jobs[p].data| <= MAX_VOLUME_UNITS
  }

  function FileName(persona: Text): Text { persona + Ascii(JSON_EXT) }

  /** The entry a writer upserts. */
  function EntryOf(c: Config, job: Job): Entry {
    Entry(Core(job.persona, Schematic, [c.stack, job.persona], [], c.hash(job.data)), job.stamp)
  }

  /** A step of one process; `opens` says whether it can read the catalog if it is about to. */
  datatype Turn = Turn(p: Pid, opens: bool)

  /** The next step of a process, if it is not waiting for a lock or done. */
  function Next(c: Config, s: State, turn: Turn): Option<State> {
    var p := turn.p;
    if p !in s.at || p !in c.jobs then None
    else
      var job := c.jobs[p];
      match s.at[p]
      case Waiting =>
        if job.persona in s.personaOwner then None
        else Some(s.(personaOwner := s.personaOwner[job.persona := p], at := s.at[p := HasPersona]))
      case HasPersona => Some(s.(dir := s.dir[FileName(job.persona) := job.data], at := s.at[p := VolumeWritten]))
      case VolumeWritten =>
        if s.catalogOwner.Some? then None else Some(s.(catalogOwner := Some(p), at := s.at[p := HasCatalog]))
      case HasCatalog => Some(s.(at := s.at[p := Loaded(if turn.opens then s.entries else [])]))
      case Loaded(seen) => Some(s.(entries := Upsert(seen, EntryOf(c, job)), at := s.at[p := CatalogWritten]))
      case CatalogWritten => Some(s.(catalogOwner := None, at := s.at[p := CatalogFree]))
      case CatalogFree => Some(s.(personaOwner := s.personaOwner - {job.persona}, at := s.at[p := Finished]))
      case Finished => None
  }

  /** A read that fails on a catalog with entries. */
  predicate LosesSight(s: State, turn: Turn) {
    turn.p in s.at && s.at[turn.p].HasCatalog? && !turn.opens && s.entries != []
  }

  /** Opening never loses sight, and an empty catalog has nothing to lose. */
  lemma KeepsSight(s: State, p: Pid)
    ensures !LosesSight(s, Turn(p, true)) && (s.entries == [] ==> !LosesSight(s, Turn(p, false)))
  {
  }

  /** No turn of the schedule does that. */
  predicate SightedRun(c: Config, s: State, schedule: seq<Turn>)
    decreases schedule
  {
    schedule != [] ==>
      && !LosesSight(s, schedule[0])
      && (Next(c, s, schedule[0]).Some? ==> SightedRun(c, Next(c, s, schedule[0]).value, schedule[1..]))
  }

  function Run(c: Config, s: State, schedule: seq<Turn>): Option<State>
    decreases schedule
  {
    if schedule == [] then Some(s)
    else match Next(c, s, schedule[0])
      case None => None
      case Some(next) => Run(c, next, schedule[1..])
  }

  predicate HoldsPersona(phase: Phase) { !phase.Waiting? && !phase.Finished? }
  predicate HoldsCatalog(phase: Phase) { phase.HasCatalog? || phase.Loaded? || phase.CatalogWritten? }

  /** The volume is written and its entry is not. */
  predicate Between(phase: Phase) { phase.VolumeWritten? || phase.HasCatalog? || phase.Loaded? }

  /** Some writer of this volume is between its two writes. */
  ghost predicate Dirty(c: Config, s: State, id: Text) {
    exists p :: p in s.at && p in c.jobs && c.jobs[p].persona == id && Between(s.at[p])
  }

  ghost predicate AgreesAt(c: Config, s: State, id: Text) {
    CoreAt(s.entries, id) == Rebuilt(s.dir, id, c.stack, c.hash)
  }

  ghost predicate Locks(c: Config, s: State) {
    && s.at.Keys == c.jobs.Keys
    && (forall p :: p in s.at && HoldsPersona(s.at[p]) ==>
          c.jobs[p].persona in s.personaOwner && s.personaOwner[c.jobs[p].persona] == p)
    && (forall p :: p in s.at && HoldsCatalog(s.at[p]) ==> s.catalogOwner == Some(p))
  }

  ghost predicate Inv(c: Config, s: State) {
    && Locks(c, s)
    && UniqueIds(s.entries)
    && (forall p :: p in s.at && s.at[p].Loaded? ==> s.at[p].seen == s.entries)
    && (forall p :: p in s.at && Between(s.at[p]) ==>
          FileName(c.jobs[p].persona) in s.dir && s.dir[FileName(c.jobs[p].persona)] == c.jobs[p].data)
    && forall id :: !Dirty(c, s, id) ==> AgreesAt(c, s, id)
  }

  // ---------------------------------------------------------------- names

  lemma PersonaFile(dir: Volumes, persona: Text, data: Text, stack: Text, hash: Text -> Text)
    requires ValidPersona(persona) && |data| <= MAX_VOLUME_UNITS
    requires FileName(persona) in dir && dir[FileName(persona)] == data
    ensures Rebuilt(dir, persona, stack, hash) == Some(Core(persona, Schematic, [stack, persona], [], hash(data)))
  {
    StemOfNames(persona);
    var name := FileName(persona);
    assert name[0] == persona[0];
    assert Ascii("consolidated.json")[0] == 99;
  }

  /** Writing one persona's file changes what an index must hold for that persona only. */
  lemma OtherFiles(dir: Volumes, persona: Text, data: Text, id: Text, stack: Text, hash: Text -> Text)
    requires id != persona
    ensures Rebuilt(dir[FileName(persona) := data], id, stack, hash) == Rebuilt(dir, id, stack, hash)
  {
    StemOfNames(persona);
    StemOfNames(id);
    assert StemOf(FileName(persona)) == persona;
  }

  // ---------------------------------------------------------------- steps

  lemma LocksKept(c: Config, s: State, t: Turn)
    requires Locks(c, s) && Next(c, s, t).Some?
    ensures Locks(c, Next(c, s, t).value)
  {
  }

  /** Two processes are not both past a persona's lock. */
  lemma OneWriter(c: Config, s: State, p: Pid, q: Pid)
    requires Locks(c, s) && p in s.at && q in s.at
    requires HoldsPersona(s.at[p]) && HoldsPersona(s.at[q]) && c.jobs[p].persona == c.jobs[q].persona
    ensures p == q
  {
  }

  /** A step that touches neither file keeps everything. */
  lemma QuietStep(c: Config, s: State, t: Turn)
    requires Inv(c, s) && Next(c, s, t).Some? && !LosesSight(s, t)
    requires !s.at[t.p].HasPersona? && !s.at[t.p].Loaded?
    ensures Inv(c, Next(c, s, t).value)
  {
    var next, p := Next(c, s, t).value, t.p;
    LocksKept(c, s, t);
    forall id | !Dirty(c, next, id) ensures AgreesAt(c, next, id) {
      StillDirty(c, s, next, p, id);
    }
  }

  lemma VolumeStep(c: Config, s: State, t: Turn)
    requires ValidConfig(c) && Inv(c, s) && t.p in s.at && s.at[t.p].HasPersona?
    ensures Inv(c, Next(c, s, t).value)
  {
    var next, p := Next(c, s, t).value, t.p;
    LocksKept(c, s, t);
    var mine := c.jobs[p].persona;
    forall q | q in next.at && Between(next.at[q])
      ensures FileName(c.jobs[q].persona) in next.dir && next.dir[FileName(c.jobs[q].persona)] == c.jobs[q].data
    {
      if q != p {
        if c.jobs[q].persona == mine { OneWriter(c, s, p, q); }
        StemOfNames(c.jobs[q].persona);
        StemOfNames(mine);
      }
    }
    forall id | !Dirty(c, next, id) ensures AgreesAt(c, next, id) {
      assert id != mine by { assert Between(next.at[p]); }
      assert !Dirty(c, s, id) by { StillDirty(c, s, next, p, id); }
      OtherFiles(s.dir, mine, c.jobs[p].data, id, c.stack, c.hash);
    }
  }

  /** Another volume's writer is still between its writes. */
  lemma StillDirty(c: Config, s: State, next: State, p: Pid, id: Text)
    requires p in s.at && p in c.jobs && p in next.at && next.at == s.at[p := next.at[p]]
    requires c.jobs[p].persona == id && Between(s.at[p]) ==> Between(next.at[p])
    ensures Dirty(c, s, id) ==> Dirty(c, next, id)
  {
    if Dirty(c, s, id) {
      var q :| q in s.at && q in c.jobs && c.jobs[q].persona == id && Between(s.at[q]);
      assert Between(next.at[q]);
    }
  }

  lemma OneLoaded(c: Config, s: State, p: Pid)
    requires Locks(c, s) && p in s.at && s.at[p].Loaded?
    ensures forall q :: q in s.at && q != p ==> !s.at[q].Loaded?
  {
    assert HoldsCatalog(s.at[p]);
    assert forall q :: q in s.at && s.at[q].Loaded? ==> HoldsCatalog(s.at[q]);
  }

  lemma CatalogStep(c: Config, s: State, t: Turn)
    requires ValidConfig(c) && Inv(c, s) && t.p in s.at && s.at[t.p].Loaded?
    ensures Inv(c, Next(c, s, t).value)
  {
    var next, p := Next(c, s, t).value, t.p;
    LocksKept(c, s, t);
    var mine := c.jobs[p].persona;
    var e := EntryOf(c, c.jobs[p]);
    UpsertUnique(s.entries, e);
    OneLoaded(c, s, p);
    forall id | !Dirty(c, next, id) ensures AgreesAt(c, next, id) {
      UpsertCoreAt(s.entries, e, id);
      if id == mine {
        PersonaFile(s.dir, mine, c.jobs[p].data, c.stack, c.hash);
      } else {
        StillDirty(c, s, next, p, id);
      }
    }
  }

  lemma StepKeepsInv(c: Config, s: State, t: Turn)
    requires ValidConfig(c) && Inv(c, s) && Next(c, s, t).Some? && !LosesSight(s, t)
    ensures Inv(c, Next(c, s, t).value)
  {
    if s.at[t.p].HasPersona? { VolumeStep(c, s, t); }
    else if s.at[t.p].Loaded? { CatalogStep(c, s, t); }
    else { QuietStep(c, s, t); }
  }

  lemma {:induction false} RunKeepsInv(c: Config, s: State, schedule: seq<Turn>)
    requires ValidConfig(c) && Inv(c, s) && Run(c, s, schedule).Some? && SightedRun(c, s, schedule)
    ensures Inv(c, Run(c, s, schedule).value)
    decreases schedule
  {
    if schedule != [] {
      StepKeepsInv(c, s, schedule[0]);
      RunKeepsInv(c, Next(c, s, schedule[0]).value, schedule[1..]);
    }
  }

  // ---------------------------------------------------------------- agreement

  ghost predicate AllWaiting(c: Config, s: State) {
    && s.at.Keys == c.jobs.Keys && s.personaOwner == map[] && s.catalogOwner.None?
    && forall p :: p in s.at ==> s.at[p].Waiting?
  }

  /** The catalog agrees with the directory, volume by volume. */
  ghost predicate Agrees(c: Config, s: State) {
    UniqueIds(s.entries) && forall id :: AgreesAt(c, s, id)
  }

  /**
   From agreement, after any interleaving of the writers in which no read fails on a catalog with entries: volume ids stay unique at every point; once nobody is
   between its two writes the catalog agrees with the directory again, so no upsert is lost; and with distinct
   stems it is what a rebuild writes, up to order and time stamps.
   */
  lemma CatalogAgreesWithDisk(c: Config, s: State, schedule: seq<Turn>)
    requires ValidConfig(c) && AllWaiting(c, s) && Agrees(c, s)
    requires Run(c, s, schedule).Some? && SightedRun(c, s, schedule)
    ensures var end := Run(c, s, schedule).value;
      && UniqueIds(end.entries)
      && ((forall p :: p in end.at ==> !Between(end.at[p])) ==> Agrees(c, end))
  {
    assert Inv(c, s);
    RunKeepsInv(c, s, schedule);
    var end := Run(c, s, schedule).value;
    if forall p :: p in end.at ==> !Between(end.at[p]) {
      forall id ensures AgreesAt(c, end, id) {
        assert !Dirty(c, end, id);
      }
    }
  }

  /** One writer that cannot read a catalog with another persona's entry drops that entry. */
  lemma FailedReadBreaksAgreement(c: Config, s: State, p: Pid, other: Text)
    requires ValidConfig(c) && AllWaiting(c, s) && Agrees(c, s) && p in c.jobs
    requires other != c.jobs[p].persona && CoreAt(s.entries, other).Some?
    ensures var turn := Turn(p, false); var schedule := [turn, turn, turn, turn, turn];
      Run(c, s, schedule).Some? && !AgreesAt(c, Run(c, s, schedule).value, other)
  {
    var t, job := Turn(p, false), c.jobs[p];
    var s1 := Next(c, s, t).value;
    var s2 := Next(c, s1, t).value;
    var s3 := Next(c, s2, t).value;
    var s4 := Next(c, s3, t).value;
    var s5 := Next(c, s4, t).value;
    var schedule := [t, t, t, t, t];
    var t1, t2, t3, t4 := schedule[1..], schedule[2..], schedule[3..], schedule[4..];
    assert t1[1..] == t2 && t2[1..] == t3 && t3[1..] == t4 && t4[1..] == [];
    assert Run(c, s4, t4) == Some(s5);
    assert Run(c, s3, t3) == Some(s5);
    assert Run(c, s2, t2) == Some(s5);
    assert Run(c, s1, t1) == Some(s5);
    assert AgreesAt(c, s, other);
    OtherFiles(s.dir, job.persona, job.data, other, c.stack, c.hash);
    UpsertCoreAt([], EntryOf(c, job), other);
  }

  /** The same against the rebuilding method itself. */
  method RunThenReindex(c: Config, s: State, schedule: seq<Turn>, names: seq<Text>, stamp: Text -> Text)
    returns (rebuilt: seq<Entry>)
    requires ValidConfig(c) && AllWaiting(c, s) && Agrees(c, s)
    requires Run(c, s, schedule).Some? && SightedRun(c, s, schedule)
    requires forall p :: p in Run(c, s, schedule).value.at ==> Run(c, s, schedule).value.at[p].Finished?
    requires DistinctStems(Run(c, s, schedule).value.dir) && Lists(names, Run(c, s, schedule).value.dir)
    ensures multiset(Cores(Run(c, s, schedule).value.entries)) == multiset(Cores(rebuilt))
  {
    CatalogAgreesWithDisk(c, s, schedule);
    ghost var end := Run(c, s, schedule).value;
    forall id ensures CoreAt(end.entries, id) == Rebuilt(end.dir, id, c.stack, c.hash) { assert AgreesAt(c, end, id); }
    rebuilt := ReindexStack(Run(c, s, schedule).value.dir, names, c.stack, c.hash, stamp);
  }
}
