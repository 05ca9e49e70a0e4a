/**
 The library migration saga: back up, copy and verify, swap in symlinks, write the sentinel; and its rollback.
 Every change of the disk is one step of `history`, so `history` lists every state a crash can leave.
 */
module Migration {
  import opened Wrappers
  import Utf8

  type Path = string
  type Bytes = Utf8.Bytes

  datatype Node = File(bytes: Bytes) | Link(target: Path)
  type Nodes = map<Path, Node>

  /** The completion marker: missing, not JSON, or naming the run that wrote it. */
  datatype Sentinel = NoSentinel | Garbled | DoneBy(run: string)

  /** One row of a backup manifest. */
  datatype Saved = Saved(legacy: Path, backup: Path, contentHash: string, size: nat)
  datatype Manifest = GarbledManifest | Listing(rows: seq<Saved>)

  datatype State = State(nodes: Nodes, sentinel: Sentinel, manifests: map<string, Manifest>)

  /** A file to migrate, with its volume and its backup for this run. */
  datatype Entry = Entry(legacy: Path, target: Path, backup: Path)

  /** Content hashing, and what decoding bytes as UTF-8 and encoding the text again makes of them. */
  datatype Codec = Codec(hash: Bytes -> string, recode: Bytes -> Bytes)

  // ---------------------------------------------------------------- paths

  /** Follow symlinks for at most `hops` steps. */
  function Chase(nodes: Nodes, p: Path, hops: nat): Path
    decreases hops, p
  {
    if hops == 0 || p !in nodes || nodes[p].File? then p else Chase(nodes, nodes[p].target, hops - 1)
  }

  /** The regular file behind a path, as opening it finds it. */
  function Real(nodes: Nodes, p: Path): (r: Option<Path>)
    ensures r.Some? ==> r.value in nodes && nodes[r.value].File?
  {
    var q := Chase(nodes, p, 40);
    if q in nodes && nodes[q].File? then Some(q) else None
  }

  function Read(nodes: Nodes, p: Path): Option<Bytes> {
    match Real(nodes, p)
    case Some(q) => Some(nodes[q].bytes)
    case None => None
  }

  predicate IsLink(nodes: Nodes, p: Path) { p in nodes && nodes[p].Link? }
  predicate IsFile(nodes: Nodes, p: Path) { p in nodes && nodes[p].File? }
  predicate Holds(nodes: Nodes, p: Path, b: Bytes) { p in nodes && nodes[p] == File(b) }

  function BytesAt(nodes: Nodes, p: Path): Bytes { if IsFile(nodes, p) then nodes[p].bytes else [] }

  // ---------------------------------------------------------------- entries

  predicate OwnPaths(e: Entry) { e.legacy != e.target && e.legacy != e.backup && e.target != e.backup }

  predicate Apart(e: Entry, f: Entry) {
    && e.legacy != f.legacy && e.legacy != f.target && e.legacy != f.backup
    && e.target != f.legacy && e.target != f.target && e.target != f.backup
    && e.backup != f.legacy && e.backup != f.target && e.backup != f.backup
  }

  predicate NotAt(e: Entry, p: Path) { p != e.legacy && p != e.target && p != e.backup }

  predicate Distinct(es: seq<Entry>) {
    && (forall e :: e in es ==> OwnPaths(e))
    && (forall i, j :: 0 <= i < j < |es| ==> Apart(es[i], es[j]))
  }

  function Present(nodes: Nodes, es: seq<Entry>): (r: seq<Entry>)
    ensures forall e :: e in r <==> e in es && IsFile(nodes, e.legacy)
  {
    if es == [] then []
    else (if IsFile(nodes, es[0].legacy) then [es[0]] else []) + Present(nodes, es[1..])
  }

  function Symlinked(nodes: Nodes, es: seq<Entry>): (r: seq<Entry>)
    ensures forall e :: e in r <==> e in es && IsLink(nodes, e.legacy) && Real(nodes, e.legacy).Some?
  {
    if es == [] then []
    else
      (if IsLink(nodes, es[0].legacy) && Real(nodes, es[0].legacy).Some? then [es[0]] else [])
      + Symlinked(nodes, es[1..])
  }

  lemma ApartFromRest(es: seq<Entry>, e: Entry)
    requires Distinct(es) && es != [] && e in es[1..]
    ensures Apart(es[0], e)
  {
    var j :| 0 <= j < |es[1..]| && es[1..][j] == e;
    assert es[j + 1] == e;
  }

  lemma {:induction false} PresentDistinct(nodes: Nodes, es: seq<Entry>)
    requires Distinct(es)
    ensures Distinct(Present(nodes, es))
  {
    if es != [] {
      var rest := es[1..];
      assert forall i, j :: 0 <= i < j < |rest| ==> rest[i] == es[i + 1] && rest[j] == es[j + 1];
      PresentDistinct(nodes, rest);
      var r := Present(nodes, rest);
      forall i | 0 <= i < |r| ensures Apart(es[0], r[i]) {
        ApartFromRest(es, r[i]);
      }
    }
  }

  function RowOf(nodes: Nodes, e: Entry, codec: Codec): Saved {
    var b := BytesAt(nodes, e.legacy);
    Saved(e.legacy, e.backup, codec.hash(b), |b|)
  }

  function RowsOf(nodes: Nodes, es: seq<Entry>, codec: Codec): (r: seq<Saved>)
    ensures |r| == |es| && forall i :: 0 <= i < |r| ==> r[i] == RowOf(nodes, es[i], codec)
  {
    if es == [] then [] else RowsOf(nodes, es[..|es| - 1], codec) + [RowOf(nodes, es[|es| - 1], codec)]
  }

  lemma RowsNext(nodes: Nodes, es: seq<Entry>, i: nat, codec: Codec)
    requires i < |es|
    ensures RowsOf(nodes, es[..i + 1], codec) == RowsOf(nodes, es[..i], codec) + [RowOf(nodes, es[i], codec)]
  {
    assert es[..i + 1][..i] == es[..i];
  }

  // ---------------------------------------------------------------- what every crash point keeps

  /** Volumes and backups are no symlinks. */
  predicate PlainTargets(nodes: Nodes, es: seq<Entry>) {
    forall e :: e in es ==> !IsLink(nodes, e.target) && !IsLink(nodes, e.backup)
  }

  /** The content that was at the legacy path is still there, or it is both in the volume and in the backup. */
  predicate Kept(nodes: Nodes, first: Nodes, e: Entry, codec: Codec) {
    var c := BytesAt(first, e.legacy);
    || Holds(nodes, e.legacy, c)
    || (&& Holds(nodes, e.backup, c) && Holds(nodes, e.target, c) && codec.recode(c) == c
        && (e.legacy in nodes ==> nodes[e.legacy] == Link(e.target)))
  }

  predicate BackedUp(nodes: Nodes, first: Nodes, e: Entry, codec: Codec) {
    Holds(nodes, e.backup, codec.recode(BytesAt(first, e.legacy)))
  }

  ghost predicate SameOutside(nodes: Nodes, first: Nodes, es: seq<Entry>) {
    forall p :: (forall e :: e in es ==> p != e.legacy && p != e.target && p != e.backup) ==>
                  (p in nodes <==> p in first) && (p in first ==> p in nodes && nodes[p] == first[p])
  }

  /** `es` are the entries that were regular files in `first`. */
  ghost predicate CrashSafe(st: State, first: Nodes, es: seq<Entry>, run: string, codec: Codec) {
    && PlainTargets(st.nodes, es)
    && SameOutside(st.nodes, first, es)
    && (forall e :: e in es ==> Kept(st.nodes, first, e, codec))
    && (run in st.manifests ==>
          && st.manifests[run] == Listing(RowsOf(first, es, codec))
          && forall e :: e in es ==> BackedUp(st.nodes, first, e, codec))
  }

  predicate Stable(first: Nodes, e: Entry, codec: Codec) {
    codec.recode(BytesAt(first, e.legacy)) == BytesAt(first, e.legacy)
  }

  predicate AllStable(first: Nodes, es: seq<Entry>, codec: Codec) {
    forall e :: e in es ==> Stable(first, e, codec)
  }

  /** The hash tells each content from its recoded form. */
  predicate Separates(first: Nodes, es: seq<Entry>, codec: Codec) {
    forall e :: e in es ==>
      var c := BytesAt(first, e.legacy); codec.hash(codec.recode(c)) == codec.hash(c) ==> codec.recode(c) == c
  }

  lemma ReadThroughLink(nodes: Nodes, p: Path, q: Path, b: Bytes)
    requires p in nodes && nodes[p] == Link(q) && Holds(nodes, q, b)
    ensures Real(nodes, p) == Some(q) && Read(nodes, p) == Some(b)
  {
    assert Chase(nodes, q, 39) == q;
    assert Chase(nodes, p, 40) == Chase(nodes, q, 39);
  }

  /** The same symlinks with the same targets. */
  ghost predicate SameLinks(nodes: Nodes, next: Nodes) {
    forall x :: x in nodes || x in next ==>
      (IsLink(nodes, x) <==> IsLink(next, x)) && (IsLink(nodes, x) ==> next[x] == nodes[x])
  }

  /** Writing where a chain leads makes the chain lead there, loops included. */
  lemma {:induction false} ChaseWritten(nodes: Nodes, p: Path, b: Bytes, hops: nat, more: nat)
    requires hops <= more
    ensures var at := Chase(nodes, p, hops); Chase(nodes[at := File(b)], p, more) == at
    decreases hops
  {
    if hops > 0 && p in nodes && nodes[p].Link? {
      ChaseWritten(nodes, nodes[p].target, b, hops - 1, more - 1);
    }
  }

  /** What a write through symlinks leaves to be read. */
  lemma WriteThrough(nodes: Nodes, p: Path, b: Bytes)
    ensures var at := Chase(nodes, p, 10);
      && Read(nodes[at := File(b)], p) == Some(b)
      && (!IsLink(nodes, at) ==> SameLinks(nodes, nodes[at := File(b)]))
  {
    ChaseWritten(nodes, p, b, 10, 40);
  }

  datatype Outcome =
    | NotInitialized
    | AlreadyComplete
    | SentinelCorrupt
    | OtherRun
    | BadSymlink(path: Path)
    | CopyMismatch(path: Path)
    | Complete

  datatype Undo = NoManifest | ManifestCorrupt | BackupMissing(path: Path) | RestoreMismatch(path: Path) | RolledBack

  // ---------------------------------------------------------------- saga stages

  /** Progress: backups done, copies verified, links in place, and whether the next legacy path is unlinked. */
  datatype Progress = Progress(backed: nat, copied: nat, linked: nat, gap: bool)

  predicate LegacyAt(nodes: Nodes, first: Nodes, e: Entry, k: nat, p: Progress) {
    if k < p.linked then e.legacy in nodes && nodes[e.legacy] == Link(e.target)
    else if k == p.linked && p.gap then e.legacy !in nodes
    else Holds(nodes, e.legacy, BytesAt(first, e.legacy))
  }

  predicate EntryAt(nodes: Nodes, first: Nodes, e: Entry, k: nat, p: Progress, codec: Codec) {
    && LegacyAt(nodes, first, e, k, p)
    && (k < p.backed ==> BackedUp(nodes, first, e, codec))
    && (k < p.copied ==> Holds(nodes, e.target, BytesAt(first, e.legacy)) && Stable(first, e, codec))
    && !IsLink(nodes, e.target) && !IsLink(nodes, e.backup)
  }

  ghost predicate At(nodes: Nodes, first: Nodes, es: seq<Entry>, p: Progress, codec: Codec) {
    && (p.copied > 0 ==> p.backed == |es|)
    && (p.linked > 0 || p.gap ==> p.copied == |es|)
    && SameOutside(nodes, first, es)
    && (forall k :: 0 <= k < |es| ==> EntryAt(nodes, first, es[k], k, p, codec))
  }

  lemma AtIsSafe(st: State, first: Nodes, es: seq<Entry>, p: Progress, run: string, codec: Codec)
    requires At(st.nodes, first, es, p, codec)
    requires run in st.manifests ==> st.manifests[run] == Listing(RowsOf(first, es, codec)) && p.backed >= |es|
    ensures CrashSafe(st, first, es, run, codec)
  {
    forall e | e in es
      ensures Kept(st.nodes, first, e, codec) && !IsLink(st.nodes, e.target) && !IsLink(st.nodes, e.backup)
      ensures run in st.manifests ==> BackedUp(st.nodes, first, e, codec)
    {
      var k :| 0 <= k < |es| && es[k] == e;
      assert EntryAt(st.nodes, first, es[k], k, p, codec);
    }
  }

  lemma AtStart(first: Nodes, es: seq<Entry>, codec: Codec)
    requires forall e :: e in es ==> IsFile(first, e.legacy)
    requires PlainTargets(first, es)
    ensures At(first, first, es, Progress(0, 0, 0, false), codec)
  {
  }

  /** One write or removal at a path of entry `i` leaves every other entry alone. */
  lemma OthersKeep(nodes: Nodes, next: Nodes, first: Nodes, es: seq<Entry>, i: nat, at: Path, p: Progress, q: Progress,
                   codec: Codec)
    requires At(nodes, first, es, p, codec) && Distinct(es) && i < |es|
    requires at == es[i].legacy || at == es[i].target || at == es[i].backup
    requires forall x :: x != at ==> (x in next <==> x in nodes) && (x in nodes ==> x in next && next[x] == nodes[x])
    requires forall k :: 0 <= k < |es| && k != i ==>
               EntryAt(nodes, first, es[k], k, p, codec) ==> EntryAt(nodes, first, es[k], k, q, codec)
    ensures forall k :: 0 <= k < |es| && k != i ==> EntryAt(next, first, es[k], k, q, codec)
    ensures SameOutside(next, first, es)
  {
    forall k | 0 <= k < |es| && k != i ensures EntryAt(next, first, es[k], k, q, codec) {
      assert Apart(es[k], es[i]) by { if k < i { assert Apart(es[k], es[i]); } else { assert Apart(es[i], es[k]); } }
      assert EntryAt(nodes, first, es[k], k, p, codec);
    }
    forall x | forall e :: e in es ==> x != e.legacy && x != e.target && x != e.backup
      ensures (x in next <==> x in first) && (x in first ==> x in next && next[x] == first[x])
    {
      assert es[i] in es;
      assert x != at;
    }
  }

  lemma BackupStep(nodes: Nodes, first: Nodes, es: seq<Entry>, i: nat, codec: Codec)
    requires At(nodes, first, es, Progress(i, 0, 0, false), codec) && Distinct(es) && i < |es|
    ensures Read(nodes, es[i].legacy) == Some(BytesAt(first, es[i].legacy))
    ensures Chase(nodes, es[i].backup, 10) == es[i].backup
    ensures At(nodes[es[i].backup := File(codec.recode(BytesAt(first, es[i].legacy)))], first, es,
               Progress(i + 1, 0, 0, false), codec)
  {
    var e := es[i];
    var p, q := Progress(i, 0, 0, false), Progress(i + 1, 0, 0, false);
    var next := nodes[e.backup := File(codec.recode(BytesAt(first, e.legacy)))];
    assert EntryAt(nodes, first, e, i, p, codec) && OwnPaths(e);
    OthersKeep(nodes, next, first, es, i, e.backup, p, q, codec);
    assert EntryAt(next, first, e, i, q, codec);
  }

  /** The copy before its check, and the check's verdict. */
  lemma CopyStep(nodes: Nodes, first: Nodes, es: seq<Entry>, i: nat, codec: Codec)
    requires At(nodes, first, es, Progress(|es|, i, 0, false), codec) && Distinct(es) && i < |es|
    ensures Read(nodes, es[i].legacy) == Some(BytesAt(first, es[i].legacy))
    ensures Chase(nodes, es[i].target, 10) == es[i].target
    ensures var next := nodes[es[i].target := File(codec.recode(BytesAt(first, es[i].legacy)))];
      && At(next, first, es, Progress(|es|, i, 0, false), codec)
      && Read(next, es[i].target) == Some(codec.recode(BytesAt(first, es[i].legacy)))
      && (Stable(first, es[i], codec) ==> At(next, first, es, Progress(|es|, i + 1, 0, false), codec))
  {
    var e := es[i];
    var p, q := Progress(|es|, i, 0, false), Progress(|es|, i + 1, 0, false);
    var next := nodes[e.target := File(codec.recode(BytesAt(first, e.legacy)))];
    assert EntryAt(nodes, first, e, i, p, codec) && OwnPaths(e);
    OthersKeep(nodes, next, first, es, i, e.target, p, p, codec);
    OthersKeep(nodes, next, first, es, i, e.target, p, q, codec);
    assert EntryAt(next, first, e, i, p, codec);
    if Stable(first, e, codec) { assert EntryAt(next, first, e, i, q, codec); }
  }

  lemma SwapStep(nodes: Nodes, first: Nodes, es: seq<Entry>, i: nat, codec: Codec)
    requires At(nodes, first, es, Progress(|es|, |es|, i, false), codec) && Distinct(es) && i < |es|
    ensures es[i].legacy in nodes
    ensures At(nodes - {es[i].legacy}, first, es, Progress(|es|, |es|, i, true), codec)
    ensures At((nodes - {es[i].legacy})[es[i].legacy := Link(es[i].target)], first, es,
               Progress(|es|, |es|, i + 1, false), codec)
  {
    var e := es[i];
    var p, q, r := Progress(|es|, |es|, i, false), Progress(|es|, |es|, i, true), Progress(|es|, |es|, i + 1, false);
    var gone := nodes - {e.legacy};
    var next := gone[e.legacy := Link(e.target)];
    assert EntryAt(nodes, first, e, i, p, codec) && OwnPaths(e);
    OthersKeep(nodes, gone, first, es, i, e.legacy, p, q, codec);
    assert EntryAt(gone, first, e, i, q, codec);
    OthersKeep(nodes, next, first, es, i, e.legacy, p, r, codec);
    assert EntryAt(next, first, e, i, r, codec);
  }

  /** Linked entries read as what they were. */
  lemma LinkedReads(nodes: Nodes, first: Nodes, es: seq<Entry>, codec: Codec)
    requires At(nodes, first, es, Progress(|es|, |es|, |es|, false), codec)
    ensures forall e :: e in es ==>
      IsLink(nodes, e.legacy) && nodes[e.legacy].target == e.target && Read(nodes, e.legacy) == Some(BytesAt(first, e.legacy))
  {
    forall e | e in es ensures
      IsLink(nodes, e.legacy) && nodes[e.legacy].target == e.target && Read(nodes, e.legacy) == Some(BytesAt(first, e.legacy))
    {
      var k :| 0 <= k < |es| && es[k] == e;
      assert EntryAt(nodes, first, e, k, Progress(|es|, |es|, |es|, false), codec);
      ReadThroughLink(nodes, e.legacy, e.target, BytesAt(first, e.legacy));
    }
  }

  /** Every state from the `from`-th on is crash-safe. */
  ghost predicate SafeSince(history: seq<State>, from: nat, first: Nodes, es: seq<Entry>, run: string, codec: Codec) {
    from <= |history| && forall i :: from <= i < |history| ==> CrashSafe(history[i], first, es, run, codec)
  }

  lemma SafeLonger(shorter: seq<State>, longer: seq<State>, from: nat, first: Nodes, es: seq<Entry>, run: string, codec: Codec)
    requires shorter <= longer
    requires SafeSince(shorter, from, first, es, run, codec) && SafeSince(longer, |shorter|, first, es, run, codec)
    ensures SafeSince(longer, from, first, es, run, codec)
  {
    forall i | from <= i < |longer| ensures CrashSafe(longer[i], first, es, run, codec) {
      if i < |shorter| { assert longer[i] == shorter[i]; }
    }
  }

  lemma SafeStep(history: seq<State>, st: State, from: nat, first: Nodes, es: seq<Entry>, run: string, codec: Codec)
    requires SafeSince(history, from, first, es, run, codec) && CrashSafe(st, first, es, run, codec)
    ensures SafeSince(history + [st], from, first, es, run, codec)
  {
    assert forall i :: |history| <= i < |history + [st]| ==> (history + [st])[i] == st;
    SafeLonger(history, history + [st], from, first, es, run, codec);
  }

  // ---------------------------------------------------------------- rollback steps

  /** The node map with a live symlink at `p` removed. */
  function Cleared(nodes: Nodes, p: Path): Nodes {
    if Real(nodes, p).Some? && IsLink(nodes, p) then nodes - {p} else nodes
  }

  /** A crash-safe state with its manifest. */
  ghost predicate Restorable(st: State, first: Nodes, es: seq<Entry>, run: string, codec: Codec) {
    && CrashSafe(st, first, es, run, codec)
    && run in st.manifests
    && Distinct(es)
    && Separates(first, es, codec)
    && (forall e :: e in es ==> IsFile(first, e.legacy))
  }

  ghost predicate RestoredTo(st: State, history: seq<State>, from: nat, first: Nodes, es: seq<Entry>, i: nat, run: string,
                             codec: Codec)
  {
    && Restorable(st, first, es, run, codec)
    && i <= |es|
    && SafeSince(history, from, first, es, run, codec)
    && forall k :: 0 <= k < i ==> Stable(first, es[k], codec) && Holds(st.nodes, es[k].legacy, BytesAt(first, es[k].legacy))
  }

  /** What restoring one entry reads and where it writes. */
  lemma RestoreReads(st: State, first: Nodes, es: seq<Entry>, i: nat, run: string, codec: Codec)
    requires Restorable(st, first, es, run, codec) && i < |es|
    ensures var cleared, c := Cleared(st.nodes, es[i].legacy), BytesAt(first, es[i].legacy);
      && Read(cleared, es[i].backup) == Some(codec.recode(c))
      && Chase(cleared, es[i].legacy, 10) == es[i].legacy
      && (cleared != st.nodes ==> Kept(cleared, first, es[i], codec))
      && (codec.hash(codec.recode(c)) == codec.hash(c) <==> Stable(first, es[i], codec))
  {
    assert es[i] in es;
    EntryReads(st.nodes, first, es[i], codec);
  }

  lemma EntryReads(nodes: Nodes, first: Nodes, e: Entry, codec: Codec)
    requires Kept(nodes, first, e, codec) && BackedUp(nodes, first, e, codec) && OwnPaths(e)
    ensures var cleared, c := Cleared(nodes, e.legacy), BytesAt(first, e.legacy);
      && Read(cleared, e.backup) == Some(codec.recode(c))
      && Chase(cleared, e.legacy, 10) == e.legacy
      && (cleared != nodes ==> Kept(cleared, first, e, codec))
  {
    if IsLink(nodes, e.legacy) {
      ReadThroughLink(nodes, e.legacy, e.target, BytesAt(first, e.legacy));
    }
  }

  /** Restoring one stable entry keeps the disk crash-safe at both of its steps. */
  lemma RestoredOne(was: State, next: State, before: seq<State>, after: seq<State>, from: nat, first: Nodes,
                    es: seq<Entry>, i: nat, run: string, codec: Codec)
    requires RestoredTo(was, before, from, first, es, i, run, codec) && i < |es| && Stable(first, es[i], codec)
    requires var cleared := Cleared(was.nodes, es[i].legacy);
      && next == was.(nodes := cleared[es[i].legacy := File(BytesAt(first, es[i].legacy))])
      && after == before + (if cleared != was.nodes then [was.(nodes := cleared)] else []) + [next]
    ensures RestoredTo(next, after, from, first, es, i + 1, run, codec)
  {
    var gone := was.(nodes := Cleared(was.nodes, es[i].legacy));
    RestoredSafe(was, next, first, es, i, run, codec);
    if gone.nodes != was.nodes { ClearedSafe(was, gone, first, es, i, run, codec); }
    SafeSteps(before, gone, next, gone.nodes != was.nodes, from, first, es, run, codec);
    StillRestored(was.nodes, next.nodes, first, es, i, codec);
  }

  lemma RestoredSafe(was: State, next: State, first: Nodes, es: seq<Entry>, i: nat, run: string, codec: Codec)
    requires Restorable(was, first, es, run, codec) && i < |es|
    requires next == was.(nodes := Cleared(was.nodes, es[i].legacy)[es[i].legacy := File(BytesAt(first, es[i].legacy))])
    ensures CrashSafe(next, first, es, run, codec)
  {
    LegacyOnly(was, next, first, es, i, run, codec);
  }

  lemma ClearedSafe(was: State, gone: State, first: Nodes, es: seq<Entry>, i: nat, run: string, codec: Codec)
    requires Restorable(was, first, es, run, codec) && i < |es|
    requires gone == was.(nodes := Cleared(was.nodes, es[i].legacy)) && gone.nodes != was.nodes
    ensures CrashSafe(gone, first, es, run, codec)
  {
    RestoreReads(was, first, es, i, run, codec);
    LegacyOnly(was, gone, first, es, i, run, codec);
  }

  lemma SafeSteps(before: seq<State>, gone: State, next: State, two: bool, from: nat, first: Nodes, es: seq<Entry>,
                  run: string, codec: Codec)
    requires SafeSince(before, from, first, es, run, codec) && CrashSafe(next, first, es, run, codec)
    requires two ==> CrashSafe(gone, first, es, run, codec)
    ensures SafeSince(before + (if two then [gone] else []) + [next], from, first, es, run, codec)
  {
    if two {
      SafeStep(before, gone, from, first, es, run, codec);
      SafeStep(before + [gone], next, from, first, es, run, codec);
    } else {
      SafeStep(before, next, from, first, es, run, codec);
      assert before + [] == before;
    }
  }

  lemma SentinelCleared(was: State, next: State, before: seq<State>, after: seq<State>, from: nat, first: Nodes,
                        es: seq<Entry>, run: string, codec: Codec)
    requires RestoredTo(was, before, from, first, es, |es|, run, codec)
    requires next == was.(sentinel := NoSentinel) && (after == before || after == before + [next])
    ensures AllStable(first, es, codec)
    ensures forall e :: e in es ==> Holds(next.nodes, e.legacy, BytesAt(first, e.legacy))
    ensures CrashSafe(next, first, es, run, codec) && SafeSince(after, from, first, es, run, codec)
  {
    SafeStep(before, next, from, first, es, run, codec);
  }

  lemma StillRestored(nodes: Nodes, next: Nodes, first: Nodes, es: seq<Entry>, i: nat, codec: Codec)
    requires Distinct(es) && i < |es|
    requires forall k :: 0 <= k < i ==> Holds(nodes, es[k].legacy, BytesAt(first, es[k].legacy))
    requires next == Cleared(nodes, es[i].legacy)[es[i].legacy := File(BytesAt(first, es[i].legacy))]
    ensures forall k :: 0 <= k < i + 1 ==> Holds(next, es[k].legacy, BytesAt(first, es[k].legacy))
  {
    forall k | 0 <= k < i ensures Holds(next, es[k].legacy, BytesAt(first, es[k].legacy)) {
      assert Apart(es[k], es[i]);
    }
  }

  /** A change at one legacy path that keeps its own content kept is crash-safe. */
  lemma LegacyOnly(st: State, next: State, first: Nodes, es: seq<Entry>, i: nat, run: string, codec: Codec)
    requires CrashSafe(st, first, es, run, codec) && Distinct(es) && i < |es|
    requires next.manifests == st.manifests
    requires forall x :: x != es[i].legacy ==>
               (x in next.nodes <==> x in st.nodes) && (x in st.nodes ==> x in next.nodes && next.nodes[x] == st.nodes[x])
    requires Kept(next.nodes, first, es[i], codec)
    ensures CrashSafe(next, first, es, run, codec)
  {
    forall e | e in es
      ensures Kept(next.nodes, first, e, codec) && !IsLink(next.nodes, e.target) && !IsLink(next.nodes, e.backup)
      ensures run in st.manifests ==> BackedUp(next.nodes, first, e, codec)
    {
      assert Kept(st.nodes, first, e, codec);
      ApartFrom(es, i, e);
      if e != es[i] { EntryUntouched(st.nodes, next.nodes, first, e, es[i].legacy, codec); }
    }
    assert es[i] in es;
  }

  lemma ApartFrom(es: seq<Entry>, i: nat, e: Entry)
    requires Distinct(es) && i < |es| && e in es
    ensures OwnPaths(e) && (e != es[i] ==> NotAt(e, es[i].legacy))
  {
    var k :| 0 <= k < |es| && es[k] == e;
    if k < i { assert Apart(es[k], es[i]); }
    if i < k { assert Apart(es[i], es[k]); }
  }

  lemma EntryUntouched(nodes: Nodes, next: Nodes, first: Nodes, e: Entry, at: Path, codec: Codec)
    requires Kept(nodes, first, e, codec) && NotAt(e, at)
    requires forall x :: x != at ==> (x in next <==> x in nodes) && (x in nodes ==> x in next && next[x] == nodes[x])
    ensures Kept(next, first, e, codec)
    ensures BackedUp(nodes, first, e, codec) ==> BackedUp(next, first, e, codec)
  {
  }

  // ---------------------------------------------------------------- the disk

  class Disk {
    var st: State
    ghost var history: seq<State>

    constructor (st: State)
      ensures this.st == st && history == []
    {
      this.st := st;
      history := [];
    }

    /**
     Write to what the path resolves to. Reading the path then gives the bytes, and every symlink stays, unless the
     chain is longer than ten.
     */
    method WriteAtomic(p: Path, b: Bytes)
      modifies this
      ensures st == old(st).(nodes := old(st).nodes[Chase(old(st).nodes, p, 10) := File(b)])
      ensures history == old(history) + [st]
      ensures Read(st.nodes, p) == Some(b)
      ensures !IsLink(old(st).nodes, Chase(old(st).nodes, p, 10)) ==> SameLinks(old(st).nodes, st.nodes)
    {
      WriteThrough(st.nodes, p, b);
      var at := Chase(st.nodes, p, 10);
      st := st.(nodes := st.nodes[at := File(b)]);
      history := history + [st];
    }

    method Unlink(p: Path)
      requires p in st.nodes
      modifies this
      ensures st == old(st).(nodes := old(st).nodes - {p}) && history == old(history) + [st]
    {
      st := st.(nodes := st.nodes - {p});
      history := history + [st];
    }

    method Symlink(target: Path, p: Path)
      requires p !in st.nodes
      modifies this
      ensures st == old(st).(nodes := old(st).nodes[p := Link(target)]) && history == old(history) + [st]
    {
      st := st.(nodes := st.nodes[p := Link(target)]);
      history := history + [st];
    }

    method WriteManifest(run: string, rows: seq<Saved>)
      modifies this
      ensures st == old(st).(manifests := old(st).manifests[run := Listing(rows)]) && history == old(history) + [st]
    {
      st := st.(manifests := st.manifests[run := Listing(rows)]);
      history := history + [st];
    }

    method SetSentinel(sentinel: Sentinel)
      modifies this
      ensures st == old(st).(sentinel := sentinel) && history == old(history) + [st]
    {
      st := st.(sentinel := sentinel);
      history := history + [st];
    }

    /** Pre-existing symlinks must lead to their own volumes. */
    method CheckSymlinks(linked: seq<Entry>) returns (bad: Option<Path>)
      ensures bad.None? <==> forall e :: e in linked ==>
                Real(st.nodes, e.legacy).Some? && Real(st.nodes, e.legacy) == Real(st.nodes, e.target)
    {
      for i := 0 to |linked|
        invariant forall k :: 0 <= k < i ==>
          Real(st.nodes, linked[k].legacy).Some? && Real(st.nodes, linked[k].legacy) == Real(st.nodes, linked[k].target)
      {
        var actual := Real(st.nodes, linked[i].legacy);
        var expected := Real(st.nodes, linked[i].target);
        if actual.None? || expected.None? || actual != expected {
          assert linked[i] in linked;
          return Some(linked[i].legacy);
        }
      }
      return None;
    }

    method BackUpOne(present: seq<Entry>, i: nat, run: string, codec: Codec, ghost first: Nodes) returns (row: Saved)
      requires i < |present| && run !in st.manifests && Distinct(present)
      requires At(st.nodes, first, present, Progress(i, 0, 0, false), codec)
      modifies this
      ensures At(st.nodes, first, present, Progress(i + 1, 0, 0, false), codec)
      ensures st.sentinel == old(st).sentinel && st.manifests == old(st).manifests
      ensures row == RowOf(first, present[i], codec)
      ensures history == old(history) + [st] && CrashSafe(st, first, present, run, codec)
    {
      BackupStep(st.nodes, first, present, i, codec);
      var content := Read(st.nodes, present[i].legacy).value;
      WriteAtomic(present[i].backup, codec.recode(content));
      row := Saved(present[i].legacy, present[i].backup, codec.hash(content), |content|);
      AtIsSafe(st, first, present, Progress(i + 1, 0, 0, false), run, codec);
    }

    method BackUp(present: seq<Entry>, run: string, codec: Codec, ghost first: Nodes)
      requires first == st.nodes && run !in st.manifests
      requires Distinct(present) && PlainTargets(st.nodes, present)
      requires forall e :: e in present ==> IsFile(first, e.legacy)
      modifies this
      ensures At(st.nodes, first, present, Progress(|present|, 0, 0, false), codec)
      ensures st.sentinel == old(st).sentinel
      ensures st.manifests == old(st).manifests[run := Listing(RowsOf(first, present, codec))]
      ensures old(history) <= history && SafeSince(history, |old(history)|, first, present, run, codec)
    {
      var rows := [];
      AtStart(first, present, codec);
      for i := 0 to |present|
        invariant At(st.nodes, first, present, Progress(i, 0, 0, false), codec)
        invariant old(history) <= history
        invariant st.sentinel == old(st).sentinel && st.manifests == old(st).manifests
        invariant rows == RowsOf(first, present[..i], codec)
        invariant SafeSince(history, |old(history)|, first, present, run, codec)
      {
        ghost var before := history;
        var row := BackUpOne(present, i, run, codec, first);
        rows := rows + [row];
        RowsNext(first, present, i, codec);
        SafeStep(before, st, |old(history)|, first, present, run, codec);
      }
      assert present[..|present|] == present;
      ghost var backed := history;
      WriteManifest(run, rows);
      AtIsSafe(st, first, present, Progress(|present|, 0, 0, false), run, codec);
      SafeStep(backed, st, |old(history)|, first, present, run, codec);
    }

    method CopyOne(present: seq<Entry>, i: nat, run: string, codec: Codec, ghost first: Nodes) returns (same: bool)
      requires At(st.nodes, first, present, Progress(|present|, i, 0, false), codec) && i < |present|
      requires Distinct(present) && Separates(first, present, codec)
      requires run in st.manifests && st.manifests[run] == Listing(RowsOf(first, present, codec))
      modifies this
      ensures same <==> Stable(first, present[i], codec)
      ensures At(st.nodes, first, present, Progress(|present|, if same then i + 1 else i, 0, false), codec)
      ensures st.sentinel == old(st).sentinel && st.manifests == old(st).manifests
      ensures history == old(history) + [st] && CrashSafe(st, first, present, run, codec)
    {
      var e := present[i];
      assert e in present;
      CopyStep(st.nodes, first, present, i, codec);
      var source := Read(st.nodes, e.legacy).value;
      WriteAtomic(e.target, codec.recode(source));
      AtIsSafe(st, first, present, Progress(|present|, i, 0, false), run, codec);
      var written := Read(st.nodes, e.target).value;
      same := codec.hash(source) == codec.hash(written);
    }

    /** Phase 1: copy each file into its volume and check what was written. */
    method CopyAll(present: seq<Entry>, run: string, codec: Codec, ghost first: Nodes) returns (bad: Option<Path>)
      requires At(st.nodes, first, present, Progress(|present|, 0, 0, false), codec)
      requires Distinct(present) && Separates(first, present, codec)
      requires run in st.manifests && st.manifests[run] == Listing(RowsOf(first, present, codec))
      modifies this
      ensures bad.None? <==> AllStable(first, present, codec)
      ensures bad.Some? ==> exists e :: e in present && e.legacy == bad.value && !Stable(first, e, codec)
      ensures bad.Some? ==> CrashSafe(st, first, present, run, codec)
      ensures bad.None? ==> At(st.nodes, first, present, Progress(|present|, |present|, 0, false), codec)
      ensures forall e :: e in present ==> Holds(st.nodes, e.legacy, BytesAt(first, e.legacy))
      ensures st.sentinel == old(st).sentinel && st.manifests == old(st).manifests
      ensures old(history) <= history
      ensures SafeSince(history, |old(history)|, first, present, run, codec)
    {
      var done := CopyLoop(present, run, codec, first);
      StillThere(st.nodes, first, present, done, codec);
      if done < |present| {
        assert present[done] in present;
        return Some(present[done].legacy);
      }
      return None;
    }

    /** How many copies verified; the next one, if any, did not. */
    method CopyLoop(present: seq<Entry>, run: string, codec: Codec, ghost first: Nodes) returns (done: nat)
      requires At(st.nodes, first, present, Progress(|present|, 0, 0, false), codec)
      requires Distinct(present) && Separates(first, present, codec)
      requires run in st.manifests && st.manifests[run] == Listing(RowsOf(first, present, codec))
      modifies this
      ensures done <= |present| && At(st.nodes, first, present, Progress(|present|, done, 0, false), codec)
      ensures forall k :: 0 <= k < done ==> Stable(first, present[k], codec)
      ensures done < |present| ==> !Stable(first, present[done], codec) && CrashSafe(st, first, present, run, codec)
      ensures st.sentinel == old(st).sentinel && st.manifests == old(st).manifests
      ensures old(history) <= history
      ensures SafeSince(history, |old(history)|, first, present, run, codec)
    {
      for i := 0 to |present|
        invariant At(st.nodes, first, present, Progress(|present|, i, 0, false), codec)
        invariant forall k :: 0 <= k < i ==> Stable(first, present[k], codec)
        invariant st.sentinel == old(st).sentinel && st.manifests == old(st).manifests
        invariant old(history) <= history
        invariant SafeSince(history, |old(history)|, first, present, run, codec)
      {
        ghost var before := history;
        var same := CopyOne(present, i, run, codec, first);
        SafeStep(before, st, |old(history)|, first, present, run, codec);
        if !same { return i; }
      }
      return |present|;
    }

    /** Phase 2: each legacy path becomes a symlink to its volume. */
    method SwapAll(present: seq<Entry>, run: string, codec: Codec, ghost first: Nodes)
      requires At(st.nodes, first, present, Progress(|present|, |present|, 0, false), codec)
      requires Distinct(present)
      requires run in st.manifests && st.manifests[run] == Listing(RowsOf(first, present, codec))
      modifies this
      ensures At(st.nodes, first, present, Progress(|present|, |present|, |present|, false), codec)
      ensures st.sentinel == old(st).sentinel && st.manifests == old(st).manifests
      ensures old(history) <= history
      ensures SafeSince(history, |old(history)|, first, present, run, codec)
    {
      for i := 0 to |present|
        invariant At(st.nodes, first, present, Progress(|present|, |present|, i, false), codec)
        invariant st.sentinel == old(st).sentinel && st.manifests == old(st).manifests
        invariant old(history) <= history
        invariant SafeSince(history, |old(history)|, first, present, run, codec)
      {
        ghost var before := history;
        SwapOne(present, i, run, codec, first);
        SafeLonger(before, history, |old(history)|, first, present, run, codec);
      }
    }

    method SwapOne(present: seq<Entry>, i: nat, run: string, codec: Codec, ghost first: Nodes)
      requires At(st.nodes, first, present, Progress(|present|, |present|, i, false), codec)
      requires Distinct(present) && i < |present|
      requires run in st.manifests && st.manifests[run] == Listing(RowsOf(first, present, codec))
      modifies this
      ensures At(st.nodes, first, present, Progress(|present|, |present|, i + 1, false), codec)
      ensures st.sentinel == old(st).sentinel && st.manifests == old(st).manifests
      ensures old(history) <= history
      ensures SafeSince(history, |old(history)|, first, present, run, codec)
    {
      SwapStep(st.nodes, first, present, i, codec);
      Unlink(present[i].legacy);
      ghost var gone := st;
      AtIsSafe(gone, first, present, Progress(|present|, |present|, i, true), run, codec);
      Symlink(present[i].target, present[i].legacy);
      AtIsSafe(st, first, present, Progress(|present|, |present|, i + 1, false), run, codec);
      SafeSteps(old(history), gone, st, true, |old(history)|, first, present, run, codec);
    }

    /**
     The saga. Each outcome comes exactly in its case; every state on the way is crash-safe; at the end each
     legacy path is a symlink through which the original bytes are read.
     */
    method Migrate(run: string, entries: seq<Entry>, initialized: bool, codec: Codec) returns (outcome: Outcome)
      requires Distinct(entries)
      requires initialized && st.sentinel.NoSentinel? ==>
        && run !in st.manifests
        && PlainTargets(st.nodes, Present(st.nodes, entries))
        && Separates(st.nodes, Present(st.nodes, entries), codec)
      modifies this
      ensures outcome.NotInitialized? <==> !initialized
      ensures outcome.SentinelCorrupt? <==> initialized && old(st).sentinel.Garbled?
      ensures outcome.AlreadyComplete? <==> initialized && old(st).sentinel == DoneBy(run)
      ensures outcome.OtherRun? <==> initialized && old(st).sentinel.DoneBy? && old(st).sentinel.run != run
      ensures outcome.BadSymlink? <==>
        && initialized && old(st).sentinel.NoSentinel?
        && exists e :: e in Symlinked(old(st).nodes, entries) && Real(old(st).nodes, e.legacy) != Real(old(st).nodes, e.target)
      ensures !outcome.CopyMismatch? && !outcome.Complete? ==> st == old(st) && history == old(history)
      ensures outcome.CopyMismatch? ==> exists e ::
        e in Present(old(st).nodes, entries) && e.legacy == outcome.path && !Stable(old(st).nodes, e, codec)
      ensures outcome.CopyMismatch? || outcome.Complete? ==>
        CrashSafe(st, old(st).nodes, Present(old(st).nodes, entries), run, codec)
      ensures outcome.CopyMismatch? ==> st.sentinel.NoSentinel? && forall e ::
        e in Present(old(st).nodes, entries) ==> Holds(st.nodes, e.legacy, BytesAt(old(st).nodes, e.legacy))
      ensures outcome.Complete? ==> AllStable(old(st).nodes, Present(old(st).nodes, entries), codec)
      ensures outcome.Complete? ==> st.sentinel == DoneBy(run) && forall e ::
        e in Present(old(st).nodes, entries) ==>
          && IsLink(st.nodes, e.legacy) && st.nodes[e.legacy].target == e.target
          && Read(st.nodes, e.legacy) == Some(BytesAt(old(st).nodes, e.legacy))
      ensures outcome.CopyMismatch? || outcome.Complete? ==>
        st.manifests == old(st).manifests[run := Listing(RowsOf(old(st).nodes, Present(old(st).nodes, entries), codec))]
      ensures SafeSince(history, |old(history)|, old(st).nodes, Present(old(st).nodes, entries), run, codec)
      ensures outcome.Complete? ==> history != [] && history[|history| - 1] == st
    {
      if !initialized { return NotInitialized; }
      match st.sentinel {
        case Garbled => return SentinelCorrupt;
        case DoneBy(other) => return if other == run then AlreadyComplete else OtherRun;
        case NoSentinel =>
      }
      var present := Present(st.nodes, entries);
      var wrong := CheckSymlinks(Symlinked(st.nodes, entries));
      if wrong.Some? { return BadSymlink(wrong.value); }
      PresentDistinct(st.nodes, entries);
      outcome := RunSaga(present, run, codec, st.nodes);
    }

    /** The saga proper, on the files that are regular. */
    method RunSaga(present: seq<Entry>, run: string, codec: Codec, ghost first: Nodes) returns (outcome: Outcome)
      requires first == st.nodes && run !in st.manifests && st.sentinel.NoSentinel?
      requires Distinct(present) && PlainTargets(st.nodes, present) && Separates(first, present, codec)
      requires forall e :: e in present ==> IsFile(first, e.legacy)
      modifies this
      ensures outcome.CopyMismatch? || outcome.Complete?
      ensures outcome.CopyMismatch? ==> exists e :: e in present && e.legacy == outcome.path && !Stable(first, e, codec)
      ensures outcome.CopyMismatch? ==>
        st.sentinel.NoSentinel? && forall e :: e in present ==> Holds(st.nodes, e.legacy, BytesAt(first, e.legacy))
      ensures outcome.Complete? ==> AllStable(first, present, codec)
      ensures outcome.Complete? ==> st.sentinel == DoneBy(run) && forall e :: e in present ==>
        && IsLink(st.nodes, e.legacy) && st.nodes[e.legacy].target == e.target
        && Read(st.nodes, e.legacy) == Some(BytesAt(first, e.legacy))
      ensures st.manifests == old(st).manifests[run := Listing(RowsOf(first, present, codec))]
      ensures CrashSafe(st, first, present, run, codec)
      ensures SafeSince(history, |old(history)|, first, present, run, codec)
      ensures outcome.Complete? ==> history != [] && history[|history| - 1] == st
    {
      var bad := BackUpAndCopy(present, run, codec, first);
      if bad.Some? { return CopyMismatch(bad.value); }
      ghost var copied := history;
      Finish(present, run, codec, first);
      SafeLonger(copied, history, |old(history)|, first, present, run, codec);
      return Complete;
    }

    method BackUpAndCopy(present: seq<Entry>, run: string, codec: Codec, ghost first: Nodes) returns (bad: Option<Path>)
      requires first == st.nodes && run !in st.manifests
      requires Distinct(present) && PlainTargets(st.nodes, present) && Separates(first, present, codec)
      requires forall e :: e in present ==> IsFile(first, e.legacy)
      modifies this
      ensures bad.None? <==> AllStable(first, present, codec)
      ensures bad.Some? ==> exists e :: e in present && e.legacy == bad.value && !Stable(first, e, codec)
      ensures bad.Some? ==> CrashSafe(st, first, present, run, codec)
      ensures bad.None? ==> At(st.nodes, first, present, Progress(|present|, |present|, 0, false), codec)
      ensures forall e :: e in present ==> Holds(st.nodes, e.legacy, BytesAt(first, e.legacy))
      ensures st.sentinel == old(st).sentinel
      ensures st.manifests == old(st).manifests[run := Listing(RowsOf(first, present, codec))]
      ensures old(history) <= history && SafeSince(history, |old(history)|, first, present, run, codec)
    {
      BackUp(present, run, codec, first);
      ghost var backed := history;
      bad := CopyAll(present, run, codec, first);
      SafeLonger(backed, history, |old(history)|, first, present, run, codec);
    }

    /** The symlinks and the sentinel. */
    method Finish(present: seq<Entry>, run: string, codec: Codec, ghost first: Nodes)
      requires At(st.nodes, first, present, Progress(|present|, |present|, 0, false), codec) && Distinct(present)
      requires run in st.manifests && st.manifests[run] == Listing(RowsOf(first, present, codec))
      modifies this
      ensures st.sentinel == DoneBy(run) && st.manifests == old(st).manifests
      ensures forall e :: e in present ==>
        && IsLink(st.nodes, e.legacy) && st.nodes[e.legacy].target == e.target
        && Read(st.nodes, e.legacy) == Some(BytesAt(first, e.legacy))
      ensures CrashSafe(st, first, present, run, codec)
      ensures old(history) < history && history[|history| - 1] == st
      ensures SafeSince(history, |old(history)|, first, present, run, codec)
    {
      SwapAll(present, run, codec, first);
      LinkedReads(st.nodes, first, present, codec);
      ghost var swapped := history;
      SetSentinel(DoneBy(run));
      AtIsSafe(st, first, present, Progress(|present|, |present|, |present|, false), run, codec);
      SafeStep(swapped, st, |old(history)|, first, present, run, codec);
    }

    /** Running a completed migration again with its run id changes nothing. */
    method MigrateTwice(run: string, entries: seq<Entry>, codec: Codec)
      returns (one: Outcome, two: Outcome, between: State)
      requires Distinct(entries)
      requires st.sentinel.NoSentinel? && run !in st.manifests
      requires PlainTargets(st.nodes, Present(st.nodes, entries))
      requires Separates(st.nodes, Present(st.nodes, entries), codec)
      modifies this
      ensures one.Complete? ==> two.AlreadyComplete? && st == between && history != [] && history[|history| - 1] == between
      ensures one.Complete? ==> st.sentinel == DoneBy(run) && forall e ::
        e in Present(old(st).nodes, entries) ==> Read(st.nodes, e.legacy) == Some(BytesAt(old(st).nodes, e.legacy))
    {
      two := NotInitialized;
      one := Migrate(run, entries, true, codec);
      between := st;
      if one.Complete? {
        two := Migrate(run, entries, true, codec);
      }
    }

    /** Put one backup back: drop a symlink, write, then compare hashes. */
    method Restore(row: Saved, codec: Codec) returns (failed: Option<Undo>)
      modifies this
      ensures old(history) <= history
      ensures var cleared := Cleared(old(st).nodes, row.legacy); var kept := Read(cleared, row.backup);
        && (kept.None? ==> failed == Some(BackupMissing(row.backup)))
        && (kept.Some? ==>
              && st == old(st).(nodes := cleared[Chase(cleared, row.legacy, 10) := File(codec.recode(kept.value))])
              && failed == if codec.hash(kept.value) == row.contentHash then None else Some(RestoreMismatch(row.legacy)))
        && history == old(history)
             + (if cleared != old(st).nodes then [old(st).(nodes := cleared)] else [])
             + (if kept.Some? then [st] else [])
    {
      failed := None;
      if Real(st.nodes, row.legacy).Some? && IsLink(st.nodes, row.legacy) {
        Unlink(row.legacy);
        assert row.legacy !in st.nodes;
      }
      var restored := Read(st.nodes, row.backup);
      if restored.None? { return Some(BackupMissing(row.backup)); }
      WriteAtomic(row.legacy, codec.recode(restored.value));
      if codec.hash(restored.value) != row.contentHash {
        return Some(RestoreMismatch(row.legacy));
      }
    }

    /**
     From any crash-safe state with the manifest written, rollback completes exactly when every original survives
     being decoded and encoded; then each legacy path is a regular file with its original bytes, the sentinel is
     gone, and every state on the way is crash-safe again.
     */
    method Rollback(run: string, codec: Codec, ghost first: Nodes, ghost es: seq<Entry>) returns (undo: Undo)
      modifies this
      ensures run !in old(st).manifests ==> undo.NoManifest? && st == old(st)
      ensures run in old(st).manifests && old(st).manifests[run].GarbledManifest? ==> undo.ManifestCorrupt? && st == old(st)
      ensures Restorable(old(st), first, es, run, codec) ==>
        && (undo.RolledBack? <==> AllStable(first, es, codec))
        && (undo.RolledBack? ==>
              && st.sentinel.NoSentinel?
              && (forall e :: e in es ==> Holds(st.nodes, e.legacy, BytesAt(first, e.legacy)))
              && CrashSafe(st, first, es, run, codec)
              && SafeSince(history, |old(history)|, first, es, run, codec))
        && (!undo.RolledBack? ==>
              exists e :: e in es && undo == RestoreMismatch(e.legacy) && !Stable(first, e, codec)
                && Holds(st.nodes, e.legacy, codec.recode(codec.recode(BytesAt(first, e.legacy)))))
    {
      if run !in st.manifests { return NoManifest; }
      if st.manifests[run].GarbledManifest? { return ManifestCorrupt; }
      var rows := st.manifests[run].rows;
      ghost var good := Restorable(st, first, es, run, codec);
      for i := 0 to |rows|
        invariant old(history) <= history
        invariant good ==> RestoredTo(st, history, |old(history)|, first, es, i, run, codec)
      {
        ghost var was, before := st, history;
        if good { RestoreReads(st, first, es, i, run, codec); }
        var failed := Restore(rows[i], codec);
        if failed.Some? {
          return failed.value;
        }
        if good { RestoredOne(was, st, before, history, |old(history)|, first, es, i, run, codec); }
      }
      ghost var restored, before := st, history;
      if st.sentinel != NoSentinel {
        SetSentinel(NoSentinel);
      }
      if good { SentinelCleared(restored, st, before, history, |old(history)|, first, es, run, codec); }
      return RolledBack;
    }
  }

  /** Every crash point of a migration after its manifest is one that rollback restores from. */
  lemma CrashPointsRestorable(history: seq<State>, from: nat, i: nat, first: Nodes, entries: seq<Entry>, run: string,
                              codec: Codec)
    requires Distinct(entries) && Separates(first, Present(first, entries), codec)
    requires SafeSince(history, from, first, Present(first, entries), run, codec)
    requires from <= i < |history| && run in history[i].manifests
    ensures Restorable(history[i], first, Present(first, entries), run, codec)
  {
    PresentDistinct(first, entries);
  }

  lemma StillThere(nodes: Nodes, first: Nodes, es: seq<Entry>, i: nat, codec: Codec)
    requires At(nodes, first, es, Progress(|es|, i, 0, false), codec)
    ensures forall e :: e in es ==> Holds(nodes, e.legacy, BytesAt(first, e.legacy))
  {
    forall e | e in es ensures Holds(nodes, e.legacy, BytesAt(first, e.legacy)) {
      var k :| 0 <= k < |es| && es[k] == e;
      assert EntryAt(nodes, first, e, k, Progress(|es|, i, 0, false), codec);
    }
  }

  lemma BrokenByte()
    ensures Utf8.Recode([0xFF]) == Utf8.REPLACEMENT_BYTES
    ensures Utf8.Recode(Utf8.REPLACEMENT_BYTES) == Utf8.REPLACEMENT_BYTES
  {
    Utf8.RecodeStep([0xFF]);
    Utf8.ReplacementWhole(Utf8.REPLACEMENT_BYTES);
    Utf8.RecodeStep(Utf8.REPLACEMENT_BYTES);
    assert Utf8.Recode([]) == [];
  }

  /** One entry on a disk that holds only its legacy file. */
  lemma LoneEntry(e: Entry, b: Bytes, codec: Codec)
    requires OwnPaths(e) && (codec.hash(codec.recode(b)) == codec.hash(b) ==> codec.recode(b) == b)
    ensures var first: Nodes := map[e.legacy := File(b)];
      && Present(first, [e]) == [e] && BytesAt(first, e.legacy) == b
      && Distinct([e]) && PlainTargets(first, [e]) && Separates(first, [e], codec)
      && Symlinked(first, [e]) == []
  {
    assert [e][1..] == [];
  }

  /**
   A legacy file of the single byte FF, which is not UTF-8: the migration stops at its copy check with the file in
   place, and the rollback then overwrites the file with the replacement character.
   */
  method RollbackLosesByte(e: Entry, run: string, hash: Bytes -> string)
    returns (one: Outcome, between: State, undo: Undo, after: State)
    requires OwnPaths(e) && hash(Utf8.REPLACEMENT_BYTES) != hash([0xFF])
    ensures one == CopyMismatch(e.legacy) && Holds(between.nodes, e.legacy, [0xFF])
    ensures undo == RestoreMismatch(e.legacy) && Holds(after.nodes, e.legacy, Utf8.REPLACEMENT_BYTES)
  {
    var codec := Codec(hash, Utf8.Recode);
    ghost var first: Nodes := map[e.legacy := File([0xFF])];
    BrokenByte();
    LoneEntry(e, [0xFF], codec);
    var disk := new Disk(State(map[e.legacy := File([0xFF])], NoSentinel, map[]));
    one := MigrateBroken(disk, e, run, codec, first);
    between := disk.st;
    undo := RollBackBroken(disk, e, run, codec, first);
    after := disk.st;
  }

  method MigrateBroken(disk: Disk, e: Entry, run: string, codec: Codec, ghost first: Nodes) returns (one: Outcome)
    requires disk.st == State(first, NoSentinel, map[]) && IsFile(first, e.legacy) && !Stable(first, e, codec)
    requires Present(first, [e]) == [e] && Symlinked(first, [e]) == []
    requires Distinct([e]) && PlainTargets(first, [e]) && Separates(first, [e], codec)
    modifies disk
    ensures one == CopyMismatch(e.legacy) && Holds(disk.st.nodes, e.legacy, BytesAt(first, e.legacy))
    ensures Restorable(disk.st, first, [e], run, codec)
  {
    one := disk.Migrate(run, [e], true, codec);
    assert e in Present(first, [e]);
  }

  method RollBackBroken(disk: Disk, e: Entry, run: string, codec: Codec, ghost first: Nodes) returns (undo: Undo)
    requires Restorable(disk.st, first, [e], run, codec) && !Stable(first, e, codec)
    modifies disk
    ensures undo == RestoreMismatch(e.legacy)
    ensures Holds(disk.st.nodes, e.legacy, codec.recode(codec.recode(BytesAt(first, e.legacy))))
  {
    assert e in [e];
    undo := disk.Rollback(run, codec, first, [e]);
  }
}
