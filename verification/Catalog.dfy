/**
 The per-stack catalog: locked read-modify-write of its entries, and its rebuilding from the volume files.
 */
module Catalog {
  import opened Wrappers
  import opened Json
  import opened CanonicalJson
  import opened TransactionRecord

  const MAX_VOLUME_UNITS: nat := 8 * 1024 * 1024

  datatype Form = Narrative | Schematic

  /** What an entry says of its volume, without the time stamp. */
  datatype Core = Core(volumeId: Text, form: Form, topic: seq<Text>, entities: seq<Text>, contentHash: Text)

  datatype Entry = Entry(core: Core, lastModified: Text)

  /** Regular files of a volumes directory. */
  type Volumes = map<Text, Text>

  // ---------------------------------------------------------------- entries

  function Cores(entries: seq<Entry>): (r: seq<Core>)
    ensures |r| == |entries|
  {
    if entries == [] then [] else [entries[0].core] + Cores(entries[1..])
  }

  predicate UniqueIds(entries: seq<Entry>) {
    forall i, j :: 0 <= i < j < |entries| ==> entries[i].core.volumeId != entries[j].core.volumeId
  }

  /** Index of the first entry of a volume. */
  function IndexOf(entries: seq<Entry>, id: Text): (r: Option<nat>)
    ensures r.Some? ==> r.value < |entries| && entries[r.value].core.volumeId == id
    ensures r.None? ==> forall e :: e in entries ==> e.core.volumeId != id
  {
    if entries == [] then None
    else if entries[0].core.volumeId == id then Some(0)
    else match IndexOf(entries[1..], id) case None => None case Some(i) => Some(i + 1)
  }

  /** What the first entry of a volume says. */
  function CoreAt(entries: seq<Entry>, id: Text): Option<Core> {
    if entries == [] then None
    else if entries[0].core.volumeId == id then Some(entries[0].core)
    else CoreAt(entries[1..], id)
  }

  /** Replace the entry of the same volume, or append. */
  function Upsert(entries: seq<Entry>, e: Entry): seq<Entry> {
    match IndexOf(entries, e.core.volumeId)
    case None => entries + [e]
    case Some(i) => entries[i := e]
  }

  /** Drop every entry of the volume. */
  function Remove(entries: seq<Entry>, id: Text): seq<Entry> {
    if entries == [] then []
    else if entries[0].core.volumeId == id then Remove(entries[1..], id)
    else [entries[0]] + Remove(entries[1..], id)
  }

  lemma CoreAtNone(entries: seq<Entry>, id: Text)
    ensures CoreAt(entries, id).None? <==> forall e :: e in entries ==> e.core.volumeId != id
  {
  }

  lemma UniqueTail(entries: seq<Entry>)
    requires UniqueIds(entries) && entries != []
    ensures UniqueIds(entries[1..]) && CoreAt(entries[1..], entries[0].core.volumeId).None?
  {
    var rest := entries[1..];
    assert forall i :: 0 <= i < |rest| ==> rest[i] == entries[i + 1];
    CoreAtNone(rest, entries[0].core.volumeId);
  }

  lemma UpsertUnique(entries: seq<Entry>, e: Entry)
    requires UniqueIds(entries)
    ensures UniqueIds(Upsert(entries, e))
  {
    if IndexOf(entries, e.core.volumeId).None? {
      forall i | 0 <= i < |entries| ensures entries[i].core.volumeId != e.core.volumeId {
        assert entries[i] in entries;
      }
    }
  }

  lemma UpsertTail(entries: seq<Entry>, e: Entry)
    requires entries != []
    ensures Upsert(entries, e) ==
      if entries[0].core.volumeId == e.core.volumeId then [e] + entries[1..] else [entries[0]] + Upsert(entries[1..], e)
  {
  }

  /** An upsert sets one volume's entry and no other. */
  lemma {:induction false} UpsertCoreAt(entries: seq<Entry>, e: Entry, id: Text)
    ensures CoreAt(Upsert(entries, e), id) == if id == e.core.volumeId then Some(e.core) else CoreAt(entries, id)
  {
    if entries == [] {
      assert Upsert(entries, e) == [e];
    } else {
      UpsertTail(entries, e);
      UpsertCoreAt(entries[1..], e, id);
    }
  }

  /** A removal drops one volume's entry and no other. */
  lemma {:induction false} RemoveCoreAt(entries: seq<Entry>, id: Text, other: Text)
    ensures CoreAt(Remove(entries, id), other) == if other == id then None else CoreAt(entries, other)
  {
    if entries != [] { RemoveCoreAt(entries[1..], id, other); }
  }

  lemma {:induction false} CoreCount(entries: seq<Entry>, c: Core)
    requires UniqueIds(entries)
    ensures multiset(Cores(entries))[c] == if CoreAt(entries, c.volumeId) == Some(c) then 1 else 0
  {
    if entries != [] {
      UniqueTail(entries);
      CoreCount(entries[1..], c);
    }
  }

  /** With unique ids, two catalogs that agree volume by volume agree up to order. */
  lemma AgreeUpToOrder(a: seq<Entry>, b: seq<Entry>)
    requires UniqueIds(a) && UniqueIds(b) && forall id :: CoreAt(a, id) == CoreAt(b, id)
    ensures multiset(Cores(a)) == multiset(Cores(b))
  {
    forall c ensures multiset(Cores(a))[c] == multiset(Cores(b))[c] {
      CoreCount(a, c);
      CoreCount(b, c);
    }
  }

  // ---------------------------------------------------------------- building entries from files

  predicate EndsWith(s: Text, suffix: Text) { |suffix| <= |s| && s[|s| - |suffix|..] == suffix }

  const JSON_EXT := ".json"
  const MD_EXT := ".md"

  function FormOf(name: Text): Option<Form> {
    if EndsWith(name, Ascii(MD_EXT)) then Some(Narrative)
    else if EndsWith(name, Ascii(JSON_EXT)) then Some(Schematic)
    else None
  }

  function StemOf(name: Text): Text {
    if EndsWith(name, Ascii(MD_EXT)) then name[..|name| - 3]
    else if EndsWith(name, Ascii(JSON_EXT)) then name[..|name| - 5]
    else name
  }

  /** A volume: no dotfile, not the frozen baseline, of a known form, under the size cap. */
  predicate Indexable(dir: Volumes, name: Text) {
    && name in dir
    && !(name != [] && name[0] == 46)
    && name != Ascii("consolidated.json")
    && FormOf(name).Some?
    && |dir[name]| <= MAX_VOLUME_UNITS
  }

  /** The entry of a volume file of the agents section: identified, never extracted from. */
  function EntryOfFile(dir: Volumes, name: Text, stack: Text, hash: Text -> Text): Core
    requires Indexable(dir, name)
  {
    Core(StemOf(name), FormOf(name).value, [stack, StemOf(name)], [], hash(dir[name]))
  }

  /** No two volumes share a stem. */
  ghost predicate DistinctStems(dir: Volumes) {
    forall a, b :: Indexable(dir, a) && Indexable(dir, b) && StemOf(a) == StemOf(b) ==> a == b
  }

  /** The entry an index of the directory must have for a volume id. */
  function Rebuilt(dir: Volumes, id: Text, stack: Text, hash: Text -> Text): Option<Core> {
    if Indexable(dir, id + Ascii(JSON_EXT)) then Some(EntryOfFile(dir, id + Ascii(JSON_EXT), stack, hash))
    else if Indexable(dir, id + Ascii(MD_EXT)) then Some(EntryOfFile(dir, id + Ascii(MD_EXT), stack, hash))
    else None
  }

  lemma StemOfNames(id: Text)
    ensures StemOf(id + Ascii(JSON_EXT)) == id && FormOf(id + Ascii(JSON_EXT)) == Some(Schematic)
    ensures StemOf(id + Ascii(MD_EXT)) == id && FormOf(id + Ascii(MD_EXT)) == Some(Narrative)
    ensures id + Ascii(JSON_EXT) != id + Ascii(MD_EXT)
  {
    var j, m := id + Ascii(JSON_EXT), id + Ascii(MD_EXT);
    assert JSON_EXT[4] == 'n' && MD_EXT[2] == 'd';
    assert j[|j| - 1] == Ascii(JSON_EXT)[4] == 110;
    assert m[|m| - 1] == Ascii(MD_EXT)[2] == 100;
    assert j[|j| - 3..][2] == j[|j| - 1];
    assert !EndsWith(j, Ascii(MD_EXT));
    assert j[..|j| - 5] == id && j[|j| - 5..] == Ascii(JSON_EXT);
    assert m[..|m| - 3] == id && m[|m| - 3..] == Ascii(MD_EXT);
  }

  lemma SplitSuffix(s: Text, suffix: Text)
    requires EndsWith(s, suffix)
    ensures s == s[..|s| - |suffix|] + suffix
  {
  }

  lemma NameOfStem(name: Text)
    requires FormOf(name).Some?
    ensures name == StemOf(name) + Ascii(JSON_EXT) || name == StemOf(name) + Ascii(MD_EXT)
  {
    SplitSuffix(name, if EndsWith(name, Ascii(MD_EXT)) then Ascii(MD_EXT) else Ascii(JSON_EXT));
  }

  lemma RebuiltOfFile(dir: Volumes, name: Text, stack: Text, hash: Text -> Text)
    requires DistinctStems(dir) && Indexable(dir, name)
    ensures Rebuilt(dir, StemOf(name), stack, hash) == Some(EntryOfFile(dir, name, stack, hash))
  {
    NameOfStem(name);
    StemOfNames(StemOf(name));
  }

  lemma RebuiltFromFile(dir: Volumes, id: Text, stack: Text, hash: Text -> Text) returns (name: Text)
    requires Rebuilt(dir, id, stack, hash).Some?
    ensures Indexable(dir, name) && StemOf(name) == id
  {
    StemOfNames(id);
    name := if Indexable(dir, id + Ascii(JSON_EXT)) then id + Ascii(JSON_EXT) else id + Ascii(MD_EXT);
  }

  /** A volume is a file of at most 8 MiB named by an id and one of the two extensions, hidden ones and the baseline aside. */
  lemma IndexableIff(dir: Volumes, name: Text)
    ensures Indexable(dir, name) <==>
      && name in dir && |dir[name]| <= 8_388_608
      && (exists id: Text :: name == id + Ascii(".json") || name == id + Ascii(".md"))
      && name[0] != '.' as int && name != Ascii("consolidated.json")
  {
    if FormOf(name).Some? { NameOfStem(name); }
    if id: Text :| name == id + Ascii(".json") || name == id + Ascii(".md") {
      StemOfNames(id);
    }
  }

  /** The entry of a volume: its id, its form by the extension, the stack and the id as topics, and the digest of its text. */
  lemma EntrySpelled(dir: Volumes, id: Text, stack: Text, hash: Text -> Text)
    ensures Indexable(dir, id + Ascii(".json")) ==>
      EntryOfFile(dir, id + Ascii(".json"), stack, hash) == Core(id, Schematic, [stack, id], [], hash(dir[id + Ascii(".json")]))
    ensures Indexable(dir, id + Ascii(".md")) ==>
      EntryOfFile(dir, id + Ascii(".md"), stack, hash) == Core(id, Narrative, [stack, id], [], hash(dir[id + Ascii(".md")]))
  {
    StemOfNames(id);
  }

  // ---------------------------------------------------------------- sorting by volume id

  predicate SortedById(entries: seq<Entry>) {
    forall i, j :: 0 <= i < j < |entries| ==> !Less(entries[j].core.volumeId, entries[i].core.volumeId)
  }

  function InsertById(e: Entry, sorted: seq<Entry>): (r: seq<Entry>)
    ensures forall x :: x in r <==> x == e || x in sorted
  {
    if sorted == [] || Less(e.core.volumeId, sorted[0].core.volumeId) then [e] + sorted
    else [sorted[0]] + InsertById(e, sorted[1..])
  }

  /** Stable sort by volume id. */
  function SortById(entries: seq<Entry>): (r: seq<Entry>)
    ensures forall x :: x in r <==> x in entries
  {
    if entries == [] then []
    else
      var n := |entries| - 1;
      assert entries == entries[..n] + [entries[n]];
      InsertById(entries[n], SortById(entries[..n]))
  }

  lemma {:induction false} InsertByIdSorted(e: Entry, sorted: seq<Entry>)
    requires SortedById(sorted)
    ensures SortedById(InsertById(e, sorted))
  {
    if sorted != [] {
      var first, rest := sorted[0], sorted[1..];
      assert forall i :: 0 <= i < |rest| ==> rest[i] == sorted[i + 1];
      if Less(e.core.volumeId, first.core.volumeId) {
        LessIrreflexive(first.core.volumeId);
        forall j | 0 <= j < |sorted| ensures !Less(sorted[j].core.volumeId, e.core.volumeId) {
          NotLessTransitive(sorted[j].core.volumeId, first.core.volumeId, e.core.volumeId);
        }
      } else {
        InsertByIdSorted(e, rest);
        var r := InsertById(e, rest);
        forall j | 0 <= j < |r| ensures !Less(r[j].core.volumeId, first.core.volumeId) {
          assert r[j] in r;
          if r[j] != e {
            var k :| 0 <= k < |rest| && rest[k] == r[j];
          }
        }
      }
    }
  }

  lemma NotLessTransitive(a: Text, b: Text, c: Text)
    requires !Less(a, b) && Less(c, b)
    ensures !Less(a, c)
  {
    if Less(a, c) { LessTransitive(a, c, b); }
  }

  lemma {:induction false} SortByIdSorts(entries: seq<Entry>)
    ensures SortedById(SortById(entries))
  {
    if entries != [] {
      SortByIdSorts(entries[..|entries| - 1]);
      InsertByIdSorted(entries[|entries| - 1], SortById(entries[..|entries| - 1]));
    }
  }

  lemma {:induction false} InsertByIdKeeps(e: Entry, sorted: seq<Entry>)
    ensures multiset(Cores(InsertById(e, sorted))) == multiset(Cores(sorted)) + multiset{e.core}
  {
    if sorted != [] && !Less(e.core.volumeId, sorted[0].core.volumeId) {
      InsertByIdKeeps(e, sorted[1..]);
    }
  }

  lemma {:induction false} CoresConcat(a: seq<Entry>, b: seq<Entry>)
    ensures Cores(a + b) == Cores(a) + Cores(b)
  {
    if a == [] {
      assert a + b == b;
    } else {
      assert (a + b)[1..] == a[1..] + b;
      CoresConcat(a[1..], b);
    }
  }

  /** Sorting only reorders. */
  lemma {:induction false} SortByIdKeeps(entries: seq<Entry>)
    ensures multiset(Cores(SortById(entries))) == multiset(Cores(entries))
  {
    if entries != [] {
      var n := |entries| - 1;
      assert entries == entries[..n] + [entries[n]];
      CoresConcat(entries[..n], [entries[n]]);
      SortByIdKeeps(entries[..n]);
      InsertByIdKeeps(entries[n], SortById(entries[..n]));
    }
  }

  // ---------------------------------------------------------------- rebuilding a stack

  /** The listing of a directory: every regular file once. */
  ghost predicate Lists(names: seq<Text>, dir: Volumes) {
    && (forall n :: n in names <==> n in dir)
    && forall i, j :: 0 <= i < j < |names| ==> names[i] != names[j]
  }

  function Gather(dir: Volumes, names: seq<Text>, stack: Text, hash: Text -> Text, stamp: Text -> Text): seq<Entry> {
    if names == [] then []
    else
      Gather(dir, names[..|names| - 1], stack, hash, stamp)
      + (if Indexable(dir, names[|names| - 1])
         then [Entry(EntryOfFile(dir, names[|names| - 1], stack, hash), stamp(names[|names| - 1]))] else [])
  }

  lemma {:induction false} GatherMembers(dir: Volumes, names: seq<Text>, stack: Text, hash: Text -> Text, stamp: Text -> Text,
                                         e: Entry)
    ensures e in Gather(dir, names, stack, hash, stamp) <==>
      exists n :: n in names && Indexable(dir, n) && e == Entry(EntryOfFile(dir, n, stack, hash), stamp(n))
  {
    if names != [] {
      var k := |names| - 1;
      GatherMembers(dir, names[..k], stack, hash, stamp, e);
      assert names == names[..k] + [names[k]];
    }
  }

  lemma {:induction false} GatherUnique(dir: Volumes, names: seq<Text>, stack: Text, hash: Text -> Text, stamp: Text -> Text)
    requires DistinctStems(dir) && forall i, j :: 0 <= i < j < |names| ==> names[i] != names[j]
    ensures UniqueIds(Gather(dir, names, stack, hash, stamp))
  {
    if names != [] {
      var k := |names| - 1;
      GatherUnique(dir, names[..k], stack, hash, stamp);
      var before := Gather(dir, names[..k], stack, hash, stamp);
      if Indexable(dir, names[k]) {
        forall i | 0 <= i < |before| ensures before[i].core.volumeId != StemOf(names[k]) {
          GatherMembers(dir, names[..k], stack, hash, stamp, before[i]);
          var n :| n in names[..k] && Indexable(dir, n) && before[i] == Entry(EntryOfFile(dir, n, stack, hash), stamp(n));
          var m :| 0 <= m < k && names[m] == n;
        }
      }
    }
  }

  /** What is gathered from a directory is what an index of it must hold. */
  lemma GatherIsRebuilt(dir: Volumes, names: seq<Text>, stack: Text, hash: Text -> Text, stamp: Text -> Text, id: Text)
    requires DistinctStems(dir) && Lists(names, dir)
    ensures CoreAt(Gather(dir, names, stack, hash, stamp), id) == Rebuilt(dir, id, stack, hash)
  {
    var all := Gather(dir, names, stack, hash, stamp);
    CoreAtNone(all, id);
    CoreAtFound(all, id);
    match CoreAt(all, id)
    case Some(c) =>
      var e :| e in all && e.core == c && c.volumeId == id;
      GatherMembers(dir, names, stack, hash, stamp, e);
      var n :| n in names && Indexable(dir, n) && e == Entry(EntryOfFile(dir, n, stack, hash), stamp(n));
      RebuiltOfFile(dir, n, stack, hash);
    case None =>
      if Rebuilt(dir, id, stack, hash).Some? {
        var n := RebuiltFromFile(dir, id, stack, hash);
        GatherMembers(dir, names, stack, hash, stamp, Entry(EntryOfFile(dir, n, stack, hash), stamp(n)));
      }
  }

  lemma CoreAtFound(entries: seq<Entry>, id: Text)
    ensures CoreAt(entries, id).Some? ==> exists e :: e in entries && e.core == CoreAt(entries, id).value && e.core.volumeId == id
  {
    if entries != [] && entries[0].core.volumeId != id {
      CoreAtFound(entries[1..], id);
    } else if entries != [] {
      assert entries[0] in entries;
    }
  }

  /** Rebuild from the files: gather every volume's entry, sort by volume id. */
  method ReindexStack(dir: Volumes, names: seq<Text>, stack: Text, hash: Text -> Text, stamp: Text -> Text)
    returns (rebuilt: seq<Entry>)
    requires Lists(names, dir)
    ensures SortedById(rebuilt)
    ensures DistinctStems(dir) ==> forall index ::
      UniqueIds(index) && (forall id :: CoreAt(index, id) == Rebuilt(dir, id, stack, hash)) ==> multiset(Cores(index)) == multiset(Cores(rebuilt))
  {
    var gathered: seq<Entry> := [];
    for i := 0 to |names|
      invariant gathered == Gather(dir, names[..i], stack, hash, stamp)
    {
      assert names[..i + 1][..i] == names[..i];
      if Indexable(dir, names[i]) {
        gathered := gathered + [Entry(EntryOfFile(dir, names[i], stack, hash), stamp(names[i]))];
      }
    }
    assert names[..|names|] == names;
    SortByIdSorts(gathered);
    SortByIdKeeps(gathered);
    rebuilt := SortById(gathered);
    if DistinctStems(dir) {
      GatherUnique(dir, names, stack, hash, stamp);
      forall index | UniqueIds(index) && (forall id :: CoreAt(index, id) == Rebuilt(dir, id, stack, hash))
        ensures multiset(Cores(index)) == multiset(Cores(rebuilt))
      {
        forall id ensures CoreAt(index, id) == CoreAt(gathered, id) { GatherIsRebuilt(dir, names, stack, hash, stamp, id); }
        AgreeUpToOrder(index, gathered);
      }
    }
  }

  // ---------------------------------------------------------------- the catalog file

  /** `version` is missing when the file has none. */
  datatype Body = Body(stack: Text, version: Option<int>, lastRebuilt: Option<Text>, entries: seq<Entry>)

  datatype File = Missing | Corrupt | Stored(body: Body)

  datatype Reply = Written | Unchanged | LockTimeout | Threw

  function EmptyBody(stack: Text, supported: Option<int>): Body {
    Body(stack, Some(if supported.Some? && supported.value != 0 then supported.value else 1), None, [])
  }

  /** The catalog a reader works with; a corrupt file or a newer schema version makes it throw. */
  function Readable(file: File, stack: Text, supported: Option<int>): Option<Body> {
    match file
    case Missing => Some(EmptyBody(stack, supported))
    case Corrupt => None
    case Stored(b) =>
      if supported.Some? && b.version.Some? && b.version.value > supported.value then None else Some(b)
  }

  function Stamped(b: Body, stack: Text, supported: Option<int>, now: Text): Body {
    var version :=
      if b.version.Some? && b.version.value != 0 then b.version
      else EmptyBody(stack, supported).version;
    Body(stack, version, Some(now), b.entries)
  }

  /** Throws for a corrupt file and a newer version alone; a missing file is an empty catalog of the supported version, or 1. */
  lemma ReadableIff(file: File, stack: Text, supported: Option<int>)
    ensures Readable(file, stack, supported).None? <==>
      || file.Corrupt?
      || (file.Stored? && file.body.version.Some? && supported.Some? && supported.value < file.body.version.value)
    ensures Readable(file, stack, supported).Some? ==>
      var b := Readable(file, stack, supported).value;
      && (file.Stored? ==> b == file.body)
      && (file.Missing? ==> b == Body(stack, if supported in {None, Some(0)} then Some(1) else supported, None, []))
  {
  }

  function EntriesOf(file: File): seq<Entry> { if file.Stored? then file.body.entries else [] }

  /** What a reader sees: a file that cannot be opened is taken as missing. */
  function Seen(file: File, opens: bool): File { if opens then file else Missing }

  class CatalogStore {
    const stack: Text
    const supported: Option<int>
    var file: File

    constructor (stack: Text, supported: Option<int>, file: File)
      ensures this.stack == stack && this.supported == supported && this.file == file
    {
      this.stack, this.supported, this.file := stack, supported, file;
    }

    /**
     Read, replace or append, stamp, write. One volume's entry is set; every other stored one is kept exactly when
     the file could be opened or held no other.
     */
    method UpsertEntry(e: Entry, gotLock: bool, opens: bool, writes: bool, now: Text) returns (reply: Reply)
      modifies this
      ensures reply.Written? <==>
        e.core.volumeId != [] && gotLock && Readable(Seen(old(file), opens), stack, supported).Some? && writes
      ensures reply.LockTimeout? <==> e.core.volumeId != [] && !gotLock
      ensures !reply.Unchanged? && (!reply.Written? ==> file == old(file))
      ensures reply.Written? ==>
        var read := Readable(Seen(old(file), opens), stack, supported).value;
        file == Stored(Stamped(read.(entries := Upsert(read.entries, e)), stack, supported, now))
      ensures reply.Written? ==> CoreAt(EntriesOf(file), e.core.volumeId) == Some(e.core)
      ensures reply.Written? ==>
        ((forall id :: id != e.core.volumeId ==> CoreAt(EntriesOf(file), id) == CoreAt(EntriesOf(old(file)), id)) <==>
         opens || forall x :: x in EntriesOf(old(file)) ==> x.core.volumeId == e.core.volumeId)
    {
      if e.core.volumeId == [] { return Threw; }
      if !gotLock { return LockTimeout; }
      var read := Readable(Seen(file, opens), stack, supported);
      if read.None? || !writes { return Threw; }
      var entries := read.value.entries;
      var i := FindIndex(entries, e.core.volumeId);
      var next := if i < |entries| then entries[i := e] else entries + [e];
      OthersKept(entries, e, EntriesOf(file), opens);
      file := Stored(Stamped(read.value.(entries := next), stack, supported, now));
      return Written;
    }

    /**
     Drop a volume's entry; nothing is written when none is seen. After a reply of success the volume is gone and
     every other entry kept, exactly when the file could be opened or did not hold it.
     */
    method RemoveEntry(id: Text, gotLock: bool, opens: bool, writes: bool, now: Text) returns (reply: Reply)
      modifies this
      ensures !reply.Written? ==> file == old(file)
      ensures reply.Unchanged? <==>
        || old(file).Missing?
        || (&& gotLock && Readable(Seen(old(file), opens), stack, supported).Some?
            && CoreAt(EntriesOf(Seen(old(file), opens)), id).None?)
      ensures reply.LockTimeout? <==> !old(file).Missing? && !gotLock
      ensures reply.Threw? ==> gotLock && (Readable(Seen(old(file), opens), stack, supported).None? || !writes)
      ensures reply.Written? ==> file.Stored? && file.body.lastRebuilt == Some(now)
      ensures reply.Written? || reply.Unchanged? ==>
        ((forall other :: CoreAt(EntriesOf(file), other) ==
                          if other == id then None else CoreAt(EntriesOf(old(file)), other)) <==>
         opens || CoreAt(EntriesOf(old(file)), id).None?)
    {
      if file.Missing? { return Unchanged; }
      if !gotLock { return LockTimeout; }
      var read := Readable(Seen(file, opens), stack, supported);
      if read.None? { return Threw; }
      var next := Remove(read.value.entries, id);
      forall other ensures CoreAt(next, other) == if other == id then None else CoreAt(read.value.entries, other) {
        RemoveCoreAt(read.value.entries, id, other);
      }
      RemoveLength(read.value.entries, id);
      RemoveNothing(read.value.entries, id);
      if |next| == |read.value.entries| { return Unchanged; }
      if !writes { return Threw; }
      file := Stored(Stamped(read.value.(entries := next), stack, supported, now));
      return Written;
    }
  }

  lemma OthersKept(entries: seq<Entry>, e: Entry, stored: seq<Entry>, opens: bool)
    requires entries == if opens then stored else []
    ensures CoreAt(Upsert(entries, e), e.core.volumeId) == Some(e.core)
    ensures (forall id :: id != e.core.volumeId ==> CoreAt(Upsert(entries, e), id) == CoreAt(stored, id)) <==>
            opens || forall x :: x in stored ==> x.core.volumeId == e.core.volumeId
  {
    forall id ensures CoreAt(Upsert(entries, e), id) == if id == e.core.volumeId then Some(e.core) else CoreAt(entries, id) {
      UpsertCoreAt(entries, e, id);
    }
    if opens || forall x :: x in stored ==> x.core.volumeId == e.core.volumeId {
      forall id | id != e.core.volumeId ensures CoreAt(Upsert(entries, e), id) == CoreAt(stored, id) {
        CoreAtNone(stored, id);
      }
    }
    if x :| !opens && x in stored && x.core.volumeId != e.core.volumeId {
      CoreAtNone(stored, x.core.volumeId);
      assert CoreAt(Upsert(entries, e), x.core.volumeId) != CoreAt(stored, x.core.volumeId);
    }
  }

  /** The index of the volume's first entry, or past the end. */
  method FindIndex(entries: seq<Entry>, id: Text) returns (i: nat)
    ensures IndexOf(entries, id) == if i < |entries| then Some(i) else None
    ensures i <= |entries|
  {
    i := 0;
    while i < |entries| && entries[i].core.volumeId != id
      invariant i <= |entries|
      invariant IndexOf(entries, id) == ShiftIndex(IndexOf(entries[i..], id), i)
    {
      i := i + 1;
    }
  }

  function ShiftIndex(r: Option<nat>, k: nat): Option<nat> {
    match r case None => None case Some(i) => Some(i + k)
  }

  lemma RemoveNothing(entries: seq<Entry>, id: Text)
    ensures CoreAt(entries, id).None? ==> Remove(entries, id) == entries
  {
  }

  lemma RemoveLength(entries: seq<Entry>, id: Text)
    ensures |Remove(entries, id)| <= |entries|
    ensures |Remove(entries, id)| == |entries| ==> Remove(entries, id) == entries
  {
  }
}
