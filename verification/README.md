# Verified model of the kernel's record system

This project models, in Dafny, the content-addressed record system of the kernel and the components beside it whose
promises reach over all inputs, all interleavings or all crash points, and proves those promises of the model.

- `Json`, `CanonicalJson`, `TransactionRecord`: the canonical serializer as a class with its running node count, a
  reader that undoes it, and the ids and idempotency keys that are digests of its output.
- `RecordRules`: what the validator and the genesis recognizer accept, spelled out.
- `RecordStore`, `KeyedAppend`: the per-run record directory, and many appenders racing on one key; `LockedAppend`: the
  same over the lock files of `LockProtocol`.
- `LockProtocol`: the lock file as a step machine over inodes; `LockedUpdate`: reading and rewriting a file under
  such a lock.
- `MemoryBlocks`, `Demote`: the fence-aware block parser and the move of a block between two files; `FenceSpans` and
  `AnchorRules` say without the parser's state what blocks and anchors are.
- `Migration`: the migration saga and its rollback on a disk of regular files and symlinks. `history` lists every
  state the disk goes through, so a statement about all of `history` is one about all crash points.
- `EvidenceGate`, `Reachability`, `Provenance`, `Lineage`, `DeepFreeze`: bounded walks over chains and graphs;
  `LifecycleRules` spells out the lifecycle states on the fields of the log.
- `Utf8`, `Lines`, `Journal`, `Witness`: append-only logs as bytes, what decoding and encoding makes of them, and their
  readers.
- `Catalog`, `PersonaWrites`: the catalog index and its writers.
- `SynthId`: the identity printer and parser.
- `Samples`: actual records at which promises of the record store fail.

Check it with `dafny verify dfyconfig.toml`.

## Hypotheses

- SHA-256 is a function parameter. Where two digests must differ, the lemma asks that the digest tells apart the
  texts involved, never that it is injective on everything.
- A string is a sequence of UTF-16 code units, except in `MemoryBlocks`, `Demote`, `Lineage` and `Migration` paths,
  which use Dafny characters. Numbers are the tokens they print as. Values are free of `toJSON`, getters and proxies.
- `LockProtocol.SplitMutualExclusionIff` and the lemmas named Split have every step split and no process exiting.
  The lemmas named Crash let processes crash and restart anywhere and take the read, liveness check and unlink of a
  dead owner's file as one step; `LockedAppend` runs the appenders over these lock files. Liveness is exact, and a pid
  is written in one step. `KeyedAppend` and `LockedUpdate` use the abstract lock that the crash model refines;
  `PersonaWrites` uses it without crashes or timeouts. A lock timeout may happen at any time where timeouts are allowed.
- A read or listing may fail at any time. The code takes a failed read of a log, ledger or catalog as an empty file, a
  failed read of a record as no record, and a failed listing as an empty directory; so does the model.
- Legacy paths, volumes and backups of a migration are pairwise distinct, volumes and backups are no symlinks, the run
  id is new, and decoding bytes as UTF-8 and encoding them again is a function parameter there; `Utf8.Recode` is one.
- Decoding replaces each maximal broken part of a sequence by U+FFFD, as the Encoding Standard's UTF-8 decoder does.
- Parsers of JSON lines are parameters that must read back what native stringification writes;
  `Journal.ParseCompactParsesNative` gives one.
- Heap objects, directories and logs are finite. A resolver of parent records is a pure function.

## Where the code does less than it says

- `appendRecord` promises that a stored record can be read. The validator asks only that a required key exists, so a
  required field that is undefined is accepted, is not written, and the stored file is then refused on every read:
  `RecordStore.AdmittedReadsBack` gives the exact condition.
- The lock promises mutual exclusion. With a dead owner's file at the path, two waiting processes can both find the
  owner dead, and the later unlink removes the lock the other has taken: `LockProtocol.StaleLockBreaksExclusion`.
- The migration promises to be fully reversible. Backups are written through text, so for a file that is not UTF-8
  the copy check stops the migration with all originals in place, but a rollback then overwrites the original with
  the decoded text: the last clause of `Migration.Disk.Rollback`.
- The record store promises one record per idempotency key. A lock timeout, a failed read of the earlier record in the
  locked scan, and a failed listing each store a second one: `KeyedAppend.UniqueIffNoHarmfulFault`.
- The journal promises that its prior bytes stay a prefix. It is read and rewritten as text, so a tail torn inside a
  character is replaced: `Journal.AppendKeepsPrefixIff` gives the exact condition on the bytes.
- Journal, witness ledger and catalog promise to keep what they hold. An append or upsert whose read fails takes the
  file as empty, overwrites it and reports success: `Journal.FailedReadLosesEntries`,
  `Witness.FailedReadLosesWitnesses`, `PersonaWrites.FailedReadBreaksAgreement`. The theorems over runs say what is
  left then: everything since the last such write.
- The converse of agreement with native JSON fails through the node budget: `CanonicalJson.CanonicalOfImage`.

Inputs at which these promises fail: `Samples.AdmittedAndUnreadable`, `LockProtocol.StaleLockExample`,
`Migration.RollbackLosesByte`, `Samples.StoreDuplicates`, `Journal.TornCharacterIsRewritten`,
`CanonicalJson.AbsentFieldsBreakConverse`.

## Model

| member | source | states |
|---|---|---|
| Json.ReadStringUndoesEscape | packages/kernel/_lib/canonical-json.js:62-96 | Reading the escaped form of any string of code units, lone surrogates included, gives the string back; section 7 of RFC 8259 |
| Json.ReadUndoesPrint | packages/kernel/_lib/canonical-json.js:62-98 | The reader undoes the printer on every value without absent parts, whatever follows |
| Json.ArrayText | packages/kernel/_lib/canonical-json.js:63-74 | The text of an array: brackets, the items, one comma between two of them |
| Json.ObjectText | packages/kernel/_lib/canonical-json.js:85-98 | The text of an object: braces, quoted keys, colons, and one comma between two fields |
| Json.EscapeSpelled | packages/kernel/_lib/canonical-json.js:62-96 | The escape of every code unit: short escapes, lower-case hexadecimal ones for other controls and lone surrogates, everything else as it is |
| Json.UnicodeEscapeSpelled | packages/kernel/_lib/canonical-json.js:62-96 | A six-character escape is a backslash, a u and the four lower-case hexadecimal digits of the unit |
| CanonicalJson.SortedUnique | packages/kernel/_lib/canonical-json.js:85-85 | Two strictly sorted field lists with the same fields are equal: the key order leaves no freedom |
| CanonicalJson.Serializer.Walk | packages/kernel/_lib/canonical-json.js:55-99 | The walk returns the text of the sorted, absent-free value and charges exactly its nodes; too deep or too wide only past the budget; never more than 10,000 child reads |
| CanonicalJson.Serializer.WalkItems | packages/kernel/_lib/canonical-json.js:63-74 | The index loop over an array, absent elements walked as null |
| CanonicalJson.Serializer.WalkFields | packages/kernel/_lib/canonical-json.js:85-98 | The single pass over sorted keys, absent values dropped but charged |
| CanonicalJson.CanonicalJsonSerialize | packages/kernel/_lib/canonical-json.js:53-101 | Returns exactly for present values of depth at most 100 and at most 10,000 nodes; what is returned parses to a value with ascending keys in every object, at every depth, that says what the given value says; each refusal names a budget that is really exceeded |
| CanonicalJson.CanonicalTextSays | packages/kernel/_lib/canonical-json.js:85-98 | Of two keys of an object in the text, the earlier is a proper start of the later or has the smaller code unit where they first differ; scalars, items and present fields are those of the value, absent fields are gone, absent items null |
| CanonicalJson.ReadRecoversNorm | packages/kernel/_lib/canonical-json.js:53-101 | Reading the canonical text gives the value with keys sorted, absent fields dropped and absent elements null |
| CanonicalJson.CanonicalInjective | packages/kernel/_lib/canonical-json.js:53-101 | Two serializable values have the same text if and only if they agree after sorting keys, dropping absent fields and turning absent elements into null |
| CanonicalJson.CanonicalForgetsKeyOrder | packages/kernel/_lib/canonical-json.js:85-85 | The insertion order of keys never shows in the text |
| CanonicalJson.LookupNorm | packages/kernel/_lib/canonical-json.js:75-98 | Normalization keeps what every key reads as, up to normalization of the value |
| CanonicalJson.NativeRoundTrip | packages/kernel/_lib/canonical-json.js:32-44 | Parsing native output gives the value without its absent parts |
| CanonicalJson.CanonicalSurvivesNative | packages/kernel/_lib/canonical-json.js:29-99 | Whenever serialization returns, serializing the native write-then-parse image returns the same text |
| CanonicalJson.CanonicalOfImage | packages/kernel/_lib/canonical-json.js:86-95 | The converse holds exactly when the original, dropped fields charged, is within the node budget |
| CanonicalJson.AbsentFieldsBreakConverse | packages/kernel/_lib/canonical-json.js:86-95 | Witness: an object of 10,000 or more undefined fields, one per code unit at most, throws, while its written form, the empty object, serializes |
| TransactionRecord.TransactionIdSeparates | packages/kernel/_lib/transaction-record.js:54-62 | Two records that differ in a hashed field have different ids (digest telling their texts apart) |
| TransactionRecord.TransactionIdForgetsOrder | packages/kernel/_lib/transaction-record.js:54-62 | The id does not depend on key order, nor on the stored id itself |
| TransactionRecord.IdIsDigestOfOthers | packages/kernel/_lib/transaction-record.js:54-62 | The id is the digest of the canonical text of all other fields, wherever transaction_id stands among them |
| TransactionRecord.IdTextReads | packages/kernel/_lib/transaction-record.js:54-62 | The hashed text reads back as every field of the record but transaction_id |
| TransactionRecord.NamedInjective | packages/kernel/_lib/transaction-record.js:167-202 | Two object literals over the same keys hash the same text if and only if their values mean the same |
| TransactionRecord.ContentTextInjective | packages/kernel/_lib/transaction-record.js:167-180 | Equal content texts mean equal post-state, spawn id and head anchor, missing read as null |
| TransactionRecord.KeyTextInjective | packages/kernel/_lib/transaction-record.js:191-202 | Equal key texts mean equal persona, operation class, content hash and predecessor |
| TransactionRecord.ContentTextReads | packages/kernel/_lib/transaction-record.js:167-174 | The content text reads back as an object of exactly post_state_hash, writer_spawn_id and head_anchor, each the field of that name, missing read as null |
| TransactionRecord.KeyTextReads | packages/kernel/_lib/transaction-record.js:191-202 | The key text reads back as an object of exactly writer_persona_id, operation_class, prev_state_hash, each the field of that name, and content_hash, the digest of the content text |
| TransactionRecord.KeyInputsTrue | packages/kernel/_lib/transaction-record.js:226-234 | A key is derived only when persona, class, predecessor and spawn id count as true |
| TransactionRecord.SameKeyIsSameTransaction | packages/kernel/_lib/transaction-record.js:226-252 | Two records derive the same idempotency key if and only if they agree on persona, operation class, predecessor, post-state, spawn id and head anchor |
| TransactionRecord.IdSurvivesNative | packages/kernel/_lib/transaction-record.js:54-62 | A record has the same id before and after native write-then-parse |
| TransactionRecord.ValidAfterNative | packages/kernel/_lib/transaction-record.js:458-490 | A valid record is still valid after native write-then-parse if and only if every required field is present in the JSON sense |
| TransactionRecord.GetImage | packages/kernel/_lib/transaction-record.js:458-490 | What a field reads as after native write-then-parse |
| TransactionRecord.HasImage | packages/kernel/_lib/transaction-record.js:458-490 | A key exists after native write-then-parse exactly when its value was not absent |
| RecordRules.SentinelIff | packages/kernel/_lib/transaction-record.js:294-303 | The sentinels are exactly USER_INTENT_AXIOM with 64 hexadecimal digits, GENESIS_EVIDENCE with a version and one of two scopes, and ROOT_TASK_RECORD with a word |
| RecordRules.ValidIff | packages/kernel/_lib/transaction-record.js:316-490 | The validator accepts exactly the objects with the eight required keys, known words in the two enumerated fields, digests where strings must be digests, the right shapes, evidence for state-changing classes, and no test marker |
| RecordRules.ForgedGenesisRefused | packages/kernel/_lib/transaction-record.js:330-350 | A genesis marker or sentinel as predecessor is refused at any position that is not said to be genesis |
| RecordStore.LoadRecordFile | packages/kernel/_lib/record-store.js:334-378 | A file is served only when valid and named by the hash of its own content |
| RecordStore.RoundTripNeverRejects | packages/kernel/_lib/record-store.js:233-241 | On values free of toJSON the two round-trip rejections never happen |
| RecordStore.AdmittedReadsBack | packages/kernel/_lib/record-store.js:197-241 | An admitted append loads back as written if and only if every required field is JSON-present; a required field that is undefined is accepted and unreadable |
| Samples.AdmittedAndUnreadable | packages/kernel/_lib/record-store.js:197-241 | Witness: a record with an undefined intent time passes every check of the append and is refused when its file is read |
| RecordStore.AdmittedHoldsKey | packages/kernel/_lib/record-store.js:248-250 | A keyed, admitted record with its required fields present is found by its key after the write |
| RecordStore.DedupTargetAgrees | packages/kernel/_lib/record-store.js:464-492 | A deduplication target agrees with the appended record on all six bound facts, whatever the directory holds |
| RecordStore.SameNameSameKey | packages/kernel/_lib/record-store.js:334-378 | Two loadable files of one name hold the same key |
| RecordStore.SameNameSameText | packages/kernel/_lib/record-store.js:366-371 | Two loadable files of one name have the same hashed text |
| RecordStore.Store.ReadById | packages/kernel/_lib/record-store.js:392-401 | Whatever is returned hashes to the requested id; a loadable file that can be read is never missed |
| RecordStore.Store.ReadByPostStateHash | packages/kernel/_lib/record-store.js:422-442 | Returns a loadable record with that post-state if and only if the scan sees one, failed reads and listings included |
| RecordStore.Store.ReadByIdempotencyKey | packages/kernel/_lib/record-store.js:464-492 | Returns a record whose own body derives the key, and finds one if the scan sees one |
| RecordStore.Store.ListByRun | packages/kernel/_lib/record-store.js:504-520 | One value for each loadable file that is seen, and no other |
| RecordStore.Store.FindDuplicate | packages/kernel/_lib/record-store.js:294-304 | The id of an earlier record of the same key exactly when the scan sees one |
| RecordStore.Store.AppendRecord | packages/kernel/_lib/record-store.js:181-326 | Every reason in its order; a rejection, a failed write and a dedup leave the directory alone; a write adds exactly the record, and only when every file that held its key was hidden from the scan by a failed read or listing |
| LockProtocol.OwnersKept | packages/kernel/_lib/lock.js:53-141 | Whatever step is taken, owners keep seeing their own file and there is one owner, unless a live owner file is unlinked |
| LockProtocol.SplitInvStep | packages/kernel/_lib/lock.js:53-145 | Every split step of every process keeps the exclusion invariant (no exits) |
| LockProtocol.SplitRunInv | packages/kernel/_lib/lock.js:53-145 | All split steps, no exits, any number of processes: the invariant holds in every state of every run that starts without a dead owner file |
| LockProtocol.SplitMutualExclusionIff | packages/kernel/_lib/lock.js:53-145 | All split steps, no exits: every reachable state keeps mutual exclusion if and only if no lock file of a dead process lies there at the start |
| LockProtocol.StaleLockBreaksExclusion | packages/kernel/_lib/lock.js:125-127 | With a dead owner file and two live processes, the split read, check and unlink let both hold the lock |
| LockProtocol.StaleLockExample | packages/kernel/_lib/lock.js:125-127 | Witness: the start with two idle processes and a file that names a third, gone one, reaches two holders |
| LockProtocol.CrashInvStep | packages/kernel/_lib/lock.js:53-145 | Crashes and restarts anywhere, reclaim in one step: every step keeps the invariant |
| LockProtocol.CrashRunInv | packages/kernel/_lib/lock.js:53-145 | The same over whole runs, from any leftover file |
| LockProtocol.CrashMutualExclusion | packages/kernel/_lib/lock.js:53-145 | Crashes and restarts anywhere, reclaim in one step: at most one live process is between a true return and its release |
| LockProtocol.HoldableIff | packages/kernel/_lib/lock.js:106-131 | With crashes anywhere, a live process gets the lock in some run if and only if the file left at the path is not empty or garbage; such a file is never reclaimed |
| LockProtocol.CrashRefinesAbstractLock | packages/kernel/_lib/lock.js:53-145 | Each step of the crash model is a step of a lock taken only when free and given up only by its holder |
| KeyedAppend.StepKeepsRecords | packages/kernel/_lib/record-store.js:265-326 | No step of any appender makes a file that holds a key stop holding it |
| KeyedAppend.RunKeepsReports | packages/kernel/_lib/record-store.js:265-326 | In every state of every run, with any mix of faults, an append that reported success has a record of its key in the directory |
| KeyedAppend.FailOpenNeverSuppresses | packages/kernel/_lib/record-store.js:308-320 | With any mix of timeouts, failed listings, reads and writes, and crashes, an append that returned ok leaves a verified record of its key in every later state and no record is lost |
| KeyedAppend.WriteKeepsUnique | packages/kernel/_lib/record-store.js:300-306 | A write after a scan under the lock that missed no file of its key is the first of its key |
| KeyedAppend.RunKeepsUnique | packages/kernel/_lib/record-store.js:294-310 | The invariant behind uniqueness over whole runs without a harmful fault |
| KeyedAppend.NeverTwoRecordsOfOneKey | packages/kernel/_lib/record-store.js:265-326 | If no lock times out, no read of a file that holds the key of its reader fails and no listing of a directory with such a file fails, then no interleaving of appends, other faults and crashes stores two records of one key |
| KeyedAppend.TimeOutsAllowDuplicates | packages/kernel/_lib/record-store.js:310-320 | If two appends of one key time out, a run stores both |
| KeyedAppend.FailedScansAllowDuplicates | packages/kernel/_lib/record-store.js:334-340 | No timeout, one failed read or one failed listing in a locked scan: a run stores both |
| KeyedAppend.UniqueIffNoHarmfulFault | packages/kernel/_lib/record-store.js:464-492 | Two appends of one key: every reachable directory keeps one record per key if and only if none of the three faults may happen |
| Samples.StoreDuplicates | packages/kernel/_lib/record-store.js:294-320 | Witness: for each of the three faults alone, two actual records of one key that differ in their intent time end up in the store together |
| KeyedAppend.StoreIsContentAddressed | packages/kernel/_lib/record-store.js:334-378 | The record store meets the hypotheses of the run theorems |
| LockedAppend.NeverTwoRecordsOverLockFiles | packages/kernel/_lib/lock.js:53-145 | Uniqueness with the lock files in place of the abstract lock: every begin, create, pid write, verify, reclaim and release is a step, with crashes anywhere and from any leftover lock files |
| LockedAppend.NeverSuppressedOverLockFiles | packages/kernel/_lib/record-store.js:308-320 | Over the lock files and with any faults, a reported append has a record of its key and no record is lost |
| MemoryBlocks.SlugifyIsSlug | scripts/memory.js:51-58 | Every anchor is lower-case letters, digits and single inner hyphens |
| MemoryBlocks.SlugifyIdempotent | scripts/memory.js:51-58 | An anchor is its own anchor |
| AnchorRules.WordAnchor | scripts/memory.js:51-58 | A word of lower-case letters and digits is its own anchor |
| AnchorRules.GapAnchor | scripts/memory.js:51-58 | A space, underscore or hyphen joins the anchors of its two sides with one hyphen |
| AnchorRules.KeptAnchor | scripts/memory.js:51-58 | Every character counts as what lower-casing and filtering leave of it |
| AnchorRules.ShortAnchorIs | scripts/memory.js:61-64 | The short anchor is the anchor of the text before the first colon with a space, or dash with spaces around it |
| MemoryBlocks.FlattenUndoesOutline | scripts/memory.js:84-128 | Splitting a file at headings loses no line |
| MemoryBlocks.OutlineTidy | scripts/memory.js:93-126 | Parts of a file whose fences are closed at its end are closed at their own ends, and no boundary hides inside a part |
| MemoryBlocks.OutlineUndoesFlatten | scripts/memory.js:84-128 | Joining tidy parts and splitting again gives the parts: parsing distributes over removal and append |
| MemoryBlocks.ParseBlocks | scripts/memory.js:84-128 | The single pass over lines, with its current block and fence, computes exactly the blocks of the outline |
| FenceSpans.KindIs | scripts/memory.js:86-87 | Fence lines and headings are what the two patterns spell, character by character |
| FenceSpans.BlocksIff | scripts/memory.js:84-128 | For any file and its fenced spans, the parsed blocks are the one list of sections: from each heading of the split level outside the spans to the next heading of that level or above outside them |
| FenceSpans.FencingExists | scripts/memory.js:93-105 | Every file has such spans: an opening fence up to the first fence of the same marker at least as long, or to the end |
| FenceSpans.FencedBlock | scripts/memory.js:93-105 | Whatever stands inside a fence, headings, shorter fences and the other marker included, belongs to the block of the heading before it |
| FenceSpans.HeadingAfterFence | scripts/memory.js:93-113 | A heading right after the closing line starts a block of its own |
| MemoryBlocks.FindBlock | scripts/memory.js:132-136 | The first block that answers to the slug, by anchor or short anchor, and none when none does |
| MemoryBlocks.ShortAnchorResolves | scripts/memory.js:132-136 | The printed short anchor of any block resolves in its file |
| AnchorRules.ResolvesIff | scripts/memory.js:132-136 | An anchor resolves to a block if and only if it is the first whose anchor or short anchor it is |
| Demote.BlockRange | scripts/memory.js:84-128 | The line range of a block is exactly its lines |
| Demote.PointerSpelled | scripts/memory.js:472-478 | A pointer line holds the short anchor, at most 60 characters of the title, and where the block went |
| Demote.DemoteConservesContent | scripts/memory.js:480-506 | The multiset of non-blank lines of both files gains exactly one pointer, and its heading when new |
| Demote.SameFileRefused | scripts/memory.js:494-498 | A move onto the same file is always refused by the collision guard |
| Demote.PointerKeepsBlocks | scripts/memory.js:472-478 | At split level 3 or deeper, adding the pointer to a file with closed fences changes no block |
| Demote.SourceKeepsOthers | scripts/memory.js:500-505 | The source keeps every other block, title and lines up to trailing empty ones, and gains none |
| Demote.DestinationGainsBlock | scripts/memory.js:500-502 | The destination keeps its blocks and gains the moved one at the end |
| Demote.DemoteDisturbsNothing | scripts/memory.js:480-506 | Both at once: no other block of either file changes, none absorbs the pointer, and the moved short anchor resolves to the moved block in the destination |
| Demote.BlockCarried | scripts/memory.js:480-506 | Before the move the source, after it the destination has the lines of the block, one after another, up to trailing empty lines |
| Demote.MemoryDir.CmdDemote | scripts/memory.js:507-525 | The report and both files for every fault and crash of the two writes and the rollback; in every case the lines of the block stand in the source or in the destination |
| Migration.ReadThroughLink | scripts/library-migrate.js:326-332 | Reading a path that links to a regular file gives that file |
| Migration.Disk.WriteAtomic | packages/kernel/_lib/atomic-write.js:98-134 | Reading the path after the write gives the bytes, and no symlink of the disk is added, dropped or redirected, unless the chain is longer than ten |
| Migration.WriteThrough | packages/kernel/_lib/atomic-write.js:98-116 | The file at the end of the chain is the one that changes: what reads through the path, and which symlinks remain |
| Migration.Disk.CheckSymlinks | scripts/library-migrate.js:253-270 | Pre-existing symlinks pass if and only if each leads to its own volume |
| Migration.Disk.BackUp | scripts/library-migrate.js:275-296 | Every legacy file is backed up and listed with the hash of its original bytes before anything else is written; every state on the way is crash-safe |
| Migration.Disk.CopyAll | scripts/library-migrate.js:299-323 | All copies verify if and only if every content survives decoding and encoding; no original is touched |
| Migration.Disk.SwapAll | scripts/library-migrate.js:326-332 | Each legacy path becomes a symlink, crash-safe also between unlink and symlink |
| Migration.Disk.Migrate | scripts/library-migrate.js:189-344 | Each outcome exactly in its case; every state is crash-safe: each original is at its legacy path, or in the volume and in the backup; on completion each legacy path reads its original bytes through the symlink |
| Migration.Disk.MigrateTwice | scripts/library-migrate.js:201-219 | A completed migration run again with its run id says so and leaves the disk as the first run did |
| Migration.CrashPointsRestorable | scripts/library-migrate.js:275-344 | Every crash point after the manifest meets the hypothesis of the rollback theorem |
| Migration.RestoreReads | scripts/library-migrate.js:383-396 | What restoring one listed file reads, where it writes, and when its hash check passes |
| Migration.Disk.Rollback | scripts/library-migrate.js:350-404 | From any such point rollback completes if and only if every original survives decoding and encoding; then every listed path is a regular file with its original bytes and the sentinel is gone; otherwise the first failing file has been overwritten with the decoded and encoded text |
| Migration.RollbackLosesByte | scripts/library-migrate.js:299-396 | Witness: a legacy file of the one byte FF stops the migration at its copy check, and the rollback overwrites it with the replacement character |
| Utf8.RecodeSameIffValid | scripts/library-migrate.js:286-318 | Decoding and encoding leaves bytes alone if and only if they are well-formed UTF-8 |
| EvidenceGate.CycleNeverReaches | packages/kernel/_lib/k9-promote-deltas.js:209-225 | A chain that repeats a predecessor hash before genesis never ends and never reaches genesis |
| EvidenceGate.VerdictUnique | packages/kernel/_lib/k9-promote-deltas.js:206-227 | The chain has exactly one verdict, so each walk reason comes exactly in its case |
| EvidenceGate.AcceptedIffReaches | packages/kernel/_lib/k9-promote-deltas.js:206-227 | The walk accepts if and only if following predecessors reaches genesis within 1000 steps; no cut turns such a chain away |
| EvidenceGate.AtGenesisIff | packages/kernel/_lib/k9-promote-deltas.js:118-131 | Genesis is the GENESIS marker, a sentinel, or the digest of GENESIS, the schema version and one of the two scopes |
| EvidenceGate.ReachesIff | packages/kernel/_lib/k9-promote-deltas.js:206-227 | Reaching genesis means a chain of at most 1,001 records, each the one resolved under prev_state_hash of the one before, the last at genesis |
| EvidenceGate.WalkChain | packages/kernel/_lib/k9-promote-deltas.js:206-227 | The loop returns that verdict with the depth it walked |
| EvidenceGate.CheckEvidenceLink | packages/kernel/_lib/k9-promote-deltas.js:174-228 | The whole gate: a valid head that is not at genesis is accepted if and only if such a chain of records exists; recovery sweeps and genesis heads are accepted; each reason before the walk in its case |
| Reachability.ReachSetLeast | packages/kernel/_lib/provenance-walk.js:146-172 | The reachable set is the least set with the seeds that is closed under references |
| Reachability.Explored | packages/kernel/_lib/provenance-walk.js:158-171 | A search with nothing waiting, or at its cap, has the reachable set or as much as fits |
| Provenance.ClampMaxNodes | packages/kernel/_lib/provenance-walk.js:49-52 | A positive integer is taken as it is, anything else as 10,000 |
| Provenance.IndexById | packages/kernel/_lib/provenance-walk.js:82-91 | The index gives the first record of each 64-hex id |
| Provenance.CollectClosure | packages/kernel/_lib/provenance-walk.js:146-172 | The bounded search equals the reachable set when that fits the cap, and otherwise has exactly as many reachable ids as the cap |
| Provenance.FindAffectedByOp | packages/kernel/_lib/provenance-projections.js:54-66 | Exactly the ids named by committed operations of the class |
| Provenance.RetentionDays | packages/kernel/_lib/provenance-projections.js:111-114 | A positive integer is taken as it is, anything else as 90 |
| Provenance.StaleGiven | packages/kernel/_lib/provenance-projections.js:89-100 | True only when another superseded id is reachable, and exactly then when the closure fits the cap |
| Provenance.ProjectLifecycleState | packages/kernel/_lib/provenance-projections.js:166-181 | A value that is no record has no state; the projected state equals the unbounded definition when the closure fits the cap; staleness is never claimed without ground |
| LifecycleRules.ReachIs | packages/kernel/_lib/provenance-walk.js:146-172 | The reachable ids are the ends of trails on which each record, the first with its id, has the next id among its evidence_refs |
| LifecycleRules.StateIs | packages/kernel/_lib/provenance-projections.js:80-181 | The state spelled out on the fields of the record and the log: outcome first, then targeted by a committed TOMBSTONE or SUPERSEDE, then depending on something superseded, then older than the window, by committed_at or else intent_recorded_at |
| Provenance.MoreReached | packages/kernel/_lib/provenance-walk.js:146-172 | A longer log with distinct ids, in any order, only adds to what is reachable |
| Provenance.StateMovesForward | packages/kernel/_lib/provenance-projections.js:80-181 | The rank of a committed record, active < archived < stale < superseded < tombstoned, never decreases as the log grows and the clock advances |
| Provenance.ProjectTwice | packages/kernel/_lib/provenance-projections.js:166-181 | The same for what the code projects, while the closure stays within the cap |
| Lineage.BuildParents | packages/kernel/_lib/lineage.js:76-85 | The parent map is built exactly for well-formed chains with distinct ids |
| Lineage.ParentsOfEntry | packages/kernel/_lib/lineage.js:81-82 | The parent map gives every entry its own parent; with CycleIff, the parent it names |
| Lineage.RevisitIsCycle | packages/kernel/_lib/lineage.js:95-95 | An id met twice in one walk lies on a cycle |
| Lineage.EndsAcyclic | packages/kernel/_lib/lineage.js:91-102 | When every walk ends there is no cycle |
| Lineage.CycleIff | packages/kernel/_lib/lineage.js:91-102 | The parent map has a cycle if and only if some entries name each other as parents round in a circle |
| Lineage.Walk | packages/kernel/_lib/lineage.js:92-101 | One walk finds a cycle, or verifies all it saw; its steps are at most one more than the chain ids it adds |
| Lineage.IsAcyclicChain | packages/kernel/_lib/lineage.js:64-105 | True if and only if every entry has a string id and a string or null parent, ids are distinct, and no entries name each other as parents round in a circle; at most twice as many walk steps as entries |
| DeepFreeze.Traversed | packages/kernel/_lib/deep-freeze.js:50-61 | A traversal with an empty stack has seen exactly what is reachable |
| DeepFreeze.Visit | packages/kernel/_lib/deep-freeze.js:51-60 | One visit freezes the object and leaves its unseen children on the stack |
| DeepFreeze.DeepFreezeValue | packages/kernel/_lib/deep-freeze.js:41-63 | On any finite heap, cycles and frozen parents included, it ends with everything reachable frozen, nothing else frozen anew and no property changed |
| Lines.LastLines | packages/kernel/_lib/jsonl-read.js:48-58 | The backward scan returns the last non-empty lines of the split text |
| Lines.TailIsSuffix | packages/kernel/_lib/jsonl-read.js:62-83 | The window on the last bytes shows a suffix of the lines of the decoded file, whole lines only, wherever the cut falls |
| Lines.TailIsExact | packages/kernel/_lib/jsonl-read.js:62-83 | A byte window with enough lines gives the same last lines as the whole file |
| LockedUpdate.StepKeepsInv | packages/kernel/_lib/k9-journal.js:200-223 | Every step of every process, failed reads included, keeps the file equal to the replay of the written updates |
| LockedUpdate.RunIsSerial | packages/kernel/_lib/k9-journal.js:200-223 | Any interleaving, with timeouts, failed reads and writes, and crashes: the file is the updates since the last one whose read failed, in order, over nothing if there was one and over the first content if not; every reported update was written |
| LockedUpdate.SightedRunIsSerial | packages/kernel/_lib/k9-journal.js:200-223 | Without a failed read that is all written updates in order over the first content |
| Utf8.DecodeUndoesEncode | packages/kernel/_lib/k9-journal.js:206-218 | Decoding the encoding of any text without lone surrogates gives it back; RFC 3629 |
| Utf8.RecodeKeepsPrefixIff | packages/kernel/_lib/k9-journal.js:208-218 | Bytes are a prefix of their recoding if and only if they are well-formed but for a cut-off replacement character at their end |
| Journal.AppendKeepsPrefixIff | packages/kernel/_lib/k9-journal.js:206-218 | The prior bytes stay a prefix if and only if they are well-formed UTF-8, but for a cut-off replacement character at their end |
| Journal.TornCharacterIsRewritten | packages/kernel/_lib/k9-journal.js:213-218 | Witness: a file torn inside a two-byte character comes back with the replacement character in its place |
| Journal.ReadAfterAppend | packages/kernel/_lib/k9-journal.js:206-218 | For any decoded file, reading gives the old entries, then the old torn tail if it parses, then the new entry |
| Journal.AppendedBytes | packages/kernel/_lib/k9-journal.js:206-218 | The file is the recoding of the old one followed by the encoded line, and decodes to the appended text |
| Journal.ReadJournal | packages/kernel/_lib/k9-journal.js:233-260 | The reading loop gives exactly the parseable terminated lines of the decoded file, none when there is no file or its read fails |
| Journal.NativeOneLine | packages/kernel/_lib/k9-journal.js:217-217 | A printed entry is one non-empty line |
| Journal.ValidEntryIff | packages/kernel/_lib/k9-journal.js:143-173 | Valid entries outcome by outcome: the required fields, and an undo description for PROMOTED and REVERTED, none for ABORTED and NOOP_ALREADY_PRESENT |
| Journal.ParseCompactParsesNative | packages/kernel/_lib/k9-journal.js:252-255 | The reader of this model parses what native stringification writes |
| Journal.ReadAfterAppends | packages/kernel/_lib/k9-journal.js:190-223 | For any prior bytes, any number of appends reads as the old entries, the torn one, and the new ones in order |
| Journal.AppendersLoseOnlyToFailedReads | packages/kernel/_lib/k9-journal.js:190-224 | Whatever the interleaving, faults and crashes, the journal reads as every entry written since the last append whose read failed, after the prior ones if there was none such |
| Journal.AppendersLoseNothing | packages/kernel/_lib/k9-journal.js:190-224 | Without a failed read no written entry is lost, reported appends are among them, and well-formed prior bytes stay a prefix |
| Journal.FailedReadLosesEntries | packages/kernel/_lib/k9-journal.js:207-211 | Witness: three appends, the read of the last one fails; all three report success and the journal holds the last alone |
| Journal.JournalFile.WriteAtomicString | packages/kernel/_lib/atomic-write.js:169-181 | At every fault and crash point the file is the old or the new one |
| Journal.JournalFile.AppendJournalEntry | packages/kernel/_lib/k9-journal.js:190-224 | One append: invalid entries and a contended lock change nothing; a write that lands reads as what the read saw, the torn tail if it parses, and the entry, and keeps the prior bytes exactly in the stated case |
| Journal.JournalFile.AppendWalRecord | packages/kernel/_lib/wal-append.js:44-61 | The unlocked append of the write-ahead log, its refusal of an empty path, its fail-soft answer, and when it keeps the prior bytes |
| Witness.WindowIsLast | packages/kernel/_lib/evolution-snapshot-read.js:207-210 | The ledger is always the newest of what it held and what came new |
| Witness.AgesOut | packages/kernel/_lib/evolution-snapshot-read.js:207-210 | A new witness stays exactly until 1,024 newer distinct ones are appended |
| Witness.MadeRowVouches | packages/kernel/_lib/evolution-snapshot-read.js:182-193 | A row the writer makes carries its own id and vouches for its content hash |
| Witness.MadeRowSpelled | packages/kernel/_lib/evolution-snapshot-read.js:182-193 | The row field by field: witness_id, the digest of the other five, schema_version v1, content_hash, generated_at, recorded_at, record_count |
| Witness.WitnessIdIsDigest | packages/kernel/_lib/evolution-snapshot-read.js:116-120 | A witness id is the digest of the canonical text of all other fields of the row, wherever witness_id stands |
| Witness.LedgerReadsBack | packages/kernel/_lib/evolution-snapshot-read.js:136-160 | A ledger file the writer wrote, within the row cap and the byte cap, reads back as its rows |
| Witness.ReadIsBounded | packages/kernel/_lib/evolution-snapshot-read.js:136-160 | Whatever the file holds, at most 1,024 rows are read, and only from its last 4 MiB |
| Witness.AppendersKeepWindow | packages/kernel/_lib/evolution-snapshot-read.js:204-216 | Whatever the interleaving of appenders and faults, the ledger is the window over what they wrote since the last append whose read failed |
| Witness.SightedAppendersKeepWindow | packages/kernel/_lib/evolution-snapshot-read.js:204-216 | Without a failed read it is the window over all they wrote |
| Witness.FailedReadLosesWitnesses | packages/kernel/_lib/evolution-snapshot-read.js:207-210 | Witness: an append that cannot read the ledger leaves its own row alone in it |
| Witness.Ledger.AppendSnapshotWitness | packages/kernel/_lib/evolution-snapshot-read.js:175-217 | One append: refusals and duplicates leave the ledger alone; otherwise it is the capped rows with the new one, over no rows when the read failed |
| Witness.ScanRows | packages/kernel/_lib/evolution-snapshot-read.js:248-257 | The newest-first scan finds a vouching row if and only if there is one |
| Witness.VerifySnapshotProvenance | packages/kernel/_lib/evolution-snapshot-read.js:231-262 | Each verdict exactly in its case |
| Witness.MismatchIff | packages/kernel/_lib/evolution-snapshot-read.js:231-246 | A snapshot with its personas is a mismatch if and only if its content_hash, a digest, is not that of the canonical text of its other fields; without personas it never is |
| Witness.VerifiableUntil | packages/kernel/_lib/evolution-snapshot-read.js:207-258 | A witness vouches for its content exactly until 1,024 newer distinct witnesses are in the window |
| Witness.VerdictUntil | packages/kernel/_lib/evolution-snapshot-read.js:204-262 | On the ledger file after any run of appenders without a failed read: the verdict on the snapshot is witnessed exactly while fewer than 1,024 newer distinct witnesses were appended, unwitnessed from then on |
| Catalog.UpsertUnique | packages/kernel/_lib/library-catalog.js:181-186 | An upsert keeps volume ids unique |
| Catalog.UpsertCoreAt | packages/kernel/_lib/library-catalog.js:181-186 | An upsert sets one volume and no other |
| Catalog.RemoveCoreAt | packages/kernel/_lib/library-catalog.js:206-213 | A removal drops one volume and no other |
| Catalog.CatalogStore.UpsertEntry | packages/kernel/_lib/library-catalog.js:92-189 | The locked read-modify-write: replies in their cases; the file sets that volume, and keeps every other if and only if the file could be opened or held no other |
| Catalog.CatalogStore.RemoveEntry | packages/kernel/_lib/library-catalog.js:201-214 | The locked delete: after success the volume is gone and every other kept, if and only if the file could be opened or did not hold it |
| Catalog.AgreeUpToOrder | packages/kernel/_lib/library-catalog.js:170-189 | With unique ids, catalogs that agree volume by volume agree up to order |
| Catalog.IndexableIff | packages/kernel/_lib/library-reconcile.js:167-175 | A volume is a file of at most 8 MiB named by an id with .json or .md, no dotfile and not the baseline |
| Catalog.EntrySpelled | packages/kernel/_lib/library-reconcile.js:175-186 | The entry of a volume: id, form by the extension, the stack and the id as topics, the digest of its text |
| Catalog.GatherIsRebuilt | packages/kernel/_lib/library-reconcile.js:167-208 | Reading a directory in any order gathers for each volume exactly the entry an index must hold |
| Catalog.SortByIdSorts | packages/kernel/_lib/library-reconcile.js:208-208 | Rebuilt entries are sorted by volume id |
| Catalog.ReindexStack | packages/kernel/_lib/library-reconcile.js:198-211 | The rebuilt catalog is sorted and equals, up to order and time stamps, any index that agrees with the directory |
| PersonaWrites.PersonaFile | packages/kernel/_lib/persona-store.js:142-156 | The upserted entry is the one a rebuild makes from the written file |
| PersonaWrites.VolumeStep | packages/kernel/_lib/persona-store.js:111-116 | Writing a volume keeps agreement for every volume not between its two writes |
| PersonaWrites.CatalogStep | packages/kernel/_lib/library-catalog.js:176-188 | Writing the catalog settles the volume of the writer and no other |
| PersonaWrites.RunKeepsInv | packages/kernel/_lib/persona-store.js:111-178 | The invariant over every interleaving of writers in which no catalog with entries is taken as empty |
| PersonaWrites.CatalogAgreesWithDisk | packages/kernel/_lib/persona-store.js:111-178 | For such runs ids stay unique at every point, and whenever nobody is between the two writes the catalog agrees with the directory: no upsert is lost |
| PersonaWrites.FailedReadBreaksAgreement | packages/kernel/_lib/library-catalog.js:92-98 | Witness: one writer whose read of the catalog fails drops the entry of any other volume |
| PersonaWrites.RunThenReindex | packages/kernel/_lib/library-reconcile.js:198-211 | After any such run the catalog equals, up to order and time stamps, what a rebuild writes |
| SynthId.MatchIsExact | packages/kernel/_lib/synthid.js:202-202 | The left-to-right scan finds the groups of a match of the pattern, and the match is unique |
| SynthId.GroupsTextSpelled | packages/kernel/_lib/synthid.js:202-202 | The text of a match: persona, dot, name, the hash after a tilde, and the run |
| SynthId.RunTextSpelled | packages/kernel/_lib/synthid.js:202-202 | The text of a run: its id, the depth after :d, and the parent and its hash after :p= with a hash sign between them |
| SynthId.PersonaSpelled | packages/kernel/_lib/synthid.js:202-202 | Personas: no dot, tilde or slash, and hyphens only single and inside |
| SynthId.ParsedSpelled | packages/kernel/_lib/synthid.js:215-238 | A parse returns the groups of the match, the depth as a number, 0 when absent |
| SynthId.ParsesIffMatches | packages/kernel/_lib/synthid.js:215-238 | A parse succeeds exactly for nonempty strings within 512 that match |
| SynthId.FormatSynthId | packages/kernel/_lib/synthid.js:174-188 | The printer appends part after part; a missing persona or name throws |
| SynthId.ParseUndoesFormat | packages/kernel/_lib/synthid.js:174-238 | Parsing what well-formed parts print as, within 512, gives the parts back, depth and parent included |
| SynthId.FormatUndoesParse | packages/kernel/_lib/synthid.js:174-238 | Printing parsed parts gives the string back if and only if the depth is absent or written without a leading zero and not 0 |

## Left out

- CanonicalJson.CanonicalInjective: numbers are compared by their printed tokens; number formatting, NaN and negative zero are not modelled.
- RecordStore.AdmittedReadsBack: the model takes a hole in an array as an undefined element, so the validator's skip of holes in `evidence_refs` is not modelled.
- KeyedAppend.FailOpenNeverSuppresses: jobs have their required fields present in the JSON sense; for the others the promise is false, as `Samples.AdmittedAndUnreadable` shows.
- RecordStore.Store.AppendRecord: the lock and its timeouts are in `KeyedAppend` and `LockedAppend`; run-id and path-safety gates, directory modes and error texts are not modelled; the file holds compact JSON where the code indents by two spaces.
- RecordStore.LoadRecordFile: the freeze of the parsed record is the subject of `DeepFreeze` alone; the schema's required list is a constant rather than read from the schema file.
- Demote.DemoteDisturbsNothing: holds at split level 3 or deeper, because at level 2 the pointer heading is itself a block of that level; the title in the pointer is cut at 60 characters, not UTF-16 units; heat files are left out.
- Demote.MemoryDir.CmdDemote: the temporary files of the two atomic writes are not modelled, the argument and path checks before them are left out.
- Migration.Disk.Migrate: catalog upserts, dry runs, directory creation, foreign-owner containment and temporary files are not modelled; one run only, as a re-run lists only files that are still regular.
- EvidenceGate.CheckEvidenceLink: the list of head-validation errors is not modelled, and predecessor hashes that are objects are compared by structure.
- Provenance.StateMovesForward: beyond the cap nothing is claimed of the bounded projection but that staleness is founded.
- Journal.JournalFile.WriteAtomicString: where the path resolves to is the subject of `Migration.Disk.WriteAtomic`.
- Journal.JournalFile.AppendWalRecord: the write-ahead log takes no lock, so only single appends are covered.
- LockedAppend.NeverTwoRecordsOverLockFiles: a dead owner's file is reclaimed in one step; with that step split, exclusion itself fails from such a file (`LockProtocol.SplitMutualExclusionIff`).
- PersonaWrites.CatalogAgreesWithDisk: no writer exits between its two writes and no lock times out; entries carry no further keys.
- Catalog.ReindexStack: agents section only, so topic and entity extraction from volume content is left out; stems shared by an `.md` and a `.json` file are excluded; a rebuild does not run beside upserts.
- SynthId.FormatUndoesParse: depths beyond 2^53 round as doubles and are excluded.
- `walkStateChain`, the provenance view, building journal entries, drift detection and persona metadata: easy members beside those proved.
- Processes, git, signatures, clocks, sleeping, environment lookup, printing and argument parsing.
- That a REVERTED journal entry means the revert succeeded: it is recorded either way.
