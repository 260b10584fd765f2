# krypto: a verified model

krypto keeps secrets: an encrypted key-value store in one file, a blob format
for sealed data, text encodings, memory pages for secrets, and a command that
tells what a file is. This project models that code in Dafny and proves what
it promises: that no acknowledged write is lost, whatever fails or crashes in
between; that two handles never overwrite each other; that each decoder inverts
its encoder exactly; that a secret's memory stays locked, guarded and wiped.

`dafny verify dfyconfig.toml` checks everything.

| file | models |
|---|---|
| `Base.dfy`, `NameOrder.dfy` | bytes, errors, fixed-width numbers; the order of names and sorting |
| `StoreFormat.dfy` | the store file: its grammar, `load`, `persist`'s buffer, cut files |
| `StoreWalker.dfy` | the second reader of store files, in `inspect` |
| `FileSystem.dfy` | a directory with volatile and durable state, and what a crash may bring back |
| `AtomicWrite.dfy` | `atomic_write` with a fault or a crash at any point, and any run of such writes |
| `Aead.dfy` | FAFN blobs over abstract ciphers; forgeries over an ideal cipher with a log |
| `StoreModel.dfy` | what each store call does to memory and file, and the plain map behind it |
| `SecretStore.dfy` | the `SecretStore` class, method by method |
| `StoreRuns.dfy` | every run of calls, faults and crashes, against the plain map |
| `StoreRotation.dfy`, `StoreSizes.dfy` | `rotate`; how long the file gets, and when calls succeed |
| `RotationCrash.dfy` | power lost inside a rotation |
| `StoreHistory.dfy` | the changes made to a file, in order, and what they add up to |
| `LockProtocol.dfy`, `TakeLock.dfy` | any number of processes on one path, one step at a time; `take_lock` itself |
| `LockProgress.dfy` | what a handle of the protocol gets done, and how it fails |
| `StoreTexts.dfy`, `WriteSteps.dfy` | what those processes write, as plaintexts; their writes as `AtomicWrite`'s |
| `Base64.dfy`, `Hex.dfy` | the canonical codecs |
| `Calendar.dfy`, `Der.dfy`, `Pgp.dfy`, `InspectDepth.dfy` | the arithmetic, parsers and recursion of `inspect` |
| `SecretMemory.dfy`, `StdinSecret.dfy` | guarded pages, `SecretBuf`, and `read_stdin_secret` |
| `KnownAnswers.dfy` | files, blobs and texts written out in full |

## How things are modelled

- What the environment decides (faults, random bytes, memory to be had, where
  a mapping goes, what comes back after a crash) is a parameter of the call it
  affects. So every call is a function of its inputs, and a theorem for all
  inputs is a theorem for every fault.
- Where the source changes state, a method does so step by step, and its
  `ensures` ties the new state to a function of the old one. The theorems are
  about these functions. `take_lock` is a method in `TakeLock`, for one process;
  in `LockProtocol` its calls are single steps, since others move in between,
  and `TakeLock.AttemptIsThreeSteps` joins the two.
- Cryptography is a parameter. The only assumptions are that opening inverts
  sealing, that tags have their length, and that AEGIS-256 seals everything.
  For forgeries the cipher is ideal: it opens what its log says it made.
- Names, text and blobs are bytes. A name that is not UTF-8 and a name that is
  not allowed are the same error, so both checks are one. Errors are kinds,
  without their messages.
- Shifts and `|` on disjoint bits are written as arithmetic, with `%` where
  the source's type would cut bits off, and lemmas that say when it does not.
- A crash may bring back any content of a file that was not synced, and a
  directory entry as any of its values since the directory was last synced.

## Where the code and its comments differ

The comments at src/store.rs:128-130 and src/store.rs:204-206 say that memory
and disk never diverge and that a failed rotation leaves the file unchanged.
If opening or syncing the directory fails (src/store.rs:534), which is after
the rename, the call returns an error and `put` and `delete` roll memory back,
but the path already holds the new file. `StoreSizes.ApartIff` and
`StoreRotation.RotationFails` say exactly when the comments hold and what is
there when they do not, with `StoreSizes.FailedPutWitness` and
`StoreRotation.FailedRotationWitness` as examples; the other theorems name this
one case (`AtomicWrite.Lasting`, `StoreRuns.FailedAfterRename`, `astray` in
`LockProtocol`).

The text of an object identifier is computed with a subtraction that goes
below zero for some bodies; `Der.UnderflowIff` says exactly which.

## Model

| member | source | states |
|---|---|---|
| `NameOrder.AscendingIsSorted` | src/store.rs:334-335 | The order in which records are written depends on the set of names only: there is one strictly ascending list of them. |
| `StoreFormat.ReadEncoded` | src/store.rs:280-316 | A record read from a file is the record that was encoded there, whatever bytes follow. |
| `StoreFormat.EncodedRead` | src/store.rs:280-316 | Whatever is read as a record is, byte for byte, the encoding of that record and the rest; its lengths fit their fields. |
| `StoreFormat.ReadRecordsIff` | src/store.rs:278-317 | The record loop accepts exactly the encodings of legal record lists, and yields that list. |
| `StoreFormat.LegalIff` | src/store.rs:298-315 | Legal means: each record fits, each name is valid, no name comes twice, none was seen before. |
| `StoreFormat.ReadStoreIff` | src/store.rs:255-326 | A file is accepted as some contents if and only if a header with that salt and key id and some legal record list spell it out. |
| `StoreFormat.ReadStoreErrs` | src/store.rs:255-326 | Every refusal of the loader is `Format`. |
| `StoreFormat.LoadRecords` | src/store.rs:278-317 | The loop over `off`, inserting into the map, gives the map of the records parsed, or their error; it stays in bounds and ends. |
| `StoreFormat.Load` | src/store.rs:255-326 | `load` is the parser that `ReadStoreIff` characterizes. |
| `StoreFormat.Serialize` | src/store.rs:328-351 | The buffer filled is the header and the encodings of all entries in order of name; it is `Format` exactly if a blob is too long or the file would pass the cap. |
| `StoreFormat.SortedRecordsSpell` | src/store.rs:328-344 | For contents with valid names the buffer is a legal file for those contents, so the cast of the name length to 16 bits loses nothing. |
| `StoreFormat.PersistThenLoad` | src/store.rs:255-353 | Loading what was persisted gives the same contents; the file is 37 bytes and 6 + name + blob for each record. |
| `StoreFormat.LoadedIsValid` | src/store.rs:298-298 | Whatever is loaded has only valid names and blobs that fit: the invariant that makes every reachable store writable up to the cap. |
| `StoreFormat.RewriteIsCanonical` | src/store.rs:255-353 | Writing back any accepted file succeeds, keeps its length and its records, puts them in strict order of name, loads the same, and changes nothing the second time. |
| `StoreFormat.SizeOfPermutation` | src/store.rs:328-344 | The length of a file does not depend on the order of its records. |
| `StoreFormat.EncodingIsPrefixFree` | src/store.rs:278-317 | If one record list's bytes start another's, the first list is a prefix of the second: no cut can be read as different records. |
| `StoreFormat.TruncatedStore` | src/store.rs:261-317 | A file cut at `k` is accepted if and only if the cut is on a record boundary at or past byte 37; then it holds exactly the records before it; every other cut is `Format`. |
| `StoreWalker.InspectStore` | src/bin/krypto-cli/inspect/mod.rs:207-260 | The loop over `at`, `names`, `algs`, `damaged` reports the walk: how many entries, the first twenty names and how many more, each algorithm once in order of first use, and where the walk had to stop. |
| `StoreWalker.EntryIsRecord` | src/bin/krypto-cli/inspect/mod.rs:225-232 | The walker's four `get`s accept a record exactly where the loader's bounds checks do, and read the same one. |
| `StoreWalker.WalkAgrees` | src/bin/krypto-cli/inspect/mod.rs:217-246 | From any offset, the loader's records are the walk's records if the walk is undamaged and its names are allowed, and `Format` otherwise. |
| `StoreWalker.ReadersAgree` | src/bin/krypto-cli/inspect/mod.rs:207-260 | `load` accepts exactly the files whose walk has no damage, format 1, and valid, distinct names; then both readers see the same key id, the same names and as many entries. |
| `StoreWalker.NamesAreShown` | src/bin/krypto-cli/inspect/mod.rs:264-275 | The names the store allows are exactly those of 1 to 512 bytes that the inspector's printer shows as they are. |
| `StoreWalker.AlgsAreTold` | src/bin/krypto-cli/inspect/mod.rs:236-244 | The list of algorithms has each that some entry has, and no other. |
| `StoreWalker.SealedIsNamed` | src/bin/krypto-cli/inspect/mod.rs:171-178 | A blob that `seal` made is told by its algorithm's name. |
| `StoreWalker.OtherBlobsAreNamed` | src/bin/krypto-cli/inspect/mod.rs:236-240 | What is no krypto blob, or of an unknown algorithm, is told as that. |
| `FileSystem.MayReadIff` | src/store.rs:521-538 | What a crash may bring back can be told from the entries: one of the possible entries, with its synced content or, if not synced, any content. |
| `FileSystem.CrashIsValid` | src/store.rs:521-538 | What comes back from a crash is a sound directory again, so writes go on from it. |
| `AtomicWrite.Disk.AtomicWrite` | src/store.rs:493-519 | The write goes through exactly the states of its trace, fault by fault, ends in the last of them, and returns the verdict. |
| `AtomicWrite.Disk.WriteThenRename` | src/store.rs:521-538 | From the new tmp file on: write, sync, rename, sync the directory, stopping at the fault; the tmp file is left exactly if the fault comes before or at the rename. |
| `AtomicWrite.EveryMoment` | src/store.rs:493-538 | In every state of every write, the store file is untouched, or is the whole new file, synced. |
| `AtomicWrite.WriteIsAtomic` | src/store.rs:487-538 | At every moment a process reads the old file or the whole new one, and a crash brings back nothing but what it could before, or the whole new one. |
| `AtomicWrite.SyncIsNeeded` | src/store.rs:529-532 | Why the file is synced before the rename: renamed without it, the store file could come back from a crash as anything. |
| `AtomicWrite.VerdictMeans` | src/store.rs:487-538 | After `Ok` only the new file can be read, now or after a crash. After `Err` the file is as it was, now and after a crash, if and only if the fault is not the directory open or sync after the rename; then the new file is read and either may come back. |
| `AtomicWrite.TmpIsRemoved` | src/store.rs:514-517 | A tmp file stays behind exactly if the write failed before or at the rename and it cannot be removed; no other entry changes. |
| `AtomicWrite.HappensKeeps` | src/store.rs:493-538 | A write, a write cut off by a crash, or a crash keeps the ledger: nothing can be read but what was last acknowledged or was written since. |
| `AtomicWrite.NothingAcknowledgedIsLost` | src/store.rs:493-538 | The same over any run of writes, faults and crashes. |
| `AtomicWrite.AcknowledgedSurvives` | src/store.rs:531-537 | Content acknowledged with `Ok` is what any crash right after brings back. |
| `Aead.Seal` | src/aead.rs:72-97 | Filling the nonce in place and pushing the header's parts gives the blob of the specification. |
| `Aead.SealedHeader` | src/aead.rs:99-116 | A header put before any body reads back as its algorithm, key id and nonce, and as the associated data. |
| `Aead.SealThenOpen` | src/aead.rs:72-136 | A sealed blob opens to its text, tells its key id and algorithm, and is header, text and tag long. |
| `Aead.FormatIff` | src/aead.rs:103-136 | `open` and `blob_key_id` say `Format` if and only if the data is shorter than 54 bytes or lacks the magic: the nonce-length `Format` cannot be reached. |
| `Aead.HeaderIff` | src/aead.rs:103-116 | A header is read exactly from data that starts with "FAFN", version 1 and a known algorithm's id, of at least 54 bytes; `Format` and `Auth` are told apart byte by byte. |
| `Aead.OpenIff` | src/aead.rs:121-136 | `open` gives a text if and only if the cipher does, of the body, under the nonce behind the key id and the whole header, and there is memory; its error is exact otherwise. |
| `Aead.SealIff` | src/aead.rs:72-97 | `seal` succeeds if and only if there is randomness and the cipher seals the text under the new header, written out byte by byte; otherwise it is `Hardening`. |
| `Aead.WrongNonceIsFormat` | src/aead.rs:186-283 | The primitives' wrappers call a nonce of another length `Format`, and a body shorter than AEGIS-256's tag `Auth` first. |
| `Aead.SealIssues` | src/aead.rs:72-97 | Each seal keeps the log of primitive calls and the set of blobs handed out in step. |
| `Aead.RunIsFaithful` | src/aead.rs:72-180 | So does any run of seals, reseals and opens. |
| `Aead.OpensIffIssued` | src/aead.rs:72-180 | After any run, a blob opens to a text under a key if and only if a seal or reseal under that key returned this blob for this text; otherwise it is `Format` if it is no krypto blob and `Auth` in every other case. |
| `Aead.ResealKeeps` | src/aead.rs:150-170 | A reseal keeps text, algorithm and length, and carries the new id. |
| `Aead.ResealIff` | src/aead.rs:150-162 | A reseal succeeds if and only if the old key opens the blob, there is memory and randomness, and the cipher seals that text again with the same algorithm; otherwise its error is that of the open, or `Hardening`. |
| `Aead.ChainIff` | src/aead.rs:150-162 | A chain gives a blob if and only if every link succeeds on what the one before it gave, and the last gives that blob. |
| `Aead.ChainKeeps` | src/aead.rs:150-180 | So does a chain of reseals through any number of keys; the id left is the last one given. |
| `Aead.ChainFailsClosed` | src/aead.rs:150-170 | A chain yields nothing if any link does not authenticate the blob it is given. |
| `StoreModel.GetIsLookup` | src/store.rs:153-163 | On an intact store `get` is lookup in the plain map: `KeyNotFound` for a missing name, `Hardening` for want of memory, the text otherwise. |
| `StoreModel.GetIs` | src/store.rs:153-163 | Every answer of `get` on a file that holds anything, in order: no krypto blob, another version or algorithm, another key id, no memory, and what opening gives. |
| `StoreModel.DeriveIff` | src/kdf.rs:98-124 | `derive` refuses an empty context and more than 1024 bytes, and no name a store may have. |
| `StoreModel.OpenLeavesAFile` | src/store.rs:71-116 | `open` of a file there is, whatever it holds, leaves it alone: it is opened if and only if it can be read and made private, is within 16 MiB and some legal record list spells it; it is never taken for a missing one. |
| `StoreModel.OpenCreates` | src/store.rs:96-114 | Only where there is no file is a new store made: empty, with the salt and key id drawn, or an error with nothing touched before the write. |
| `StoreModel.SealValueIs` | src/store.rs:126-127 | Sealing a value for a valid name fails only for want of memory or randomness; the context string never passes the bound of `derive`; the blob is 54 + text + 32 bytes. |
| `StoreModel.EntryAdds` | src/store.rs:131-131 | Adding a blob that seals a text sets that name in the plain map and touches no other name. |
| `StoreModel.PutTargetIs` | src/store.rs:124-131 | What `put` tries to write is the plain map with one name set; it gets that far exactly if the name is valid and memory and randomness are there. |
| `StoreModel.DeleteTargetIs` | src/store.rs:166-167 | What `delete` tries to write is the plain map without the name; every other entry still opens. |
| `StoreSizes.SerializedIff` | src/store.rs:336-351 | Serializing fails only for want of room: a file within the cap has no blob too long for its length field. |
| `StoreSizes.EntrySize` | src/store.rs:336-344 | A new entry lengthens the file by its own record, wherever in the order it goes. |
| `StoreSizes.PutSucceedsIff` | src/store.rs:124-144 | `put` succeeds if and only if the name is valid, there is memory and randomness, the file with the new value stays within the cap, and the write meets no fault. |
| `StoreSizes.PutTargetLength` | src/store.rs:124-131 | What `put` writes has exactly the length of the store without the name, and one record of 92 bytes and name and text. |
| `StoreSizes.DeleteSucceedsIff` | src/store.rs:166-174 | `delete` succeeds if and only if there is nothing to delete or the write meets no fault: the cap never stops it. |
| `StoreSizes.ApartIff` | src/store.rs:128-143 | After `put` or `delete`, memory and file agree if and only if it was not a write of something new that failed after its rename; if it was, the file holds what was refused. |
| `StoreSizes.FailedPutStays` | src/store.rs:128-143 | A `put` of a new name that fails after its rename is gone from memory and is in the file. |
| `StoreSizes.FailedPutWitness` | src/store.rs:128-143 | Such a `put`: the first of a store, with a directory that cannot be synced. |
| `StoreModel.OpensIffSealed` | src/store.rs:153-163 | After any values have been sealed for any stores and names, an entry of any file opens to a text if and only if it carries the store's key id and a sealing under this very name's key gave out this blob for this text. |
| `StoreModel.BlobIsBoundToItsName` | src/store.rs:248-253 | So a blob sealed for another name or store gives `Auth` here, provided no two of the sealed names derive the same key. |
| `StoreModel.KeyIdMismatchIsAuth` | src/store.rs:155-160 | A key id that differs between the header and a readable blob gives `Auth`, with any memory and any key. |
| `SecretStore.SecretStore.Open` | src/store.rs:88-116 | `open` reads and loads, or creates and persists, and returns a handle that holds what the file says. |
| `SecretStore.SecretStore.Persist` | src/store.rs:328-353 | The file becomes the serialization of the handle's contents, or the write's error is returned with the state that write leaves. |
| `SecretStore.SecretStore.Put` | src/store.rs:124-144 | Insert, persist, and roll back on an error: memory is then exactly what it was, in both branches. |
| `SecretStore.SecretStore.Get` | src/store.rs:153-163 | `get` is the lookup that `GetIsLookup` characterizes, in the source's order of checks. |
| `SecretStore.SecretStore.Delete` | src/store.rs:166-174 | Remove, persist, and put back on an error; nothing is written for a missing name. |
| `SecretStore.SecretStore.List` | src/store.rs:182-191 | The names with the prefix, all of them, in strict order. |
| `SecretStore.SecretStore.OpenEverything` | src/store.rs:213-220 | The loop over the sorted names gives all plaintexts, or the first error, and writes nothing. |
| `SecretStore.SecretStore.SealEverything` | src/store.rs:235-239 | The loop seals every plaintext under its name into the new store, or stops at the first error. |
| `SecretStore.SecretStore.Rotate` | src/store.rs:212-244 | The three steps together: one write at the end, or none. |
| `StoreRuns.WriteMayHold` | src/store.rs:487-538 | What a crash may bring back after a write, as plain maps, by how the write ended. |
| `StoreRuns.PersistFollows` | src/store.rs:328-353 | Every ending of a persist seen from outside: settled on the new map, unchanged, or the one failure after the rename. |
| `StoreRuns.CommitFollows` | src/store.rs:128-143 | With the rollback: after an error memory shows the map it showed before. |
| `StoreRuns.PutFollows` | src/store.rs:124-144 | `put` is a put on the plain map, or leaves it, and never succeeds for an invalid name. |
| `StoreRuns.DeleteFollows` | src/store.rs:166-174 | `delete` is a removal from the plain map, or leaves it; a missing name is no error and no write. |
| `StoreRuns.ReopenFollows` | src/store.rs:88-116 | Reopening shows exactly what the file holds, or starts an empty map if there is no file, and is never refused a file some write left. |
| `StoreRuns.CrashIsSound` | src/store.rs:493-538 | After a crash one of the maps that could come back is there, recoverable, and is there to stay. |
| `StoreRuns.CutFollows` | src/store.rs:493-538 | Power lost inside a write leaves what could come back before, or the whole new map. |
| `StoreRuns.StepFollows` | src/store.rs:88-174 | Each call, crash and cut-off call does to memory, file and crash outcome exactly what the plain map says. |
| `StoreRuns.EveryRunFollows` | src/store.rs:88-174 | So does every run of open, put, get, delete, reopen, faults and crashes: the store refines the plain map. |
| `StoreRuns.EmptyDirectoryIsSound` | src/store.rs:96-114 | An empty directory is a sound start of a run. |
| `StoreRuns.QuietStep` | src/store.rs:124-174 | Without a crash or that one fault, a call changes the one map that memory, file and crash outcome share, and only if acknowledged; `get` returns its value. |
| `StoreRuns.QuietRunIsPlainMap` | src/store.rs:124-174 | Over any such run, all three are the map got by applying just the acknowledged calls, in order. |
| `StoreRotation.OpenAllIff` | src/store.rs:213-220 | Step 1 succeeds if and only if every entry opens, with each entry's own text; its error is that of the first that does not. |
| `StoreRotation.AnyFailureWritesNothing` | src/store.rs:199-220 | If any entry does not open, the rotation returns the error of the first such name in order and the file is not touched. |
| `StoreRotation.SealAllHolds` | src/store.rs:222-239 | Step 2 succeeds if and only if there is memory and randomness for every name, and then each name holds its text under the new master, salt and key id. |
| `StoreRotation.RotationKeepsTheMap` | src/store.rs:193-244 | A rotation that succeeds keeps every name and text, re-binds every entry to the new master, salt and key id, and the file read back is just that. |
| `StoreRotation.TargetIsIntact` | src/store.rs:222-239 | What a rotation is about to write holds every name and text of the old store under the new master, and loads. |
| `StoreRotation.RotationFails` | src/store.rs:204-206 | Exactly what a failed rotation leaves: the old file, now and after any crash, unless it got to its rename and failed after it; then the new file is read, and a crash may bring back either. |
| `StoreRotation.FailedRotationIsRotated` | src/store.rs:193-206 | In that one case the file is not unchanged but rotated: it loads, and is the same plain map under the new master. |
| `StoreRotation.FailedRotationWitness` | src/store.rs:204-206 | Such a rotation: of an empty store, with a directory that cannot be synced. |
| `StoreRotation.RotationLength` | src/store.rs:235-242 | The new file is as long as the old one, plus 16 bytes for each blob that was not AEGIS-256. |
| `StoreRotation.TargetIff` | src/store.rs:209-240 | Whatever ciphers its entries use, a rotation gets as far as its write if and only if every entry opens and there is memory and randomness for each; wanting only those, it is `Hardening`. |
| `StoreRotation.RotateSucceedsIff` | src/store.rs:193-244 | A rotation of an intact store succeeds if and only if there is memory and randomness for every entry, room for 16 more bytes for each blob that is not AEGIS-256, and the write meets no fault. |
| `StoreRotation.AegisRotationSucceeds` | src/store.rs:345-351 | So a store of AEGIS-256 blobs that fits keeps its length and the cap never stops its rotation: memory, randomness and a sound disk decide alone. |
| `TakeLock.Process.TakeLock` | src/store.rs:394-458 | A lock is returned if and only if one of three attempts opens the lock file, to write or only to read, locks it, and finds it still at the path, all attempts before it having been outrun by a replacement; none is returned exactly if the directory cannot be written; no lock is kept on any other ending. |
| `TakeLock.AttemptIsThreeSteps` | src/store.rs:398-418 | An attempt, whatever the system answers, is up to three steps of the lock protocol, with any steps of others in between, and they end as it does: with the lock only if it took the file at the path. |
| `LockProtocol.LocksStep` | src/store.rs:394-422 | No step breaks this: every live handle holds the lock of the very file at the lock path, and every lock has one holder, which knows it. |
| `LockProtocol.TriesStep` | src/store.rs:398-418 | No step breaks this: between opening and checking the lock file only a replacement can change what is at the path, and tries stay between 1 and 3. |
| `LockProtocol.MemoryStep` | src/store.rs:124-174 | No step breaks this: every handle not in a call holds what the file says, unless its last write failed after the rename. |
| `LockProtocol.BuiltStep` | src/store.rs:88-174 | No step breaks this: what a handle holds was made by a series of changes in which every acknowledged one is found, and what it writes is one edit of that. |
| `LockProtocol.HistoryStep` | src/store.rs:493-538 | No step breaks this: the file, and all that a power loss may bring back, was made by such a series too. |
| `LockProtocol.EveryRunKeeps` | src/store.rs:88-244 | All five hold in every interleaving of any number of processes, replacements and crashes. |
| `LockProtocol.OneHandleAndNothingLost` | src/store.rs:58-63 | In every interleaving, with any faults and power losses: at most one locked handle, which agrees with the file; and the file, like all it may come back as, is made by changes in which every acknowledged one is found, once, in order of acknowledgement. |
| `LockProtocol.SmoothStep` | src/store.rs:88-244 | Without failed directory syncs and power losses, there are no other changes in it. |
| `LockProtocol.FileIsAcknowledgedChanges` | src/store.rs:58-63 | Then, whenever no write is half done, the file is just the fold of the acknowledged edits, whichever handles made them, and nothing else can come back. |
| `LockProtocol.UpdateBuildsOnTheLast` | src/store.rs:124-174 | An acknowledged write is one edit of exactly what was last acknowledged: no handle writes from a stale memory. |
| `LockProtocol.AcknowledgedIsOnDisk` | src/store.rs:328-353 | At the moment a write is acknowledged, file, handle and all that a crash can bring back are the same contents, and the lock is still held. |
| `LockProtocol.LockIsHandedOn` | src/store.rs:227-234 | However often `rotate` hands the lock on, and whatever others try meanwhile, one handle has it all the time and no other gets in between. |
| `LockProtocol.ReplacementCostsOneTry` | src/store.rs:412-421 | A check fails only if the lock file was replaced since it was opened, and then costs one of three tries and nothing else. |
| `LockProtocol.OthersStayOut` | src/store.rs:401-411 | While one handle lives, no other gets past its check; with no replacement it is refused at once. |
| `LockProgress.FreeLockIsTaken` | src/store.rs:394-422 | A handle that nobody is in the way of gets the lock in its first try. |
| `LockProgress.ReadingOpens` | src/store.rs:91-95 | With the lock, a handle opens exactly the files that some legal record list spells, within the cap, and lets the lock go over any other. |
| `LockProgress.ReadingIsOpen` | src/store.rs:88-116 | Its step is what `open` does with such a file. |
| `LockProgress.CreatingCompletes` | src/store.rs:96-114 | Where there is no store, a handle with the lock can make one and holds it. |
| `LockProgress.UpdateCompletes` | src/store.rs:124-244 | An idle handle can put, delete and rotate: its change is acknowledged, and it or its heir holds the changed contents and the lock. |
| `LockProgress.FailedUpdateIsUndone` | src/store.rs:132-142 | A put or delete that fails before its rename leaves everything as it was. |
| `LockProgress.FailedSyncGoesAstray` | src/store.rs:531-537 | One that fails after it leaves its handle as it was, beside the new file. |
| `LockProgress.FailedHandleIsGone` | src/store.rs:204-206 | A rotation or first write that fails gives up its handle and the lock. |
| `StoreTexts.PutSets` | src/store.rs:124-131 | The change `put` makes is to set its one name. |
| `StoreTexts.RotateReseals` | src/store.rs:222-239 | The change `rotate` makes is a new blob for every entry: it adds and removes none. |
| `StoreTexts.WriteStep` | src/store.rs:124-244 | Written on a file that holds a plain map, a `put` sets its text, a `delete` removes its name, and a `rotate` changes the master only. |
| `StoreTexts.ChangesAddUp` | src/store.rs:124-244 | So do any number of them, one on what the other left. |
| `StoreTexts.AcknowledgedWrites` | src/store.rs:88-244 | A call acknowledged to a handle was made on what the file then held, not only on what the handle held. |
| `StoreTexts.SharedStoreIsPlainMap` | src/store.rs:58-63 | No lost update, from end to end: any handles in any processes, each putting, deleting and rotating what it holds itself, interleaved in any way without a failed directory sync or power loss, make the file the plain map of all acknowledged calls in order of acknowledgement. |
| `WriteSteps.EveryMomentShows` | src/store.rs:521-538 | Every state of `atomic_write`'s directory shows, and may come back as, just what the lock protocol says of that step. |
| `WriteSteps.EveryEndShows` | src/store.rs:493-538 | `Ok`, an error before or at the rename, and an error after it are the protocol's three endings of a write. |
| `WriteSteps.CrashShows` | src/store.rs:493-538 | A crash in any such state is the protocol's power loss. |
| `RotationCrash.RotationCutFollows` | src/store.rs:200-203 | Power lost inside a rotation's write leaves what could come back before, or a file with the same plain map under the new master, there to stay; never a half-rotated store. |
| `RotationCrash.RotationCutKeepsTheMap` | src/store.rs:200-203 | So the map of a settled store survives it whole, under one master or the other. |
| `Base64.SextetIff` | src/base64.rs:114-127 | Reading a letter is the inverse of the alphabet, both ways. |
| `Base64.Encode` | src/base64.rs:20-41 | The loop over 3-byte chunks through a 24-bit number gives the letters of every 6-bit group, padded to a multiple of four. |
| `Base64.EncodeNopad` | src/base64.rs:45-51 | Popping the padding leaves exactly the letters. |
| `Base64.DecodeBody` | src/base64.rs:90-112 | The accumulator loop, with `acc < 2^nbits` and `nbits` in {0, 2, 4, 6} between letters, decodes letter by letter and rejects bits left over. |
| `Base64.ShiftIs` | src/base64.rs:92-103 | One turn of that loop loses no bit, neither in the 32-bit shift nor in the cast to a byte. |
| `Base64.Decode` | src/base64.rs:56-69 | `decode` is the function that `DecodeIff` characterizes. |
| `Base64.DecodeNopad` | src/base64.rs:73-86 | `decode_nopad` is the function that `DecodeNopadIff` characterizes. |
| `Base64.DecodeIff` | src/base64.rs:20-112 | Over all strings: `decode(s)` is `b` if and only if `s` is `encode(b)`. Canonical form is the only form. |
| `Base64.DecodeNopadIff` | src/base64.rs:45-112 | The same for the unpadded form. |
| `Base64.UnpaddedLength` | src/base64.rs:20-51 | How long both encodings are. |
| `Base64.DecodedLength` | src/base64.rs:90-112 | What decodes is at most three quarters as long. |
| `Base64.DecodeErrs` | src/base64.rs:56-112 | Every refusal is `Format`. |
| `Hex.Encode` | src/hex.rs:15-22 | Two lowercase digits a byte, in order. |
| `Hex.Decode` | src/hex.rs:26-42 | The loop over pairs decodes them all or stops at the first bad digit. |
| `Hex.NibbleIff` | src/hex.rs:44-54 | Reading a digit is the inverse of writing one, both ways; upper case is refused. |
| `Hex.DecodeIff` | src/hex.rs:15-54 | Over all strings: `decode(s)` is `b` if and only if `s` is `encode(b)`; every refusal is `Format`. |
| `Hex.DecodedLength` | src/hex.rs:26-42 | What decodes is half as long. |
| `Calendar.YearOfEraIs` | src/bin/krypto-cli/inspect/mod.rs:155-160 | The closed formula finds the year of the era for every century, leap cycle, year and day of it. |
| `Calendar.CivilSteps` | src/bin/krypto-cli/inspect/mod.rs:150-169 | The algorithm takes day `d + 1` to the calendar's successor of the date of day `d`, and every date is valid for the leap rule. |
| `Calendar.CivilIsStepped` | src/bin/krypto-cli/inspect/mod.rs:150-169 | For every day count the date is the one reached by stepping the Gregorian calendar from 1970-01-01. |
| `Calendar.DayNumberInverts` | src/bin/krypto-cli/inspect/mod.rs:150-169 | Converting the date back gives the day number. |
| `Calendar.DaysToDate` | src/bin/krypto-cli/inspect/mod.rs:153-166 | The algorithm in 64-bit integers: no step overflows for any day a second count can name. |
| `Calendar.DateTime` | src/bin/krypto-cli/inspect/mod.rs:150-169 | For every 64-bit second count: the stepped date, and an hour, minute and second in range that recompose the count. |
| `Der.ReadEncoded` | src/bin/krypto-cli/inspect/der.rs:13-38 | Reading inverts encoding, for each form of the length, whatever follows. |
| `Der.EncodedRead` | src/bin/krypto-cli/inspect/der.rs:13-38 | Whatever is read was encoded there in some form, byte for byte. |
| `Der.ReadIsStable` | src/bin/krypto-cli/inspect/der.rs:13-38 | Bytes added behind change neither the element read nor what was left, but for being added to it. |
| `Der.WholeIff` | src/bin/krypto-cli/inspect/der.rs:41-44 | `whole` accepts exactly the encodings of one element. |
| `Der.Children` | src/bin/krypto-cli/inspect/der.rs:47-56 | The loop over `rest` gives the elements that `ElementsIff` characterizes. |
| `Der.ElementsIff` | src/bin/krypto-cli/inspect/der.rs:47-56 | The elements are `ts` if and only if the bytes are `ts` encoded one after the other: nothing skipped, nothing left over. |
| `Der.OidArcs` | src/bin/krypto-cli/inspect/der.rs:66-87 | The loop over `value` and `parts` gives the arcs, or meets the subtraction that goes below zero. |
| `Der.OidRoundTrip` | src/bin/krypto-cli/inspect/der.rs:66-87 | Any arcs with subidentifiers below 2^64, in the fewest octets, come back exactly. |
| `Der.UnderflowIff` | src/bin/krypto-cli/inspect/der.rs:73-75 | The subtraction goes below zero if and only if the first subidentifier takes more than one octet and its 64-bit value is below 80. |
| `Der.UnpaddedNeverUnderflows` | src/bin/krypto-cli/inspect/der.rs:66-87 | It never does so for a body that does not start with 0x80 and whose first subidentifier is at most nine octets. |
| `Der.PaddedOidUnderflows` | src/bin/krypto-cli/inspect/der.rs:73-75 | A body for which it does: 80 01. |
| `Der.IntegerBitsIs` | src/bin/krypto-cli/inspect/der.rs:165-171 | The size is the number's bit length: the least power of two above it. |
| `Pgp.Packets` | src/bin/krypto-cli/inspect/pgp.rs:17-91 | The loop over `rest` and `out` gives the packets that `PacketsIff` characterizes. |
| `Pgp.HeaderReads` | src/bin/krypto-cli/inspect/pgp.rs:21-63 | Each of the six definite length forms, old and new, reads back as its tag and length. |
| `Pgp.HeaderWasMade` | src/bin/krypto-cli/inspect/pgp.rs:21-63 | Every header read with a length was made so in one of the six forms. |
| `Pgp.PacketsIff` | src/bin/krypto-cli/inspect/pgp.rs:17-91 | An input gives packets `out` if and only if it is, from first byte to last, definite packets with tags not zero and then at most one body of partial or indeterminate length, with a key packet before it. |
| `Pgp.DefiniteRoundTrip` | src/bin/krypto-cli/inspect/pgp.rs:17-91 | Any list of packets with nonzero tags, in any legal mix of forms, comes back exactly. |
| `Pgp.OnlyTheLastIsOpen` | src/bin/krypto-cli/inspect/pgp.rs:72-88 | A body of partial or indeterminate length is only ever the last, after a packet with tag 1 or 3. |
| `Pgp.OpenNeedsAKey` | src/bin/krypto-cli/inspect/pgp.rs:72-88 | Definite packets with such a body behind them are accepted if and only if one of them has tag 1 or 3. |
| `InspectDepth.LinesComeBack` | src/bin/krypto-cli/inspect/mod.rs:100-101 | Lines written with either line ending come back as they were, whatever follows; a last line that is not ended is a line too. |
| `InspectDepth.PemBodyIs` | src/bin/krypto-cli/inspect/mod.rs:100-106 | Of a PEM block as it is written, the body is its lines, trimmed, in order, without headers, the end line and what is behind it. |
| `InspectDepth.BodyIsShorter` | src/bin/krypto-cli/inspect/mod.rs:100-106 | The base64 body collected from a PEM block is no longer than the text. |
| `InspectDepth.StaysAbove` | src/bin/krypto-cli/inspect/mod.rs:58-124 | From any input that fits its depth, no call is deeper than 63, on any path. |
| `InspectDepth.DeepestIsReached` | src/bin/krypto-cli/inspect/mod.rs:94-124 | The greatest depth told covers the calls made by PEM, hex and base64. |
| `InspectDepth.DeepestCovers` | src/bin/krypto-cli/inspect/mod.rs:58-90 | And those made by `inspect_at` itself. |
| `InspectDepth.DepthFitsAByte` | src/bin/krypto-cli/inspect/mod.rs:58-124 | For every input up to 64 MiB the recursion stays below depth 64, so `depth + 1` fits a byte though the PEM path has no guard; it ends on every input. |
| `InspectDepth.UnwrapsTwice` | src/bin/krypto-cli/inspect/mod.rs:82-87 | From depth 2 on, nothing but PEM is unwrapped. |
| `InspectDepth.AskedInOrder` | src/bin/krypto-cli/inspect/mod.rs:58-90 | The finding is that of the first recognizer that answers, in the source's order; if none does, it is not recognized. |
| `InspectDepth.LowerIsHex` | src/bin/krypto-cli/inspect/mod.rs:343-344 | The digit check and the lower casing accept exactly hex in either case of letters. |
| `InspectDepth.UnwrappedIs` | src/bin/krypto-cli/inspect/mod.rs:342-357 | Text that spells bytes in hex, in either case, is told as what they are; other text that spells bytes in base64 is, if they are recognized; no other text is unwrapped. |
| `InspectDepth.PemIs` | src/bin/krypto-cli/inspect/mod.rs:94-124 | A PEM block is told as what its body spells, or by its label. |
| `SecretMemory.LayoutFits` | src/ffi.rs:67-90 | No sum of the layout passes 64 bits, and the byte after the secret is the first of the back guard. |
| `SecretMemory.NewSucceedsIff` | src/ffi.rs:57-117 | `new` succeeds if and only if the secret is empty, or nothing fails and some number of pages holds it within 64 bits; then the mapping has the fewest such pages and two guards, with the secret at their end; otherwise it is `Hardening` and memory is as it was. |
| `SecretMemory.Process.New` | src/ffi.rs:57-117 | `new` makes the guarded, locked mapping, or fails at any of its steps with memory as it was. |
| `SecretMemory.Process.Fortify` | src/ffi.rs:94-115 | The calls on the fresh mapping, each stopping at a failure, after which the mapping is gone again. |
| `SecretMemory.Process.Drop` | src/ffi.rs:134-147 | Wiped, then unmapped; nothing that is not zero is ever unmapped. |
| `SecretMemory.Process.FromVec` | src/secret.rs:25-40 | The bytes are in the new secret, and the source is wiped whether or not there was memory for it. |
| `SecretMemory.Process.FillWith` | src/secret.rs:45-54 | Filled in place; if filling fails, what it wrote is wiped and memory is as it was. |
| `SecretMemory.Process.RandomWithLimit` | src/secret.rs:69-84 | A length above the limit is `Format` and maps nothing; a failing generator leaves nothing. |
| `SecretMemory.MadeIsGuarded` | src/ffi.rs:57-117 | What `new` makes has the guards, locks and dump exclusion of a live secret, on pages nobody had, and changes nothing else. |
| `SecretMemory.WipedIsZero` | src/secret.rs:98-104 | Once the secret is wiped its whole mapping is zero. |
| `SecretMemory.GuardedMeans` | src/ffi.rs:17-30 | A live secret byte by byte: usable, locked, undumpable; the page before its data pages and the page right behind its last byte cannot be touched; whole pages only. |
| `SecretMemory.CreationGuards` | src/ffi.rs:57-117 | A creation holds the data on guarded pages of its own and touches no other byte. |
| `SecretMemory.FailureLeavesNothing` | src/ffi.rs:57-117 | A creation that fails, at any step, or whose filling fails, leaves memory exactly as it was. |
| `SecretMemory.DropTouchesOwnPages` | src/ffi.rs:134-147 | Dropping one secret removes its own pages and changes no flag or byte of any other. |
| `SecretMemory.EventKeepsGuards` | src/ffi.rs:57-147 | Every event keeps every live secret guarded and apart from the others, with its bytes. |
| `SecretMemory.EveryRunGuards` | src/ffi.rs:57-147 | Over any run of creations, failures and drops every live secret's pages are locked, undumpable, its own, and between inaccessible pages. |
| `SecretMemory.SecretsLast` | src/secret.rs:25-104 | A secret keeps its place and its bytes through any run that does not drop it. |
| `StdinSecret.OutcomeIff` | src/bin/krypto-cli/main.rs:447-464 | The secret is exactly the concatenation of what was read; there is one if and only if no read failed and it is not past the limit. |
| `StdinSecret.TooLongIff` | src/bin/krypto-cli/main.rs:454-456 | It is refused as too long if and only if what came before any failed read is past the limit. |
| `StdinSecret.Take` | src/bin/krypto-cli/main.rs:457-463 | A chunk is appended within capacity, after a move to a buffer at least twice as big if there is no room; the buffer left is wiped. |
| `StdinSecret.ReadAll` | src/bin/krypto-cli/main.rs:443-465 | The loop reads the secret; every other buffer it allocated is wiped and freed on every ending; less than twice the secret's length is copied. |
| `StdinSecret.ReadStdinSecret` | src/bin/krypto-cli/main.rs:443-466 | The bytes end in locked pages or there is an error; either way no buffer that held them stays allocated or goes back unwiped. |
| `KnownAnswers.StoreFile` | src/store.rs:20-24 | A store of one entry, written out: "FST1", 1, salt, key id, lengths lowest byte first. |
| `KnownAnswers.Blob` | src/aead.rs:72-97 | The first 54 bytes of a blob, written out. |
| `KnownAnswers.Base64Vectors` | src/base64.rs:20-41 | Test vectors of section 10 of RFC 4648. |
| `KnownAnswers.LeapCentury` | src/bin/krypto-cli/inspect/mod.rs:150-169 | 29 February 2000 and the day after. |
| `KnownAnswers.Rsadsi` | src/bin/krypto-cli/inspect/der.rs:66-87 | 1.2.840.113549 in DER. |
| `KnownAnswers.PasswordMessage` | src/bin/krypto-cli/inspect/pgp.rs:17-91 | A message encrypted with a password, whose data has partial length, is read as its two packets. |

## Left out

- The cryptographic primitives and key derivation: parameters.
- `StoreModel.BlobIsBoundToItsName`: that no two sealed names derive the same key is a hypothesis, a property of HKDF and not of this code.
- `AtomicWrite.Disk.AtomicWrite`: the random part of the tmp name is given; a name already taken is an error, as `create_new` makes it. File modes and symbolic links are not part of this model.
- `LockProtocol.EveryRunKeeps`: a handle without a lock (a directory that cannot be written) never writes, and nothing but the store's own handles writes the store file. Network file systems are not part of this model.
- `LockProtocol.OneHandleAndNothingLost`: the lock file is not replaced while a locked handle lives. If someone does that, the source lets a second handle in, and so would the model.
- `StoreRuns.EveryRunFollows`: one path and one master. After a rotation that failed after its rename a crash may bring back a file of either master, so rotations are proved call by call in `StoreRotation` and `RotationCrash`, and among other calls and processes in `StoreTexts`.
- `StoreTexts.SharedStoreIsPlainMap`: runs without a failed directory sync or a power loss; with these, `LockProtocol.OneHandleAndNothingLost` says that every acknowledged change is kept, and calls that were not acknowledged may be found too.
- `Aead.OpensIffIssued`: environment errors (no memory for the plaintext) are apart, in `Aead.FormatIff`.
- `Calendar.DateTime`: the text with its padding is not modelled; the numbers are.
- `Der.OidArcs`: the decimal text of the arcs is not modelled; the arcs are. An underflow is a value here and a panic or a wrapped number in the source, by build profile.
- `InspectDepth.StaysAbove`: the recognizers that do not recurse are parameters, and so is trimming, of which only that it lengthens nothing is assumed.
- `SecretMemory.EveryRunGuards`: the system hands out fresh, page-aligned memory and unmapping succeeds; what a failing `fill` wrote may be anything of the right length.
- `StdinSecret.ReadAll`: the copy that `read` keeps outside the process is not part of this model.
- The algorithm tables, key descriptions and text recognizers of `inspect`: each is settled by reading it.
- `exchange.rs`, `sign.rs`, `password.rs`, `util.rs`, the Python bindings, process hardening and the Miri fallback: thin wrappers or effects on the operating system.
- Timing, constant-time comparison and stack scrubbing: not properties of results.
