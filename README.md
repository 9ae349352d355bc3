# File-sharing storage core, in Dafny

This project models the storage core of a small Node.js file-sharing service. Clients upload
a file and get back two keys: a **public key** that fetches the file and a **private key** that
deletes it. The model covers four parts:

- **`LocalStorage`** keeps uploads in a root folder. It records every upload in a metadata index,
  `files.json`, which it rewrites after every change. `save` moves the upload in under a name
  derived from the public key. `get` looks a record up by public key and stamps its `lastAccess`.
  `remove` looks a record up by private key, unlinks its file and splices the record out.
- **`cleanupOldFiles`** is the retention sweep. It walks the index once. For each record it takes
  the effective access time: the recorded time, raised to the filesystem access time whenever a
  `stat` succeeds. It unlinks the files of records older than the cutoff, then writes the
  survivors back once.
- **`GoogleStorage`**: the mock mode implements the same save/get/remove contract over an
  in-process `Map` and copies files under `/tmp`. The constructor validates its configuration.
  The bucket mode names objects by a key-derived prefix.
- **`safeKeyGenerator`** computes the key the rate limiters count requests under.

The filesystem is a map from paths to contents (`Fs.FileSystem`). `files.json` is one of those
files: it holds either a well-formed index document or bytes that do not parse. Inputs that come
from outside the code are parameters: the clock readings, the generated keys, and the access
times the filesystem would report. Modules:

- `Wrappers`: `Option` and `Result`.
- `Text`: the JavaScript string operations the code uses.
- `Index`: index records and the two searches over them.
- `Fs`: the filesystem.
- `LocalStore`, `Cleanup`, `GoogleStore` and `RateLimiter`: the four parts above.
- `Scenarios`: client call sequences taken from the unit tests.

Main results:

- **The sweep equals a filter.** `cleanupOldFiles` unlinks files while it walks, and a later
  `stat` sees those unlinks. Even so, the loop keeps exactly the records that the pure filter
  `Keep` keeps against the filesystem as it was before the sweep. It deletes exactly the paths of
  the evicted records (`SweepIsFilter`). The reason: an unlink only removes a path that is missing
  or already older than the cutoff, and such a path cannot change a later verdict. No assumption
  about distinct paths is needed. As a consequence, a second sweep at the same time changes
  nothing (`SweepIdempotent`).
- **The file-name sanitiser is characterised.** `originalname.replace(/\s+/g, '_')` turns each
  maximal run of JavaScript whitespace into exactly one `_` (`CollapseSpacesRun`). It is
  idempotent, and it leaves a name without whitespace unchanged.
- **Round trips.** On both backends, save → get → remove → get behaves as the unit tests expect:
  the get finds the record, the remove returns true, and the last get misses
  (`LocalRoundTrip`, `MockRoundTrip`).

Three behaviours of the code are easy to miss, and the model keeps each as the code has it:

- **A missing file does not get its record evicted.** One might expect a record without bytes
  to be dropped. But the failed `stat` is swallowed, so the record is judged on
  `lastAccess || createdAt || 0` alone (`MissingFileJudgedOnRecord`).
- **An unparseable `files.json` loses every record in a sweep.** The sweep does not stop when
  the index cannot be parsed. It reads the index as an empty list and writes that empty list
  back (`Cleanup.CleanupOldFiles`, third `ensures`).
- **A long-lived `LocalStorage` can undo a sweep.** Nothing serialises access to the index.
  `save` appends to the list it holds in memory without reloading `files.json`, while `get`,
  `remove` and `listAll` do reload it. A sweep that runs between an object's last reload and
  its next `save` is therefore undone: the records the sweep dropped are written back, even
  though their files stay deleted (`Scenarios.SweepThenSave`).

## Model

| member | source | states |
|---|---|---|
| Text.CollapseSpaces | src/services/storage/localStorage.js:39 | the sanitised name holds no whitespace and is no longer than the original |
| Text.CollapseSpacesRun | src/services/storage/localStorage.js:39 | a non-empty whitespace run, between a part that does not end in whitespace and a part that does not start with it, becomes exactly one `_` |
| Text.CollapseSpacesAppend | src/services/storage/localStorage.js:39 | splitting a name after a non-whitespace character and sanitising each part gives the same result as sanitising the whole (runs are maximal) |
| Text.CollapseSpacesIdentity | src/services/storage/localStorage.js:39 | a name without whitespace is stored unchanged |
| Text.CollapseSpacesIdempotent | src/services/storage/localStorage.js:39 | sanitising twice gives the same result as sanitising once |
| Text.SkipSpaces | src/services/storage/localStorage.js:39 | consumes a leading whitespace run and stops at a non-whitespace character |
| Text.IndexFrom | src/middlewares/rateLimiter.js:8 | the first occurrence of the pattern at or after a position: it occurs there, and it occurs nowhere earlier |
| Text.IndexOf | src/middlewares/rateLimiter.js:8 | the first occurrence of the pattern; `None` exactly when it occurs nowhere |
| Text.RemoveFirst | src/middlewares/rateLimiter.js:8 | `replace` with a string pattern: unchanged when the pattern is absent; otherwise one pattern length shorter, and inserting the pattern back at the first occurrence restores the input |
| Index.FindByPublicKey | src/services/storage/localStorage.js:63 | `find` by public key: the first record with that key; `None` exactly when no record has it |
| Index.FindByPrivateKey | src/services/storage/localStorage.js:73-74 | `findIndex` by private key: the first record with that key; `None` (the `-1`) exactly when no record has it |
| Index.Touch | src/services/storage/localStorage.js:66 | the touched record differs from before only in `lastAccess`, which is `now`; the length and every other record are unchanged; creation-before-access ordering is kept when `now` is not before the record's creation |
| Index.TouchChangesOnlyAccessTime | src/services/storage/localStorage.js:63-66 | touching a record leaves both searches and key uniqueness unchanged |
| Index.SameKeysSameSearch | src/services/storage/localStorage.js:63-73 | two lists with the same keys at every position answer both searches alike |
| Index.AppendedFound | src/services/storage/localStorage.js:56 | a pushed record with new keys is found by both keys at the end of the list, and key uniqueness is kept |
| Index.RemovedNotFound | src/services/storage/localStorage.js:73-77 | with unique keys, once a record is spliced out, neither its private key nor its public key finds anything, and uniqueness is kept |
| Index.RemoveAt | src/services/storage/localStorage.js:77 | `splice(i, 1)` removes exactly the `i`-th record; the others keep their relative order; creation-before-access ordering is kept |
| Fs.ReadIndex | src/services/storage/localStorage.js:19-26 | a missing or unparseable document reads as the empty list; a well-formed one reads as its list |
| Fs.Renamed | src/services/storage/localStorage.js:43 | after a rename, the destination holds the source's bytes, the source is gone, and no other path changes |
| Fs.WrittenIndexReadsBack | src/services/storage/localStorage.js:28-30 | reading the index right after writing it gives back what was written |
| Fs.FileSystem.Rename | src/services/storage/localStorage.js:43 | `renameSync` succeeds exactly when the source exists, and then moves it |
| Fs.FileSystem.Unlink | src/services/storage/googleStorage.js:70 | `unlinkSync` succeeds exactly when the path exists; afterwards the path is gone |
| Fs.FileSystem.CopyFile | src/services/storage/googleStorage.js:36 | `copyFileSync` succeeds exactly when the source exists, and then the destination holds the source's bytes |
| Fs.FileSystem.WriteIndex | src/services/storage/localStorage.js:29 | the index path holds the written list; no other path changes |
| Fs.FileSystem.constructor | src/services/storage/localStorage.js:10 | the filesystem starts with the given contents |
| LocalStore.StoredName | src/services/storage/localStorage.js:39 | the stored name starts with `publicKey + "_"`; the rest is the sanitised original name and holds no whitespace; a name without whitespace is kept as is |
| LocalStore.NewEntryShape | src/services/storage/localStorage.js:39-55 | the stored name starts with `publicKey + "_"`; its rest is the sanitised original name, which holds no whitespace; a name without whitespace is kept as is; the path is the root joined with the name; the record carries the returned keys |
| LocalStore.StoredNamesDistinct | src/services/storage/localStorage.js:33-39 | keys without `_` (such as hex keys) give distinct keys distinct stored names |
| LocalStore.DataPathIsNotIndex | src/services/storage/localStorage.js:14-43 | with the non-normalising `Join`, a stored path is never the index path, so `save` cannot move an upload onto `files.json` (see "Left out" for names holding `/`) |
| LocalStore.LocalStorage.constructor | src/services/storage/localStorage.js:10-17 | writes an empty index only when `files.json` is missing, then loads it |
| LocalStore.LocalStorage.LoadMeta | src/services/storage/localStorage.js:19-26 | the in-memory list is the document's list; a missing or unparseable document gives the empty list |
| LocalStore.LocalStorage.SaveMeta | src/services/storage/localStorage.js:28-30 | the whole in-memory list is written through and reads back unchanged; nothing else changes |
| LocalStore.LocalStorage.Save | src/services/storage/localStorage.js:36-59 | fails with nothing changed when the upload is missing; otherwise moves the upload's bytes to the stored path, appends exactly one record (earlier records unchanged and in place), persists the list, and returns the new record's keys; with clock readings `createdAt <= lastAccess`, every record still has creation no later than last access |
| LocalStore.LocalStorage.Get | src/services/storage/localStorage.js:61-69 | reloads the index; on a miss returns `None` and writes nothing; on a hit touches the first match only, persists, and returns the touched record; with a clock no earlier than any creation time, every record still has creation no later than last access |
| LocalStore.LocalStorage.Remove | src/services/storage/localStorage.js:71-80 | reloads the index; on a miss returns false and writes nothing; on a hit deletes exactly the first match's file (when present) and record, persists, and returns true; creation-before-access ordering is kept |
| LocalStore.LocalStorage.ListAll | src/services/storage/localStorage.js:83-86 | returns the freshly reloaded index |
| Cleanup.Cutoff | src/services/cleanupService.js:31 | `now - maxAgeDays * 86400000` in whole milliseconds; never after `now` for a non-negative age |
| Cleanup.SurvivalIsAgeBound | src/services/cleanupService.js:41 | documents that the comparison is strict `<`, so the cutoff is inclusive: a record survives exactly when its effective time is at most `maxAgeDays` days before `now` |
| Cleanup.RecordedTime | src/services/cleanupService.js:34 | `lastAccess` when it is non-zero, otherwise `createdAt` (the final fallback to 0 adds nothing, since it only applies when `createdAt` is already 0) |
| Cleanup.StatAtime | src/services/cleanupService.js:36-38 | the stat succeeds exactly when the file exists, and then reports its access time, or 0 in place of a missing one |
| Cleanup.EffectiveTime | src/services/cleanupService.js:34-39 | at least the recorded time (`lastAccess`, else `createdAt`, else 0) and at least the `stat` access time when the file exists; equal to one of the two |
| Cleanup.MissingFileJudgedOnRecord | src/services/cleanupService.js:36-39 | a record whose file is missing survives exactly when its recorded time is at or after the cutoff |
| Cleanup.Keep | src/services/cleanupService.js:41-46 | a record is kept exactly when it survives; the kept list is an order-preserving subsequence of the index |
| Cleanup.KeepDroppedPartition | src/services/cleanupService.js:41-46 | the kept and the evicted records together are the index, each record as often as it is listed |
| Cleanup.Dropped | src/services/cleanupService.js:41-43 | a record is evicted exactly when it does not survive |
| Cleanup.SweepOnlyDeletes | src/services/cleanupService.js:33-47 | the loop `Sweep`, with each stat seeing the unlinks before it, keeps at most every record and only ever deletes: every file it leaves has its old contents |
| Cleanup.StaleDeletionKeepsVerdict | src/services/cleanupService.js:36-43 | deleting paths that are missing or older than the cutoff changes no record's verdict |
| Cleanup.DroppedPathsStale | src/services/cleanupService.js:41-43 | every evicted record's path is missing or older than the cutoff |
| Cleanup.SweepIsFilter | src/services/cleanupService.js:33-47 | the loop, whose stats see its own earlier unlinks, keeps exactly `Keep`'s records and deletes exactly the evicted records' paths |
| Cleanup.KeepAllSurvive | src/services/cleanupService.js:41-46 | when every record survives, all are kept and none is evicted |
| Cleanup.SweepIdempotent | src/services/cleanupService.js:41-48 | a second sweep at the same time, over the written survivors and the filesystem left behind, keeps every survivor and deletes nothing |
| Cleanup.TenDayOldRecordsEvicted | src/services/cleanupService.js:31-46 | two records last accessed ten days ago, with files missing or read no later, are both evicted by a seven-day sweep, leaving an empty list |
| Cleanup.CleanupOldFiles | src/services/cleanupService.js:24-49 | writes nothing when `files.json` is missing; otherwise the loop's unlinks and one write of exactly `Keep`'s survivors; an unparseable index is rewritten as the empty list |
| GoogleStore.Configure | src/services/storage/googleStorage.js:6-21 | mock mode exactly when `MOCK_GCS` is `"true"`; otherwise success exactly when a configuration path is given, the file exists and parses, and `projectId`, `bucketName` and `credentials` are all truthy; a missing path fails as "not set" |
| GoogleStore.ObjectNameMatchesOnlyItsKey | src/services/storage/googleStorage.js:42-57 | the object name `save` uploads under starts with the prefix `get` lists by; with keys without `_`, no other key's prefix matches it |
| GoogleStore.FindSlot | src/services/storage/googleStorage.js:52 | the position of a key in the `Map`; `None` exactly when it is absent |
| GoogleStore.MapSet | src/services/storage/googleStorage.js:38 | `Map.set`: the key then maps to the new record; every other key keeps its record; an existing key keeps its place and a new key goes last; no entry appears except the new one; distinct keys stay distinct |
| GoogleStore.ReplacedSlot | src/services/storage/googleStorage.js:38 | `set` on a present key: the record is replaced in place and nothing else changes |
| GoogleStore.AppendedSlot | src/services/storage/googleStorage.js:38 | `set` on an absent key: the entry is added last and nothing else changes |
| GoogleStore.RemoveSlot | src/services/storage/googleStorage.js:71 | `Map.delete` of the entry at a position: that entry goes, the others keep their order, keys stay distinct |
| GoogleStore.FindByPrivate | src/services/storage/googleStorage.js:68-69 | the first entry, in insertion order, whose record has the private key; `None` exactly when none has it |
| GoogleStore.SaveThenView | src/services/storage/googleStorage.js:38-54 | after `set(pk, rec)`, `get(pk)` returns `rec`'s copy path, type and name, and every other key answers as before |
| GoogleStore.SavedEntryRemovable | src/services/storage/googleStorage.js:38-72 | after `set` with a private key no earlier entry carries, `remove` by that key finds exactly the saved entry, and once it is deleted `get` of its public key returns null |
| GoogleStore.RemovedNotViewed | src/services/storage/googleStorage.js:67-72 | once the entry found by a private key is deleted, `get` of its public key returns null; with unique private keys, the private key finds nothing more |
| GoogleStore.MockDest | src/services/storage/googleStorage.js:35 | the copy lies under `/tmp/` and is named `publicKey + "_"` followed by the original name, kept verbatim (no sanitisation) |
| GoogleStore.View | src/services/storage/googleStorage.js:51-55 | null exactly when no entry has the key; otherwise the copy path, type and name of an entry with that key |
| GoogleStore.GoogleStorage.Mock | src/services/storage/googleStorage.js:7-11 | mock construction starts with an empty `Map` |
| GoogleStore.GoogleStorage.Save | src/services/storage/googleStorage.js:33-40 | fails with nothing changed when the upload is missing; otherwise the copy at `/tmp/<publicKey>_<originalname>` (name not sanitised) holds the upload's bytes, the upload is unlinked, the `Map` is `set` with `{privateKey, dest, mimetype, originalname}`, and the stored keys are returned |
| GoogleStore.GoogleStorage.Get | src/services/storage/googleStorage.js:51-55 | null exactly when the key is absent; otherwise the entry's copy path, type and name; it reads the `Map` and changes nothing (no access-time touch) |
| GoogleStore.GoogleStorage.Remove | src/services/storage/googleStorage.js:67-76 | walks the `Map` in insertion order; no match returns false with nothing changed; on the first match, unlinks the copy, deletes that entry and returns true; if the copy is already gone, `unlinkSync` throws and the `Map` is unchanged |
| RateLimiter.ClientAddress | src/middlewares/rateLimiter.js:7 | `req.ip` when truthy, else `remoteAddress` when truthy, else `"unknown"`; never empty |
| RateLimiter.SafeKey | src/middlewares/rateLimiter.js:4-9 | the client address with the first `::ffff:` removed: unchanged when absent; otherwise seven characters shorter, and putting the prefix back at the first occurrence restores the address |
| RateLimiter.AnonymousClientsShareKey | src/middlewares/rateLimiter.js:7 | without a truthy `ip` or `remoteAddress`, the key is `"unknown"` |
| RateLimiter.MappedAddressLosesPrefix | src/middlewares/rateLimiter.js:8 | an address starting with `::ffff:` loses exactly that prefix |
| RateLimiter.PlainAddressUnchanged | src/middlewares/rateLimiter.js:8 | an address without a colon, such as a plain IPv4 address, is its own key |
| RateLimiter.LoopbackSharesKey | src/middlewares/rateLimiter.js:5-8 | `::ffff:127.0.0.1` and `127.0.0.1` both map to `127.0.0.1` |
| RateLimiter.OnlyFirstPrefixRemoved | src/middlewares/rateLimiter.js:8 | `::ffff:::ffff:1` maps to `::ffff:1`: only the first occurrence is removed |
| Scenarios.LocalRoundTrip | src/tests/unit/localStorage.unit.test.js:16-40 | with an in-memory list that matches `files.json` and new keys: save returns the keys; get finds the record with its original name and the clock reading; remove returns true; a second get returns null; the stored file is gone |
| Scenarios.MockRoundTrip | src/tests/unit/googleStorage.unit.test.js:23-67 | on the mock: save returns the keys; get returns the `/tmp` copy, which holds the uploaded bytes; remove returns true; a second get returns null; the copy is gone |
| Scenarios.SweepThenSave | src/services/storage/localStorage.js:36-57 | a sweep writes `Keep`'s survivors, but a following `save` on an object loaded before the sweep writes back every record the sweep dropped, plus the new one |

## Left out

- `path.join` and `path.resolve` are modelled as `dir + "/" + name`. The model does not normalise `.`, `..` or doubled separators, and does not resolve relative paths.
- LocalStore.DataPathIsNotIndex: for the program, this holds only for original names without `/`. `path.join` normalises, so a name such as `x/../files.json` would put the upload on the index path. `renameSync` would then move the upload onto `files.json`, and the write-through would overwrite it. The upload middleware passes only base names, so no name has `/`. The model's `Join` does not normalise, so that case cannot arise in the model.
- LocalStore.LocalStorage.Save: for the same reason, "the stored path holds the upload's bytes" is the program's behaviour only for original names without `/`.
- Cleanup.CleanupOldFiles: the default `maxAgeDays = 7` is not modelled; the caller always passes the age. The `readFileSync` outside the `try`, which throws when the index exists but cannot be read, is not modelled either: an existing index is always readable.
- Directory creation (`mkdirSync` in the `LocalStorage` constructor) is left out: the filesystem map has no directories.
- Write failures, permission errors and cross-device renames are left out: every write succeeds, and a rename or copy fails only when its source is missing.
- The outcome of `unlinkSync` inside `try { } catch { }`, during `remove` and the sweep, is left out beyond "the path is gone afterwards": a swallowed failure is not modelled.
- Access times are a parameter of the sweep. The model does not capture the filesystem raising them as a side effect of reads.
- A `files.json` that parses as JSON but has no `files` array is left out. The code would throw at `meta.files`; the model has only well-formed documents and unparseable bytes.
- JavaScript strings are modelled as Dafny character sequences, so UTF-16 surrogate pairs are not distinguished. `\s` is the 25 characters JavaScript lists as whitespace and line terminators.
- Numbers are unbounded integers. Double-precision rounding of `Date.now()` arithmetic is left out.
- Key generation (`crypto.randomBytes` and `Math.random`) and the clock are parameters. Uniqueness and the absence of `_` in keys are stated as preconditions where a property needs them.
- GoogleStore.Configure: the configuration file is an object with three fields or unparseable. A document that parses to something else (such as `null`, which makes the property reads throw) is not modelled.
- The bucket mode's calls into the Google Cloud Storage SDK (upload, listing, metadata, download and delete) are foreign network calls. Only their naming convention is modelled.
- GoogleStore.GoogleStorage.Save: a copy onto the upload's own path is not given special treatment. The model's result is the unlink's: the file is gone.
- The cron schedule and the start-up run of `startCleanup`, the Express controllers and routes, and the `express-rate-limit` limiter objects (window, maximum and parsing of the limit settings) are framework wiring and are left out.
- Concurrency is left out: the code has no locking, and every call is modelled as atomic.
