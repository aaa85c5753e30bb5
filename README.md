# MonsterASP SFTP bridge — a Dafny model of its two decision cores

The repository moves a `.zpaq` backup from a MonsterASP host to Google Drive in two hops:

* `index.js` is an Express server whose `/run` handler connects to the host over SFTP, lists
  the root directory, keeps the entries whose name ends with `.zpaq`, sorts them newest first by
  `modifyTime`, downloads the first one to `/tmp/backups` and answers with JSON.
* `Code.js` is a Google Apps Script. `getMonsterBackup` fetches the metadata and the file
  from the bridge, stores the file in a Drive folder under a dated name, runs
  `cleanupOldBackups` and mails a report. `cleanupOldBackups` sorts every file in the folder
  newest first by creation date and trashes all but the first three.

The model has four modules:

* `JsString` (`jsstring.dfy`) holds the JavaScript string built-ins the code uses: `replace`
  with a string pattern (only the first occurrence is replaced) and `endsWith`. `IndexOf` is
  the leftmost-match search that `replace` performs.
* `StableSort` (`stablesort.dfy`) models `Array.prototype.sort` called with a comparator
  `(a, b) => key(b) - key(a)`. The ECMAScript Language Specification has required
  `Array.prototype.sort` to be stable since its 2019 edition. A stable sort's result is fixed:
  keys are non-increasing, and entries with equal keys keep their input order. `Sort` is that
  result, written as a function. `StableSortIsUnique` proves that every stable
  non-increasing reordering equals `Sort`, so the choice of sorting algorithm does not matter.
  `SortInPlace`, an insertion sort on an `array`, computes `Sort`. `DriveBackup` and
  `SftpBridge` both call it where the JavaScript calls `Array.prototype.sort`.
* `DriveBackup` (`drive_backup.dfy`) models `Code.js`. Drive files are objects: `setTrashed`
  changes the file itself, not just the array entry that points to it. So `DriveFile` is a class
  with a mutable `trashed` field, and `DriveFolder` holds the sequence of files its iterator
  yields. `CleanupOldBackups` follows `cleanupOldBackups`: it collects the files in a loop, sorts
  the array in place, then trashes the entries from index 3 on in a loop and counts them.
  `GetMonsterBackup` is the run order. The outcomes of the outside services are its input: the
  metadata fetch, the `/run` fetch with its status code, Drive's creation time and the
  delivery of the success mail. It records the steps it takes.
* `SftpBridge` (`sftp_bridge.dfy`) models the `/run` handler. The outcomes of `mkdirSync`,
  `connect`, `list`, `fastGet` and `end` are the input. `Run` returns the HTTP response and the
  sequence of calls it made.

Behaviour of the code worth noting:

* Ties on `modifyTime` go to the entry listed first, because the sort is stable.
* Drive retention counts every file in the folder, whatever its name or extension.
* After a successful `connect`, a failure leaves the SFTP connection open: `end` is called only
  after a successful download.
* When the success mail itself throws, the failure mail is sent, even though the backup is
  already stored and cleaned up.
* The two halves do not fit together as shown. `Code.js` fetches a `/meta` route and expects
  the backup's bytes from `/run`. `index.js` serves only `/` and `/run`, and `/run` answers
  with a JSON status, not the file. The model therefore treats the two halves independently:
  the outcomes `getMonsterBackup` sees (`BackupEnv`) and those the `/run` handler sees
  (`SftpEnv`) are unrelated inputs.

## Model

| member | source | states |
|---|---|---|
| `JsString.EndsWith` | index.js:30 | A string ends with a suffix exactly when it splits as some string followed by that suffix. |
| `JsString.IndexOf` | Code.js:23 | For a start position within the string, the result is -1 exactly when the pattern does not occur at or after `from`. Otherwise it is an occurrence with no earlier one. |
| `JsString.Replace` | Code.js:23 | A string without the pattern comes back unchanged. Otherwise only the leftmost occurrence is replaced. |
| `JsString.ReplaceBeforePattern` | Code.js:23 | Replacing the first `p` by `ins + p` is the same as inserting `ins` just before that occurrence. |
| `DriveBackup.TargetName` | Code.js:23 | A name without `.zpaq` is unchanged. Otherwise `_` + date is inserted just before the first `.zpaq`, and the rest of the name is kept. |
| `DriveBackup.TargetNameKeepsExtension` | Code.js:23 | A name ending in `.zpaq` still ends in `.zpaq` after the rewrite. It grows by exactly 1 + the length of the date. |
| `StableSort.SortNonIncreasing` | Code.js:75 | The sorted order is non-increasing by the key (newest first). |
| `StableSort.SortPermutation` | Code.js:75 | The sorted order is a permutation of the input (same multiset). |
| `StableSort.SortMembers` | Code.js:72-75 | The sorted array holds exactly the files that were collected. |
| `StableSort.SortDistinct` | Code.js:72-75 | Sorting a sequence without repeated entries gives one without repeated entries. |
| `StableSort.SortStable` | index.js:34 | For every key value, the entries with that key appear in the same relative order before and after the sort. |
| `StableSort.StableSortIsUnique` | index.js:34 | Any non-increasing, stable reordering of the input equals `Sort`. This holds for engine sorts too. |
| `StableSort.FirstMax` | index.js:34-35 | The reference selection: an index whose key is maximal, with every earlier index having a strictly smaller key. |
| `StableSort.SortHead` | index.js:34-35 | The first element after sorting is the first element, in input order, with the largest key. |
| `StableSort.SortInPlace` | index.js:34 | The array afterwards is `Sort` of its old contents. |
| `DriveBackup.DriveFile.SetName` | Code.js:31 | `setName` changes only the name. |
| `DriveBackup.DriveFile.SetTrashed` | Code.js:78 | `setTrashed` changes only the trashed flag. |
| `DriveBackup.DriveFolder.CreateFile` | Code.js:31 | A fresh, untrashed file with the given creation time is appended to what the folder yields. |
| `DriveBackup.CollectFiles` | Code.js:72-74 | The collected array holds exactly what the iterator yields, in order. No file is filtered out. |
| `DriveBackup.TrashFromKeep` | Code.js:76-81 | Every file at index 3 or later is trashed and counted. The count is `max(0, n - 3)`. Nothing else changes. |
| `DriveBackup.CleanupOldBackups` | Code.js:71-82 | It returns `max(0, n - 3)`. A file becomes trashed exactly when it is at sorted index 3 or later. Names and the folder's contents are unchanged. |
| `DriveBackup.RetentionCount` | Code.js:76-81 | `min(3, n)` files are kept and `max(0, n - 3)` are trashed. A folder of at most three files loses none. Kept followed by trashed is the sorted order. |
| `DriveBackup.TrashedNoNewerThanKept` | Code.js:75-79 | Every trashed file was created no later than every kept one. |
| `DriveBackup.NewerThanKeptIsKept` | Code.js:75-79 | A file created strictly later than some kept file is kept, not trashed. |
| `DriveBackup.KeptOrTrashed` | Code.js:72-79 | For every folder, kept and trashed together are exactly the folder's files, counted with repetition. |
| `DriveBackup.KeptNotTrashed` | Code.js:72-79 | When each file is yielded once, no file is both kept and trashed. |
| `DriveBackup.NewestFileIsKept` | Code.js:31-32 | A file created strictly after every other file in the folder is never trashed. |
| `DriveBackup.AddFile` | Code.js:31 | The folder gains exactly one fresh, untrashed file with the given name and creation time. The files already there keep their names and flags. |
| `DriveBackup.StoreBackup` | Code.js:29-60 | The new file is stored under the rewritten name, cleanup counts it, and the new state is the same as after `CleanupOldBackups`. The steps are store, cleanup and success mail, with the failure mail after it if the success mail throws. A file strictly newer than all the others survives the cleanup. |
| `DriveBackup.GetMonsterBackup` | Code.js:9-66 | A metadata failure, a fetch failure or a code other than 200 sends only the failure mail and leaves the folder untouched. Code 200 stores the file under the rewritten name, then cleans up with the new file counted, then mails `max(0, n + 1 - 3)`. If that mail fails, the failure mail follows. |
| `SftpBridge.Candidates` | index.js:30 | The candidates are exactly the listed entries whose name ends in `.zpaq`. |
| `SftpBridge.CandidatesAppend` | index.js:30 | The filter keeps listing order, because it distributes over concatenation. |
| `SftpBridge.RemotePath` | index.js:39 | The remote path is the remote directory `/`, one separator, then exactly the entry's name, which can be read back from it. |
| `SftpBridge.LocalPath` | index.js:36 | The local path is `/tmp/backups`, one separator, then exactly the entry's name, which can be read back from it. |
| `SftpBridge.PathsDetermineName` | index.js:36-39 | Different entry names give different remote and local paths, so the download fetches exactly the selected entry and stores it under its own name. |
| `SftpBridge.Latest` | index.js:30-35 | The chosen file is a listed `.zpaq` entry. No `.zpaq` entry has a later `modifyTime`. |
| `SftpBridge.LatestIsFirstOfTies` | index.js:34-35 | Among candidates that tie for the latest time, the one listed first is chosen. |
| `SftpBridge.SelectLatest` | index.js:34-35 | Sorting the candidates in place and taking index 0 gives the reference selection `FirstMax`. |
| `SftpBridge.Run` | index.js:12-51 | The answer is 200 exactly when every step succeeds and a candidate exists, with body `{status: "OK", file: latest.name, ...}`. Otherwise it is 500 with `status: "Error"` and the thrown message. An empty candidate list gives "Geen .zpaq-bestanden gevonden" and no download. `end` is called exactly when the download succeeded. |

## Left out

- `mailtest.js`: a single SMTP send with no logic.
- `wakeUpRender`: a network ping and a wall-clock measurement. It is never part of the outcome.
- `getOrCreateFolder`: a thin wrapper around Drive's folder lookup. The folder is a parameter.
- UrlFetchApp, MailApp, Logger, `Utilities.newBlob` and the text of the log and the mails are
  library I/O. Their results are inputs: a fetch either throws a message or answers with a code.
  A mail either goes through or throws. The success mail is modelled by the values it reports.
- The Drive calls `createFile`, `setName`, `getFiles` and `setTrashed` are assumed to succeed.
  An exception thrown by the failure mail itself, which would escape the script, is not modelled.
- Date handling: `new Date(meta.modified)` and `Utilities.formatDate` use time zones. The
  formatted date is an opaque input string, and creation and modification times are integers in
  milliseconds.
- `DriveBackup.TargetName`: the `$` replacement patterns of `String.prototype.replace` are not
  modelled. The formatted date (`yyyy-MM-dd_HH-mm`) contains only digits, `-` and `_`.
- Dafny's `string` is a sequence of Unicode scalar values; JavaScript strings are UTF-16 code
  units. With the ASCII pattern `.zpaq`, `endsWith` and `replace` give the same results either
  way, but surrogate pairs and lengths in code units are not modelled.
- `JsString.IndexOf`: start positions past the end of the string are not modelled. JavaScript
  clamps them to the length; the only use, inside `replace`, starts at 0.
- `SftpBridge.LocalPath`: the normalisation done by `path.join` is not modelled. SFTP directory
  entries are single path segments, and a name ending in `.zpaq` is neither `.` nor `..`.
- JavaScript number semantics in the comparators are not modelled. Subtracting two
  millisecond timestamps as doubles is exact. The `NaN` a missing time would produce is not
  modelled.
- The engine's sorting algorithm itself is not modelled. Only its result is, and
  `StableSort.StableSortIsUnique` shows that a stable sort has only one possible result.
- The order in which Drive's iterator yields files is an input. The model assumes the new file
  comes last, so it loses ties on creation time.
- Express routing, `app.listen`, the `/` endpoint, `console.error`, and the SFTP transport and
  credentials are not modelled. Each SFTP or file-system call is reduced to succeeding or
  throwing a message.
