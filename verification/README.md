# ArchiveVerifier decision logic in Dafny

ArchiveVerifier tests every archive under a directory with an external 7-Zip
tester and keeps one JSON record store per directory. Each record maps a file
path to `{result, timestamp}`. The tester and the file I/O wrap a small core
of pure decisions, and this project models that core:

- **Candidate classification.** A directory entry is scanned when its
  lower-cased suffix is `.zip`, `.7z`, `.001` or `.rar`, or `.exe` when
  executables are enabled. A `.rar` entry is kept only if it is the first
  volume of a `partN.rar` series. The part number is the digit group of the
  regular expression `part(\d+)\.rar$`. It is read with its leading zeros
  stripped, and an empty remainder counts as zero
  (`classifier.dfy`, `text.dfy`).
- **Reconciliation** (`merge_file_records`). The previous records are merged
  with a fresh path-to-mtime scan. The result is listed in path order
  (`reconciler.dfy`, `path_order.dfy`, `records.dfy`).
- **Verdict application.** This is the block of `process_file` that turns
  the tester's exit status and transcript into a stored result
  (`verdict.dfy`).
- **Pending selection.** These are the unchecked paths of the merged store
  that still exist on disk, in store order (`pending.dfy`).

Path order is Python's `str` order: lexicographic by code point, with a
proper prefix sorting first. It is defined as `PathOrder.Less` and proved
irreflexive, transitive and total. Sorting is modelled as repeated selection
of the least remaining path.

Three behaviours of the code are easy to miss, and the model follows them:

- `merge_file_records` drops an already-`deleted` record whose file is still
  absent (`ArchiveVerifier.py:139-145`). So a second merge against the same
  scan removes the tombstones that the first merge created. A store is
  therefore not stable after one re-run, only after two (`Reconciler.ReMerge`,
  `Reconciler.ReMergeStable`).
- `merge_file_records` resets a record to `unchecked` only when the mtime
  differs, and that holds for a `deleted` record too
  (`ArchiveVerifier.py:146-153`). A file that reappears with its old mtime
  stays `deleted`, and it is not selected again while its mtime stays the
  same (`Reconciler.TombstoneWithSameMtimeStays`).
- `process_file` wraps its load-modify-save in `with threading.Lock():`,
  which creates a fresh lock on every call (`ArchiveVerifier.py:204`), so
  there is no mutual exclusion. The model claims nothing about concurrent
  updates. `Verdict.ApplyCommutes` states only that two verdict applications
  for different paths, run one after the other, commute.

## Model

| member | source | states |
|---|---|---|
| PathOrder.Less | ArchiveVerifier.py:168 | the character-by-character comparison agrees with the textbook lexicographic order: a proper prefix first, otherwise the smaller character at the first difference (with `LessIrreflexive`, `LessTransitive` and `LessTotal` making it a strict total order) |
| Text.ParseDigitsIsValue | ArchiveVerifier.py:116 | stripping leading zeros and reading an empty remainder as "0" gives the ordinary decimal value of the digit group |
| Text.ParseDigitsIsOne | ArchiveVerifier.py:116 | the parsed part number is 1 exactly when the digit group is "1" after its leading zeros are removed |
| Classifier.VolumeDigits | ArchiveVerifier.py:115 | a digit group found by the matcher is a match of `part(\d+)\.rar$`: the name ends with part + digits + .rar, or with that followed by one newline, which `$` also allows |
| Classifier.VolumeDigitsComplete | ArchiveVerifier.py:115 | every match of the regular expression is the one the matcher reports, so the digit group is unique |
| Classifier.IsFirstVolume | ArchiveVerifier.py:112-117 | a lower-cased name without a `part(\d+)\.rar$` match is a first volume; one with a match is a first volume exactly when its digit group is "1" after leading zeros are stripped |
| Classifier.IsFirstVolumeMeaning | ArchiveVerifier.py:112-117 | a name is a first volume exactly when every part number the search finds in its lower-cased form is 1 up to leading zeros; a name with no part number is a first volume |
| Classifier.FirstVolumeOfPart | ArchiveVerifier.py:112-117 | for a name that matches with digit group d, being a first volume is equivalent to d stripping to "1" |
| Classifier.FirstVolumeOfPartName | ArchiveVerifier.py:112-117 | a lower-case name prefix + part + d + .rar is a first volume exactly when d strips to "1" |
| Classifier.FirstVolumeIgnoresCase | ArchiveVerifier.py:114 | names that agree after lower-casing get the same volume decision |
| Classifier.PartOneIsFirstVolume | ArchiveVerifier.py:112-117 | part1, part01 and part001 are first volumes |
| Classifier.OtherPartsAreNotFirstVolumes | ArchiveVerifier.py:112-117 | part2, part02 and part0 are not first volumes |
| Classifier.IsCandidate | ArchiveVerifier.py:121-128 | an entry is accepted iff its lower-cased suffix is .zip, .7z or .001, or .exe with executables enabled, or .rar and the name is a first volume |
| Classifier.VolumeTestOnlyForRar | ArchiveVerifier.py:126-127 | for a suffix other than .rar, the file name has no influence on acceptance |
| Classifier.Scan | ArchiveVerifier.py:124-131 | the scan snapshot holds exactly the paths of accepted entries |
| Classifier.ScanKeepsLastMtime | ArchiveVerifier.py:129-130 | when several accepted entries resolve to one path, the snapshot keeps the mtime of the last one walked |
| Reconciler.Merge | ArchiveVerifier.py:133-168 | merged keys are the scanned paths plus the non-deleted previous paths; a vanished path becomes deleted with its old timestamp; a new path is unchecked at the scanned mtime; a changed mtime resets to unchecked whatever the prior result; an equal mtime keeps the record, a deleted one included |
| Reconciler.MergeFileRecords | ArchiveVerifier.py:133-168 | the two passes of `merge_file_records` followed by the sort give items in strictly increasing path order (so no duplicate path) whose mapping is exactly the merge |
| Reconciler.MergeExisting | ArchiveVerifier.py:138-153 | the first pass adds no path of its own, and leaves each previous path with the record the per-path merge policy gives it (a tombstone, a reset, the same record, or nothing) |
| Reconciler.AddScanned | ArchiveVerifier.py:160-166 | the second pass leaves only previous or scanned paths, and every such path ends with its merge-policy record: a scanned path the first pass did not keep becomes unchecked at its mtime |
| Reconciler.SortByPath | ArchiveVerifier.py:168 | sorting lists every record of the store once, in strictly increasing path order |
| Reconciler.TombstoneOfAbsentFileDropped | ArchiveVerifier.py:139-145 | an already-deleted record whose file is still absent is omitted from the merged store |
| Reconciler.TombstoneWithSameMtimeStays | ArchiveVerifier.py:146-153 | a deleted record whose file reappears with the same mtime stays deleted |
| Reconciler.ReMerge | ArchiveVerifier.py:138-168 | merging again against the same scan keeps every scanned path's record, each at the scanned mtime, and leaves exactly the scanned paths |
| Reconciler.MergeOfAgreeingStore | ArchiveVerifier.py:146-153 | a store whose paths and timestamps agree with the scan is left unchanged by a merge |
| Reconciler.ReMergeStable | ArchiveVerifier.py:138-168 | from the second merge on, merging against an unchanged scan changes nothing |
| Verdict.IsEncrypted | ArchiveVerifier.py:200-201 | the transcript counts as encrypted exactly when its lower-cased form contains "password" or "encrypted" (see also `ExitZeroWinsOverKeywords` and `KeywordsIgnoreCase`) |
| Verdict.Classify | ArchiveVerifier.py:211-221 | exit status 0 gives success; otherwise a keyword gives encrypted; otherwise failure when the termination flag is clear; the verdict is absent (record untouched) exactly when the exit status is non-zero, no keyword occurs and the flag is set |
| Verdict.ApplyVerdict | ArchiveVerifier.py:200-223 | exit 0 gives success; otherwise a keyword gives encrypted even with the termination flag set; otherwise failure without the flag and no change with it; the timestamp is kept; a missing or deleted record and every other path are left as they were |
| Verdict.ExitZeroWinsOverKeywords | ArchiveVerifier.py:200-212 | a transcript containing "password" counts as encrypted, yet exit status 0 still records success |
| Verdict.KeywordsIgnoreCase | ArchiveVerifier.py:200-201 | "PASSWORD" and "Encrypted" in the transcript are detected as keywords |
| Verdict.ApplyWritesOnlyVerdicts | ArchiveVerifier.py:208-223 | a record either keeps its value or was not deleted and now holds success, encrypted or failure |
| Verdict.ApplyIdempotent | ArchiveVerifier.py:208-223 | applying the same outcome a second time changes nothing |
| Verdict.ApplyCommutes | ArchiveVerifier.py:208-223 | outcomes for two different paths, applied one after the other, give the same store in either order |
| Pending.PendingPaths | ArchiveVerifier.py:271-275 | a path is selected iff some store item for it is unchecked and the path exists on disk; for a sorted store the selection is strictly increasing, so it follows store order |
| Pending.PendingAfterMerge | ArchiveVerifier.py:262-275 | after reconciliation a path is pending iff it was scanned, exists, and is new, changed, or was unchecked and unchanged; vanished paths are never pending |
| Pending.VerifiedFileNotPendingAgain | ArchiveVerifier.py:133-168 | after any store is merged with a scan and a live file's test produces a verdict, merging again with the same scan does not select that file (verdict written at lines 210-223, selection at 271-275) |

## Left out

- Message tables, language detection and printing (`ArchiveVerifier.py:14-85`) are presentation only. The "new file" and "file deleted" messages of the merge are not modelled.
- Argument parsing, `main` and `verify_7z_availability` are command-line plumbing and a filesystem existence check.
- Running 7-Zip, the signal handler and the process registry are process control and signal-driven concurrency. The exit status, transcript and termination flag are plain inputs to `Verdict.ApplyVerdict`.
- The thread pool and its dispatch loop are left out because their subject is concurrency. The fresh per-call lock provides no mutual exclusion, so no property of interleaved load-modify-save cycles is claimed.
- JSON loading and dumping, the temporary-file name and the atomicity of `os.replace` are file I/O. The guarantee belongs to the operating system. The error branch of `process_file` leaves the store untouched and is not modelled separately.
- `get_dir_hash` is an MD5 digest from a library.
- The directory walk, `stat`, `Path.resolve` and `Path.suffix` are filesystem access. Entries arrive as given strings (`Classifier.Entry`), and whether a path exists is the parameter `onDisk` of `Pending.PendingPaths`.
- Classifier.IsFirstVolume: only ASCII letters are lower-cased and only ASCII digits count as digits. Python's `str.lower` is full Unicode, and `\d` and `int` also accept other Unicode decimal digits.
- Verdict.IsEncrypted: lower-casing is ASCII only. For this test that is exact, because the only non-ASCII characters that Python lower-cases to ASCII letters produce `i` and `k`, and neither keyword contains those letters.
- The store's `result` values are the five the program writes. A store file holding any other string is not modelled.
