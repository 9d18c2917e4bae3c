# verify-local-backup, modelled in Dafny

`verify-local-backup.py` audits a one-way backup mirror. It walks the
source tree `D:\` and skips every directory whose path contains a
blacklisted token (`$RECYCLE.BIN`). Each source file it keeps is mapped to
its expected mirror under `F:\`. Then it checks three things, in order:

1. the mirror exists;
2. both files have the same modification time;
3. both files hash alike. This check is made only when the mirror was
   modified after the previous run's checkpoint.

A problem is appended to a global error list. A progress percentage is
printed whenever its rounded value changes. When all files have been
checked, the time read at the start of the run is written to
`F:\backup-verification-timestamp` as the checkpoint for the next run.

The model is split into modules:

- `Text` (`text.dfy`): the Python string operations the script relies on.
  These are `in` on strings, `removeprefix` and `strip` with one character.
  Each is characterised by lemmas.
- `BackupPaths` (`paths.dfy`): the blacklist predicate, the gathering loop
  over a walk of the source tree (a method proved against a specification
  function), and the source-to-mirror path mapping.
- `World` (`world.dfy`): the machine, as a snapshot. It holds the
  directories, the files (modification time and bytes), the walk of each
  directory, a digest function, the clock and the checkpoint files. An
  `Env` object records every query the script makes in `log`, so the model
  can state which files are hashed and in what order things happen.
- `Verification` (`verify.dfy`):
  - reading and writing the checkpoint;
  - `verify_file`, as a method that appends to an `ErrorLog`;
  - the specification functions `Verdict` (the report a file gets) and
    `Queries` (the queries it causes), with lemmas about them.
- `Progress` (`progress.dfy`): `PctLogger` as a class whose fields are
  updated in place. The printed percentages strictly increase.
- `Controller` (`run.dfy`): the script's main sequence, as `Run` and its
  loop `ProcessPaths`, with lemmas about whole runs.

Four behaviours of the script worth knowing, all of which the model keeps:

- **Blacklisted directories are not pruned.** The walk still descends
  into them. Their subdirectories drop out only because the token still
  occurs in their paths (`PruningChangesNothing`). Each of those
  subdirectories also gets its own blacklist notice
  (`BlacklistNoticesMembers`).
- **Only the directory path is filtered.** A file whose own name contains
  a token, in a directory that passes, is still gathered
  (`CollectedPathsMembers`).
- **The checkpoint is written even when errors were reported.** So a
  corrupt mirror reported once is not hashed, nor reported, by the next
  run if its modification time is not later than the recorded checkpoint
  (`CorruptionReportedOnce`).
- **A file that cannot be read while hashing ends the script.** It is not
  recorded as a per-file error. The snapshot model has no failing reads,
  so this is not captured.

## Model

| member | source | states |
|---|---|---|
| Text.ContainsIff | verify-local-backup.py:41 | Python's `token in path` holds exactly when the token occurs as a contiguous run of the path |
| Text.ContainsExtended | verify-local-backup.py:41 | a token occurring in a string still occurs in any string that extends it on either side |
| Text.RemovePrefix | verify-local-backup.py:73 | `removeprefix` removes the root exactly when the path starts with it, and otherwise returns the path unchanged |
| Text.TrimLeftSpec | verify-local-backup.py:74 | left-stripping `\` keeps a suffix, removes only backslashes and stops at a character that is not one |
| Text.TrimRightSpec | verify-local-backup.py:74 | right-stripping `\` keeps a prefix, removes only backslashes and stops after the last character that is not one |
| Text.StripSpec | verify-local-backup.py:74 | `strip('\\')` leaves a core that neither starts nor ends with `\`, framed in the input by runs of `\` only |
| Text.StripUnique | verify-local-backup.py:74 | any such core is the result of `strip`: the two properties determine it |
| Text.StripPaddedLeft | verify-local-backup.py:74 | a leading backslash more does not change the stripped result |
| Text.StripPaddedRight | verify-local-backup.py:74 | a trailing backslash more does not change the stripped result |
| Text.StripUnpadded | verify-local-backup.py:74 | stripping a string that neither starts nor ends with `\` changes nothing |
| Text.StripIdempotent | verify-local-backup.py:74 | stripping twice is stripping once |
| BackupPaths.IsValidSourcePathIff | verify-local-backup.py:39-43 | a path is rejected exactly when some blacklist token occurs in it |
| BackupPaths.JoinSpec | verify-local-backup.py:109 | `os.path.join(root, file)` starts with the directory and ends with the file name; exactly one `\` is put between them, unless the directory is empty, already ends with a separator or is a bare drive such as `D:`, in which case none is |
| BackupPaths.GatherPaths | verify-local-backup.py:105-112 | the gathering loop collects the joined paths of the files of every walked directory that passes the blacklist, in walk order, and a notice for every directory that does not |
| BackupPaths.ContributionMembers | verify-local-backup.py:107-110 | one walked directory contributes exactly its files, and only when it passes the blacklist |
| BackupPaths.CollectedPathsMembers | verify-local-backup.py:105-112 | a path is gathered exactly when it joins a file to a walked directory that passes the blacklist |
| BackupPaths.BlacklistNoticesMembers | verify-local-backup.py:106-112 | a notice is printed for exactly the walked directories that fail the blacklist |
| BackupPaths.CollectedPathsAppend | verify-local-backup.py:105-110 | gathering keeps walk order: the paths of two consecutive stretches of the walk are those of the first followed by those of the second |
| BackupPaths.ExcludedSubtree | verify-local-backup.py:106-107 | a directory whose path extends a blacklisted one is itself blacklisted |
| BackupPaths.PruningChangesNothing | verify-local-backup.py:105-112 | a blacklisted directory and everything below it contribute no files: skipping them in the walk gathers the same paths |
| BackupPaths.DestPath | verify-local-backup.py:73-74 | the mirror path begins with the stripped destination root and a separator |
| BackupPaths.DestPathReroots | verify-local-backup.py:73-74 | a path under the source root is re-rooted unchanged under the stripped destination root |
| BackupPaths.DestPathOutsideRoot | verify-local-backup.py:73-74 | for a path that does not start with the source root, nothing is removed before stripping |
| BackupPaths.DestPathIgnoresTrailingDestSeparator | verify-local-backup.py:73-74 | for every source path, the mapping is the same whether or not the destination root ends with a separator |
| BackupPaths.DestPathIgnoresTrailingSourceSeparator | verify-local-backup.py:73-74 | for every file under the source root, the mapping is the same whether or not the source root ends with a separator |
| BackupPaths.DestPathIgnoresTrailingSeparator | verify-local-backup.py:73-74 | the mapping is the same whether or not the roots end with a separator |
| BackupPaths.DestPathInjective | verify-local-backup.py:73-74 | distinct files under the source root have distinct mirror paths |
| BackupPaths.DestRootStripped | verify-local-backup.py:74 | the configured destination root `F:\` strips to `F:` |
| BackupPaths.DestinationOfConfigured | verify-local-backup.py:73-74 | with the configured roots, `D:\<rel>` is mirrored at `F:\<rel>` |
| World.Env.GetFileHash | verify-local-backup.py:59-64 | the hash of a file is the digest of its contents, and the read is recorded |
| Verification.StoredCheckpoint | verify-local-backup.py:45-52 | the checkpoint is minus infinity exactly when the checkpoint file is absent, and otherwise the time the file holds |
| Verification.GetTimestamp | verify-local-backup.py:45-52 | reading the checkpoint yields the stored checkpoint; the file is read only if it exists |
| Verification.WriteTimestamp | verify-local-backup.py:54-57 | writing the checkpoint replaces the time in the checkpoint file of the directory and changes no other checkpoint |
| Verification.CheckpointRoundTrip | verify-local-backup.py:45-57 | a checkpoint written is what the next read yields, and checkpoints kept elsewhere are unaffected |
| Verification.NoCheckpointEverythingNewer | verify-local-backup.py:52 | with no checkpoint file every modification time counts as newer than the last run |
| Verification.GetFileHashes | verify-local-backup.py:66-69 | returns the digests of the source and of the mirror, hashing both |
| Verification.Verdict | verify-local-backup.py:71-93 | no report exactly when the mirror exists, the times agree and, if the mirror is newer than the checkpoint, the digests agree; a missing-mirror report exactly when the mirror is absent; a timestamp report exactly when both exist with different times; a hash report exactly when the hash gate is open and the digests differ |
| Verification.HashedIff | verify-local-backup.py:88-91 | a file is hashed while checking a source file exactly when both files exist, their times agree and the mirror is newer than the checkpoint, and then only that pair is hashed |
| Verification.MissingMirror | verify-local-backup.py:75-77 | a missing mirror gives exactly one missing-mirror report, and only its existence is queried: no time is read and nothing is hashed |
| Verification.TimestampMismatch | verify-local-backup.py:79-86 | differing times give exactly one timestamp report whatever the contents, and nothing is hashed |
| Verification.FaithfulCopyAccepted | verify-local-backup.py:75-93 | a mirror with the same time and bytes as its source is never reported |
| Verification.StaleMirrorNotHashed | verify-local-backup.py:88-93 | a mirror not modified after the checkpoint is not hashed, so changed bytes with an unchanged time go unreported |
| Verification.ErrorLog.Append | verify-local-backup.py:17 | the error list only grows at its end |
| Verification.VerifyFile | verify-local-backup.py:71-93 | appends exactly the verdict's report (at most one) for the file and its computed mirror, leaves earlier entries alone, and makes exactly the queries the decision needs |
| Verification.CompareWithMirror | verify-local-backup.py:75-93 | the three checks in order, stopping at the first that fails, for a given mirror path |
| Progress.PctMonotone | verify-local-backup.py:27-28 | the rounded percentage never decreases as more files are processed |
| Progress.PctBounds | verify-local-backup.py:28 | nothing processed is 0% and everything processed is exactly 100% |
| Progress.PctLogger.constructor | verify-local-backup.py:21-24 | starts with nothing processed and the last printed value -1 |
| Progress.PctLogger.ReportProgress | verify-local-backup.py:26-31 | adds the newly processed count, and prints the new percentage exactly when it differs from the last printed one; the printed percentages strictly increase and the last one is the current percentage |
| Controller.Run | verify-local-backup.py:95-128 | stops after the first root that is not a directory, without writing a checkpoint; otherwise reads the clock, then the old checkpoint, then walks, verifies every gathered path in order and writes the clock reading as the new checkpoint as the very last action; the reports are those of the gathered paths, every path is counted, and the last progress line reads 100% |
| Controller.ProcessPaths | verify-local-backup.py:114-120 | verifies the paths in order, reporting progress after each; the number processed is the number of paths |
| Controller.ErrorsOfBounded | verify-local-backup.py:117-120 | a run makes at most one report per path |
| Controller.ErrorsOfAppend | verify-local-backup.py:117-120 | reports appear in the order the paths are processed |
| Controller.ErrorsOfMembers | verify-local-backup.py:117-120 | every report comes from the verdict on one of the paths, and every problem found is reported |
| Controller.NoErrorsIff | verify-local-backup.py:122-126 | the run reports no errors exactly when every path passes all checks |
| Controller.HashedInRun | verify-local-backup.py:88-91 | during a run a file is hashed exactly when it belongs to the pair of some path whose hash gate is open |
| Controller.NoHashingForUnchangedMirrors | verify-local-backup.py:88-91 | when no mirror was modified after the checkpoint, a run hashes nothing |
| Controller.FirstRunHashesEveryMatchedPair | verify-local-backup.py:88-91 | with no checkpoint, every pair that exists with matching times is hashed |
| Controller.FirstRunReportsEveryCorruptCopy | verify-local-backup.py:88-93 | with no checkpoint, every mirror with the right time but different contents is reported |
| Controller.CorruptionReportedOnce | verify-local-backup.py:88-93 | after a run records its clock reading, a corrupt mirror whose time is not later is neither hashed nor reported again |
| Controller.ThreeFilesOneMissing | verify-local-backup.py:117-120 | three source files whose mirror holds faithful copies of the first two and lacks the third yield exactly one report: the missing mirror of the third |
| Controller.ConfiguredScenario | verify-local-backup.py:117-120 | with the configured roots, a tree `D:\a`, `D:\b`, `D:\c` mirrored by `F:\a` and `F:\b` only yields exactly one report, for `F:\c` |

## Left out

- Console output is not modelled: `print` calls, message texts and `time.strftime` rendering. A report is modelled by the data it prints (paths, times, digests). The text is not modelled, including the unmatched leading quote of the "Dest file not found" message.
- `exit()` in `check_dir` is not modelled as process termination. `Run` instead ends with a `NotADirectory` outcome and does nothing further.
- Timestamps are integers, not floats. The checkpoint file holds an integer, so the `str`/`float` conversion is not modelled. A checkpoint file whose contents do not parse, which makes `float` raise, is not modelled either.
- Progress.Pct: the percentage is an exact integer number of hundredths, rounded half up. Python's `round(x, 2)` rounds exact halves to even and works on the binary float, so the last digit can differ: `round(3.125, 2)` is `3.12`, while `Pct(1, 32)` is 313 hundredths.
- Progress.PctLogger.ReportProgress: it requires a positive total. The source would raise `ZeroDivisionError`, but the script never calls it with a total of zero.
- SHA-256 and the chunked read in `get_file_hash` are not modelled. The digest is an arbitrary function of a file's bytes.
- The two-worker `ThreadPoolExecutor` is not modelled. The two hashes of a pair are computed one after the other, source first.
- The filesystem is a snapshot that does not change during a run. Failing I/O is not modelled, nor are files that appear or vanish mid-run. `Run` therefore requires every gathered source path to exist.
- The checkpoint file is kept apart from the mirrored files. A source file named `D:\backup-verification-timestamp` would be compared against the checkpoint file; the model does not capture that.
- `os.walk` is not modelled. The walk of a directory is a given sequence of (directory, file names) entries, and its own traversal and error handling are taken as given.
- BackupPaths.JoinSpec: Join covers only `ntpath.join` with a plain file name as its second argument. Drive letters and absolute paths in that argument cannot come from a walk and are not modelled. A bare drive letter such as `D:` is modelled (ntpath gives `D:x`).
