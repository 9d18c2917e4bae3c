/** The checkpoint file and the decision taken for one source file: does its
    mirror exist, do the modification times agree, and, for a mirror
    modified since the last run, do the contents hash alike. */
module Verification {
  import opened Text
  import opened BackupPaths
  import opened World

  /** The name of the checkpoint file kept in the destination root. */
  const TimestampFilename: string := "backup-verification-timestamp"

  /** Where the checkpoint of `dir` is kept. */
  function StampPath(dir: string): string
  {
    Join(dir, TimestampFilename)
  }

  /** The checkpoint recorded for `dir`: minus infinity when there is no
      checkpoint file. */
  function StoredCheckpoint(stamps: map<string, int>, dir: string): (cp: Checkpoint)
    ensures cp.NegInf? <==> StampPath(dir) !in stamps
    ensures cp.At? ==> cp.time == stamps[StampPath(dir)]
  {
    var p := StampPath(dir);
    if p in stamps then At(stamps[p]) else NegInf
  }

  /** The queries made while reading the checkpoint of `dir`: its file is
      read only if it exists. */
  function StampQueries(stamps: map<string, int>, dir: string): seq<Event>
  {
    var p := StampPath(dir);
    [CheckedStamp(p)] + (if p in stamps then [ReadStamp(p)] else [])
  }

  /** Reads the checkpoint of `dir`. */
  method GetTimestamp(env: Env, dir: string) returns (cp: Checkpoint)
    modifies env`log
    ensures cp == StoredCheckpoint(env.stamps, dir)
    ensures env.log == old(env.log) + StampQueries(env.stamps, dir)
  {
    var timestampPath := StampPath(dir);
    var present := env.IsStamp(timestampPath);
    if present {
      var t := env.ReadStampFile(timestampPath);
      cp := At(t);
    } else {
      cp := NegInf;
    }
  }

  /** Records `t` as the checkpoint of `dir`, replacing any earlier one. */
  method WriteTimestamp(env: Env, dir: string, t: int)
    modifies env`stamps, env`log
    ensures env.stamps == old(env.stamps)[StampPath(dir) := t]
    ensures env.log == old(env.log) + [WroteStamp(StampPath(dir), t)]
  {
    var timestampPath := StampPath(dir);
    env.WriteStampFile(timestampPath, t);
  }

  /** A checkpoint written for `dir` is what the next read of it yields, and
      other directories whose checkpoint lives elsewhere keep theirs. */
  lemma CheckpointRoundTrip(stamps: map<string, int>, dir: string, t: int, other: string)
    requires StampPath(other) != StampPath(dir)
    ensures StoredCheckpoint(stamps[StampPath(dir) := t], dir) == At(t)
    ensures StoredCheckpoint(stamps[StampPath(dir) := t], other) == StoredCheckpoint(stamps, other)
  {
  }

  /** Without a checkpoint every time counts as newer than the last run. */
  lemma NoCheckpointEverythingNewer(stamps: map<string, int>, dir: string, t: int)
    requires StampPath(dir) !in stamps
    ensures NewerThan(t, StoredCheckpoint(stamps, dir))
  {
  }

  /** The digests of a source file and of its mirror, source first. */
  method GetFileHashes(env: Env, sourcePath: string, destPath: string)
    returns (sourceHash: string, destHash: string)
    requires sourcePath in env.files && destPath in env.files
    modifies env`log
    ensures sourceHash == env.digest(env.files[sourcePath].content)
    ensures destHash == env.digest(env.files[destPath].content)
    ensures env.log == old(env.log) + [Hashed(sourcePath), Hashed(destPath)]
  {
    sourceHash := env.GetFileHash(sourcePath);
    destHash := env.GetFileHash(destPath);
  }

  /** A problem found with one source file, carrying what the error message
      reports. */
  datatype Divergence =
    | DestFileNotFound(dest: string)
    | DifferingTimestamps(source: string, sourceTime: int, dest: string, destTime: int)
    | DifferingHashes(source: string, sourceHash: string, dest: string, destHash: string)

  /** Both files exist, their modification times agree and the mirror was
      modified after the last run: the only case in which contents are
      compared. */
  predicate HashGate(files: map<string, FileInfo>, src: string, dest: string, lastRun: Checkpoint)
  {
    && src in files && dest in files
    && files[src].mtime == files[dest].mtime
    && NewerThan(files[dest].mtime, lastRun)
  }

  /** The outcome of checking source file `src` against its mirror `dest`:
      the first check that fails, or nothing. */
  function Verdict(files: map<string, FileInfo>, digest: seq<bv8> -> string, src: string, dest: string, lastRun: Checkpoint)
    : (r: Option<Divergence>)
    requires src in files
    ensures r == None <==>
      && dest in files
      && files[src].mtime == files[dest].mtime
      && (NewerThan(files[src].mtime, lastRun) ==> digest(files[src].content) == digest(files[dest].content))
    ensures r.Some? && r.value.DestFileNotFound? <==> dest !in files
    ensures r.Some? && r.value.DifferingTimestamps? <==> dest in files && files[src].mtime != files[dest].mtime
    ensures r.Some? && r.value.DifferingHashes? <==>
      HashGate(files, src, dest, lastRun) && digest(files[src].content) != digest(files[dest].content)
    ensures r.Some? ==> r.value.dest == dest && (!r.value.DestFileNotFound? ==> r.value.source == src)
  {
    if dest !in files then Some(DestFileNotFound(dest))
    else if files[src].mtime != files[dest].mtime then
      Some(DifferingTimestamps(src, files[src].mtime, dest, files[dest].mtime))
    else if NewerThan(files[dest].mtime, lastRun) && digest(files[src].content) != digest(files[dest].content) then
      Some(DifferingHashes(src, digest(files[src].content), dest, digest(files[dest].content)))
    else None
  }

  /** The queries made while checking source file `src` against its mirror
      `dest`. */
  function Queries(files: map<string, FileInfo>, src: string, dest: string, lastRun: Checkpoint): seq<Event>
    requires src in files
  {
    if dest !in files then [CheckedFile(dest)]
    else if files[src].mtime != files[dest].mtime then [CheckedFile(dest), ReadMtime(src), ReadMtime(dest)]
    else if NewerThan(files[dest].mtime, lastRun) then
      [CheckedFile(dest), ReadMtime(src), ReadMtime(dest), Hashed(src), Hashed(dest)]
    else [CheckedFile(dest), ReadMtime(src), ReadMtime(dest)]
  }

  /** A file is hashed while checking `src` exactly when the hash gate is
      open, and then the files hashed are `src` and its mirror. */
  lemma HashedIff(files: map<string, FileInfo>, src: string, dest: string, lastRun: Checkpoint, q: string)
    requires src in files
    ensures Hashed(q) in Queries(files, src, dest, lastRun) <==>
      HashGate(files, src, dest, lastRun) && (q == src || q == dest)
  {
  }

  /** A missing mirror is reported once, and nothing but its existence is
      queried. */
  lemma MissingMirror(files: map<string, FileInfo>, digest: seq<bv8> -> string, src: string, dest: string, lastRun: Checkpoint)
    requires src in files && dest !in files
    ensures Verdict(files, digest, src, dest, lastRun) == Some(DestFileNotFound(dest))
    ensures Queries(files, src, dest, lastRun) == [CheckedFile(dest)]
  {
  }

  /** Differing modification times are reported whatever the contents, and
      no file is hashed. */
  lemma TimestampMismatch(files: map<string, FileInfo>, digest: seq<bv8> -> string, src: string, dest: string, lastRun: Checkpoint)
    requires src in files && dest in files && files[src].mtime != files[dest].mtime
    ensures Verdict(files, digest, src, dest, lastRun)
      == Some(DifferingTimestamps(src, files[src].mtime, dest, files[dest].mtime))
    ensures forall q :: Hashed(q) !in Queries(files, src, dest, lastRun)
  {
  }

  /** A faithful copy (same modification time, same bytes) is never
      reported. */
  lemma FaithfulCopyAccepted(files: map<string, FileInfo>, digest: seq<bv8> -> string, src: string, dest: string, lastRun: Checkpoint)
    requires src in files && dest in files && files[dest] == files[src]
    ensures Verdict(files, digest, src, dest, lastRun) == None
  {
  }

  /** A mirror not modified since the last run is not hashed, so a change
      of its bytes that kept its modification time goes unreported. */
  lemma StaleMirrorNotHashed(files: map<string, FileInfo>, digest: seq<bv8> -> string, src: string, dest: string, t: int)
    requires src in files && dest in files && files[src].mtime == files[dest].mtime <= t
    ensures Verdict(files, digest, src, dest, At(t)) == None
    ensures forall q :: Hashed(q) !in Queries(files, src, dest, At(t))
  {
  }

  /** The list of error reports, appended to and never rewritten. */
  class ErrorLog {
    var entries: seq<Divergence>

    constructor ()
      ensures entries == []
    {
      entries := [];
    }

    method Append(d: Divergence)
      modifies this
      ensures entries == old(entries) + [d]
    {
      entries := entries + [d];
    }
  }

  /** The option as a sequence of at most one element. */
  function AsSeq<T>(o: Option<T>): seq<T>
  {
    if o.Some? then [o.value] else []
  }

  /** Checks one source file against its mirror, appending at most one
      report. */
  method VerifyFile(env: Env, errors: ErrorLog, sourcePath: string, lastRunTimestamp: Checkpoint)
    requires sourcePath in env.files
    modifies env`log, errors
    ensures errors.entries == old(errors.entries)
      + AsSeq(Verdict(env.files, env.digest, sourcePath, DestinationOf(sourcePath), lastRunTimestamp))
    ensures env.log == old(env.log) + Queries(env.files, sourcePath, DestinationOf(sourcePath), lastRunTimestamp)
  {
    var destPath := DestinationOf(sourcePath);
    CompareWithMirror(env, errors, sourcePath, destPath, lastRunTimestamp);
  }

  /** The three checks of a source file against its mirror `destPath`, in
      order, stopping at the first that fails. */
  method CompareWithMirror(env: Env, errors: ErrorLog, sourcePath: string, destPath: string, lastRunTimestamp: Checkpoint)
    requires sourcePath in env.files
    modifies env`log, errors
    ensures errors.entries == old(errors.entries) + AsSeq(Verdict(env.files, env.digest, sourcePath, destPath, lastRunTimestamp))
    ensures env.log == old(env.log) + Queries(env.files, sourcePath, destPath, lastRunTimestamp)
  {
    var destExists := env.IsFile(destPath);
    if !destExists {
      errors.Append(DestFileNotFound(destPath));
      return;
    }

    var sourceTimestamp := env.GetMtime(sourcePath);
    var destTimestamp := env.GetMtime(destPath);
    if sourceTimestamp != destTimestamp {
      errors.Append(DifferingTimestamps(sourcePath, sourceTimestamp, destPath, destTimestamp));
      return;
    }

    if NewerThan(destTimestamp, lastRunTimestamp) {
      var sourceHash, destHash := GetFileHashes(env, sourcePath, destPath);
      if sourceHash != destHash {
        errors.Append(DifferingHashes(sourcePath, sourceHash, destPath, destHash));
      }
    }
  }
}
