/** The script's main sequence: check both roots, read the clock and the
    previous checkpoint, gather the source paths, verify each one while
    reporting progress, and record the new checkpoint. */
module Controller {
  import opened Text
  import opened BackupPaths
  import opened World
  import opened Progress
  import opened Verification

  /** Every path names an existing file. */
  predicate AllExist(paths: seq<string>, files: map<string, FileInfo>)
  {
    forall i :: 0 <= i < |paths| ==> paths[i] in files
  }

  /** The reports of verifying `paths` in order against a last run. */
  function ErrorsOf(files: map<string, FileInfo>, digest: seq<bv8> -> string, paths: seq<string>, lastRun: Checkpoint)
    : seq<Divergence>
    requires AllExist(paths, files)
  {
    if paths == [] then []
    else
      var src := paths[|paths| - 1];
      ErrorsOf(files, digest, paths[..|paths| - 1], lastRun) + AsSeq(Verdict(files, digest, src, DestinationOf(src), lastRun))
  }

  /** The queries made while verifying `paths` in order against a last run. */
  function QueriesOf(files: map<string, FileInfo>, paths: seq<string>, lastRun: Checkpoint): seq<Event>
    requires AllExist(paths, files)
  {
    if paths == [] then []
    else
      var src := paths[|paths| - 1];
      QueriesOf(files, paths[..|paths| - 1], lastRun) + Queries(files, src, DestinationOf(src), lastRun)
  }

  /** Verifying one more path adds its report and its queries at the end. */
  lemma PrefixStep(files: map<string, FileInfo>, digest: seq<bv8> -> string, paths: seq<string>, i: int, lastRun: Checkpoint)
    requires AllExist(paths, files) && 0 <= i < |paths|
    ensures AllExist(paths[..i + 1], files)
    ensures ErrorsOf(files, digest, paths[..i + 1], lastRun)
      == ErrorsOf(files, digest, paths[..i], lastRun) + AsSeq(Verdict(files, digest, paths[i], DestinationOf(paths[i]), lastRun))
    ensures QueriesOf(files, paths[..i + 1], lastRun)
      == QueriesOf(files, paths[..i], lastRun) + Queries(files, paths[i], DestinationOf(paths[i]), lastRun)
  {
    assert paths[..i + 1][..i] == paths[..i];
  }

  /** The processing loop's invariant on the log and the reports is kept
      by verifying one more path. */
  lemma LoopStep(files: map<string, FileInfo>, digest: seq<bv8> -> string, paths: seq<string>, i: int, lastRun: Checkpoint,
                 log0: seq<Event>, log: seq<Event>, reports: seq<Divergence>)
    requires AllExist(paths, files) && 0 <= i < |paths|
    requires log == log0 + QueriesOf(files, paths[..i], lastRun) + Queries(files, paths[i], DestinationOf(paths[i]), lastRun)
    requires reports == ErrorsOf(files, digest, paths[..i], lastRun) + AsSeq(Verdict(files, digest, paths[i], DestinationOf(paths[i]), lastRun))
    ensures AllExist(paths[..i + 1], files)
    ensures log == log0 + QueriesOf(files, paths[..i + 1], lastRun)
    ensures reports == ErrorsOf(files, digest, paths[..i + 1], lastRun)
  {
    PrefixStep(files, digest, paths, i, lastRun);
    AppendAssociative(log0, QueriesOf(files, paths[..i], lastRun), Queries(files, paths[i], DestinationOf(paths[i]), lastRun));
  }

  /** How a run ends: stopped because a root is not a directory, or after
      all paths were verified, with the blacklist notices, the error reports,
      the progress percentages printed (in hundredths) and the number of
      paths processed. */
  datatype RunOutcome =
    | NotADirectory(path: string)
    | Completed(notices: seq<string>, errors: seq<Divergence>, progress: seq<int>, processed: nat)

  /** The whole script. The walk and the file table describe one machine:
      every gathered source path is an existing file. */
  method Run(env: Env) returns (outcome: RunOutcome)
    requires AllExist(CollectedPaths(WalkOf(env.walks, SourceRoot), BlacklistTokens), env.files)
    modifies env`log, env`stamps
    ensures SourceRoot !in env.dirs ==>
      && outcome == NotADirectory(SourceRoot)
      && env.log == old(env.log) + [CheckedDir(SourceRoot)]
      && env.stamps == old(env.stamps)
    ensures SourceRoot in env.dirs && DestRoot !in env.dirs ==>
      && outcome == NotADirectory(DestRoot)
      && env.log == old(env.log) + [CheckedDir(SourceRoot)] + [CheckedDir(DestRoot)]
      && env.stamps == old(env.stamps)
    ensures SourceRoot in env.dirs && DestRoot in env.dirs ==>
      var walk := WalkOf(env.walks, SourceRoot);
      var paths := CollectedPaths(walk, BlacklistTokens);
      var lastRun := StoredCheckpoint(old(env.stamps), DestRoot);
      && outcome.Completed?
      && outcome.notices == BlacklistNotices(walk, BlacklistTokens)
      && outcome.errors == ErrorsOf(env.files, env.digest, paths, lastRun)
      && outcome.processed == |paths|
      && StrictlyIncreasing(outcome.progress)
      && (outcome.progress == [] <==> paths == [])
      && (paths != [] ==> outcome.progress[|outcome.progress| - 1] == 10000)
      && env.log == old(env.log) + [CheckedDir(SourceRoot)] + [CheckedDir(DestRoot)] + [ReadClock]
        + StampQueries(old(env.stamps), DestRoot) + [Walked(SourceRoot)]
        + QueriesOf(env.files, paths, lastRun) + [WroteStamp(StampPath(DestRoot), env.clock)]
      && env.stamps == old(env.stamps)[StampPath(DestRoot) := env.clock]
  {
    var isDir := env.IsDir(SourceRoot);
    if !isDir {
      return NotADirectory(SourceRoot);
    }
    isDir := env.IsDir(DestRoot);
    if !isDir {
      return NotADirectory(DestRoot);
    }

    var currRunTimestamp := env.Time();
    var lastRunTimestamp := GetTimestamp(env, DestRoot);

    var walk := env.Walk(SourceRoot);
    var sourcePaths, notices := GatherPaths(walk, BlacklistTokens);

    var errors, progress, processed := ProcessPaths(env, sourcePaths, lastRunTimestamp);
    WriteTimestamp(env, DestRoot, currRunTimestamp);
    outcome := Completed(notices, errors, progress, processed);
  }

  /** The processing loop: verifies every path in order, reporting progress
      after each, and returns the error reports, the percentages printed and
      the number of paths processed. */
  method ProcessPaths(env: Env, sourcePaths: seq<string>, lastRunTimestamp: Checkpoint)
    returns (reports: seq<Divergence>, progress: seq<int>, processed: nat)
    requires AllExist(sourcePaths, env.files)
    modifies env`log
    ensures reports == ErrorsOf(env.files, env.digest, sourcePaths, lastRunTimestamp)
    ensures env.log == old(env.log) + QueriesOf(env.files, sourcePaths, lastRunTimestamp)
    ensures processed == |sourcePaths|
    ensures StrictlyIncreasing(progress)
    ensures progress == [] <==> sourcePaths == []
    ensures sourcePaths != [] ==> progress[|progress| - 1] == 10000
  {
    var errors := new ErrorLog();
    var pctLogger := new PctLogger(|sourcePaths|);
    for i := 0 to |sourcePaths|
      invariant AllExist(sourcePaths[..i], env.files)
      invariant errors.entries == ErrorsOf(env.files, env.digest, sourcePaths[..i], lastRunTimestamp)
      invariant env.log == old(env.log) + QueriesOf(env.files, sourcePaths[..i], lastRunTimestamp)
      invariant pctLogger.Valid() && pctLogger.numTotal == |sourcePaths| && pctLogger.numProcessed == i
    {
      VerifyFile(env, errors, sourcePaths[i], lastRunTimestamp);
      pctLogger.ReportProgress(1);
      LoopStep(env.files, env.digest, sourcePaths, i, lastRunTimestamp, old(env.log), env.log, errors.entries);
    }
    assert sourcePaths[..|sourcePaths|] == sourcePaths;
    if sourcePaths != [] {
      PctBounds(|sourcePaths|);
    }
    reports, progress, processed := errors.entries, pctLogger.printed, pctLogger.numProcessed;
  }

  /** Each verified path adds at most one report. */
  lemma {:induction false} ErrorsOfBounded(files: map<string, FileInfo>, digest: seq<bv8> -> string, paths: seq<string>, lastRun: Checkpoint)
    requires AllExist(paths, files)
    ensures |ErrorsOf(files, digest, paths, lastRun)| <= |paths|
  {
    if paths != [] {
      ErrorsOfBounded(files, digest, paths[..|paths| - 1], lastRun);
    }
  }

  /** Reports keep the order of the paths: verifying two runs of paths one
      after the other yields the reports of the first, then those of the
      second. */
  lemma {:induction false} ErrorsOfAppend(files: map<string, FileInfo>, digest: seq<bv8> -> string,
                                          p1: seq<string>, p2: seq<string>, lastRun: Checkpoint)
    requires AllExist(p1, files) && AllExist(p2, files)
    ensures AllExist(p1 + p2, files)
    ensures ErrorsOf(files, digest, p1 + p2, lastRun) == ErrorsOf(files, digest, p1, lastRun) + ErrorsOf(files, digest, p2, lastRun)
  {
    var p := p1 + p2;
    assert AllExist(p, files) by {
      forall i | 0 <= i < |p| ensures p[i] in files {
        if i >= |p1| {
          assert p[i] == p2[i - |p1|];
        }
      }
    }
    if p2 == [] {
      assert p == p1;
    } else {
      var init, last := p2[..|p2| - 1], p2[|p2| - 1];
      assert p[..|p| - 1] == p1 + init;
      assert p[|p| - 1] == last;
      ErrorsOfAppend(files, digest, p1, init, lastRun);
      AppendAssociative(ErrorsOf(files, digest, p1, lastRun), ErrorsOf(files, digest, init, lastRun),
        AsSeq(Verdict(files, digest, last, DestinationOf(last), lastRun)));
    }
  }

  /** Every report comes from the verdict on one of the paths, and every
      verdict that finds a problem is reported. */
  lemma {:induction false} ErrorsOfMembers(files: map<string, FileInfo>, digest: seq<bv8> -> string,
                                           paths: seq<string>, lastRun: Checkpoint, d: Divergence)
    requires AllExist(paths, files)
    ensures d in ErrorsOf(files, digest, paths, lastRun) <==>
      exists i :: 0 <= i < |paths| && Verdict(files, digest, paths[i], DestinationOf(paths[i]), lastRun) == Some(d)
  {
    if paths != [] {
      var init := paths[..|paths| - 1];
      ErrorsOfMembers(files, digest, init, lastRun, d);
      if d in ErrorsOf(files, digest, init, lastRun) {
        var i :| 0 <= i < |init| && Verdict(files, digest, init[i], DestinationOf(init[i]), lastRun) == Some(d);
        assert paths[i] == init[i];
      }
      if exists i :: 0 <= i < |paths| && Verdict(files, digest, paths[i], DestinationOf(paths[i]), lastRun) == Some(d) {
        var i :| 0 <= i < |paths| && Verdict(files, digest, paths[i], DestinationOf(paths[i]), lastRun) == Some(d);
        if i < |paths| - 1 {
          assert init[i] == paths[i];
        }
      }
    }
  }

  /** A run reports nothing exactly when every path passes all checks. */
  lemma NoErrorsIff(files: map<string, FileInfo>, digest: seq<bv8> -> string, paths: seq<string>, lastRun: Checkpoint)
    requires AllExist(paths, files)
    ensures ErrorsOf(files, digest, paths, lastRun) == [] <==>
      forall i :: 0 <= i < |paths| ==> Verdict(files, digest, paths[i], DestinationOf(paths[i]), lastRun) == None
  {
    var errs := ErrorsOf(files, digest, paths, lastRun);
    if errs != [] {
      ErrorsOfMembers(files, digest, paths, lastRun, errs[0]);
    }
    if i :| 0 <= i < |paths| && Verdict(files, digest, paths[i], DestinationOf(paths[i]), lastRun) != None {
      var d := Verdict(files, digest, paths[i], DestinationOf(paths[i]), lastRun).value;
      ErrorsOfMembers(files, digest, paths, lastRun, d);
    }
  }

  /** During a run a file is hashed exactly when it is one of the pair of
      some path whose hash gate is open. */
  lemma {:induction false} HashedInRun(files: map<string, FileInfo>, paths: seq<string>, lastRun: Checkpoint, q: string)
    requires AllExist(paths, files)
    ensures Hashed(q) in QueriesOf(files, paths, lastRun) <==>
      exists i :: 0 <= i < |paths| && HashGate(files, paths[i], DestinationOf(paths[i]), lastRun)
        && (q == paths[i] || q == DestinationOf(paths[i]))
  {
    if paths != [] {
      var init, last := paths[..|paths| - 1], paths[|paths| - 1];
      HashedInRun(files, init, lastRun, q);
      HashedIff(files, last, DestinationOf(last), lastRun, q);
      if Hashed(q) in QueriesOf(files, init, lastRun) {
        var i :| 0 <= i < |init| && HashGate(files, init[i], DestinationOf(init[i]), lastRun)
          && (q == init[i] || q == DestinationOf(init[i]));
        assert paths[i] == init[i];
      }
      if exists i :: 0 <= i < |paths| && HashGate(files, paths[i], DestinationOf(paths[i]), lastRun)
          && (q == paths[i] || q == DestinationOf(paths[i]))
      {
        var i :| 0 <= i < |paths| && HashGate(files, paths[i], DestinationOf(paths[i]), lastRun)
          && (q == paths[i] || q == DestinationOf(paths[i]));
        if i < |paths| - 1 {
          assert init[i] == paths[i];
        }
      }
    }
  }

  /** When no mirror was modified after the checkpoint, a run hashes
      nothing. */
  lemma NoHashingForUnchangedMirrors(files: map<string, FileInfo>, paths: seq<string>, t: int, q: string)
    requires AllExist(paths, files)
    requires forall i :: 0 <= i < |paths| && DestinationOf(paths[i]) in files ==> files[DestinationOf(paths[i])].mtime <= t
    ensures Hashed(q) !in QueriesOf(files, paths, At(t))
  {
    HashedInRun(files, paths, At(t), q);
  }

  /** Without a checkpoint, every path whose mirror exists with the same
      modification time has both files hashed. */
  lemma FirstRunHashesEveryMatchedPair(files: map<string, FileInfo>, paths: seq<string>, i: int)
    requires AllExist(paths, files) && 0 <= i < |paths|
    requires DestinationOf(paths[i]) in files && files[DestinationOf(paths[i])].mtime == files[paths[i]].mtime
    ensures Hashed(paths[i]) in QueriesOf(files, paths, NegInf)
    ensures Hashed(DestinationOf(paths[i])) in QueriesOf(files, paths, NegInf)
  {
    HashedInRun(files, paths, NegInf, paths[i]);
    HashedInRun(files, paths, NegInf, DestinationOf(paths[i]));
  }

  /** Without a checkpoint, every mirror with the right modification time
      but different contents is reported. */
  lemma FirstRunReportsEveryCorruptCopy(files: map<string, FileInfo>, digest: seq<bv8> -> string, paths: seq<string>, i: int)
    requires AllExist(paths, files) && 0 <= i < |paths|
    requires DestinationOf(paths[i]) in files && files[DestinationOf(paths[i])].mtime == files[paths[i]].mtime
    requires digest(files[paths[i]].content) != digest(files[DestinationOf(paths[i])].content)
    ensures DifferingHashes(paths[i], digest(files[paths[i]].content),
      DestinationOf(paths[i]), digest(files[DestinationOf(paths[i])].content)) in ErrorsOf(files, digest, paths, NegInf)
  {
    var src := paths[i];
    var dest := DestinationOf(src);
    ErrorsOfMembers(files, digest, paths, NegInf,
      DifferingHashes(src, digest(files[src].content), dest, digest(files[dest].content)));
  }

  /** A run records its clock reading as the checkpoint even when it
      reported problems. A copy reported as corrupt, whose modification time
      is not after that reading, is therefore not hashed by the next run and
      not reported again. */
  lemma CorruptionReportedOnce(files: map<string, FileInfo>, digest: seq<bv8> -> string, stamps: map<string, int>,
                               src: string, lastRun: Checkpoint, clock: int)
    requires src in files
    requires Verdict(files, digest, src, DestinationOf(src), lastRun).Some?
    requires Verdict(files, digest, src, DestinationOf(src), lastRun).value.DifferingHashes?
    requires files[DestinationOf(src)].mtime <= clock
    ensures Verdict(files, digest, src, DestinationOf(src), StoredCheckpoint(stamps[StampPath(DestRoot) := clock], DestRoot)) == None
    ensures forall q :: Hashed(q) !in Queries(files, src, DestinationOf(src), StoredCheckpoint(stamps[StampPath(DestRoot) := clock], DestRoot))
  {
    assert StoredCheckpoint(stamps[StampPath(DestRoot) := clock], DestRoot) == At(clock);
    StaleMirrorNotHashed(files, digest, src, DestinationOf(src), clock);
  }

  /** Three source files, of which the mirror holds faithful copies of the
      first two and lacks the third: the run reports exactly the missing
      mirror of the third. */
  lemma ThreeFilesOneMissing(files: map<string, FileInfo>, digest: seq<bv8> -> string, lastRun: Checkpoint,
                             s1: string, s2: string, s3: string)
    requires s1 in files && s2 in files && s3 in files
    requires DestinationOf(s1) in files && files[DestinationOf(s1)] == files[s1]
    requires DestinationOf(s2) in files && files[DestinationOf(s2)] == files[s2]
    requires DestinationOf(s3) !in files
    ensures AllExist([s1, s2, s3], files)
    ensures ErrorsOf(files, digest, [s1, s2, s3], lastRun) == [DestFileNotFound(DestinationOf(s3))]
  {
    FaithfulCopyAccepted(files, digest, s1, DestinationOf(s1), lastRun);
    FaithfulCopyAccepted(files, digest, s2, DestinationOf(s2), lastRun);
    MissingMirror(files, digest, s3, DestinationOf(s3), lastRun);
    assert [s1][..0] == [];
    assert ErrorsOf(files, digest, [s1], lastRun) == [];
    assert [s1, s2][..1] == [s1];
    assert ErrorsOf(files, digest, [s1, s2], lastRun) == [];
    assert [s1, s2, s3][..2] == [s1, s2];
  }

  /** With the configured roots, a tree `D:\a`, `D:\b`, `D:\c` whose mirror
      holds copies of `F:\a` and `F:\b` only gives exactly one report: the
      missing `F:\c`. */
  lemma ConfiguredScenario(digest: seq<bv8> -> string, lastRun: Checkpoint, a: FileInfo, b: FileInfo, c: FileInfo)
    ensures
      var files := map["D:\\a" := a, "D:\\b" := b, "D:\\c" := c, "F:\\a" := a, "F:\\b" := b];
      AllExist(["D:\\a", "D:\\b", "D:\\c"], files)
      && ErrorsOf(files, digest, ["D:\\a", "D:\\b", "D:\\c"], lastRun) == [DestFileNotFound("F:\\c")]
  {
    var files := map["D:\\a" := a, "D:\\b" := b, "D:\\c" := c, "F:\\a" := a, "F:\\b" := b];
    assert "D:\\a" == SourceRoot + "a" && "D:\\b" == SourceRoot + "b" && "D:\\c" == SourceRoot + "c";
    assert "F:\\" + "a" == "F:\\a" && "F:\\" + "b" == "F:\\b" && "F:\\" + "c" == "F:\\c";
    DestinationOfConfigured("a");
    DestinationOfConfigured("b");
    DestinationOfConfigured("c");
    ThreeFilesOneMissing(files, digest, lastRun, "D:\\a", "D:\\b", "D:\\c");
  }
}
