/** The machine the verifier runs on, seen as a snapshot: which directories
    and files exist, their modification times and contents, what a walk of
    a directory yields, and the clock. Every query the script makes is
    recorded in `log`, so that which queries happen, and in what order, can
    be stated. */
module World {
  import opened BackupPaths

  datatype Option<T> = None | Some(value: T)

  /** The time of the last completed run, or minus infinity when no run
      left a record. */
  datatype Checkpoint = NegInf | At(time: int)

  /** `t` is strictly later than the checkpoint; every time is later than
      minus infinity. */
  predicate NewerThan(t: int, cp: Checkpoint)
  {
    cp.NegInf? || t > cp.time
  }

  /** A regular file: its modification time and its bytes. */
  datatype FileInfo = FileInfo(mtime: int, content: seq<bv8>)

  /** One query or update the script makes of the machine. */
  datatype Event =
    | CheckedDir(path: string)
    | ReadClock
    | CheckedStamp(path: string)
    | ReadStamp(path: string)
    | Walked(root: string)
    | CheckedFile(path: string)
    | ReadMtime(path: string)
    | Hashed(path: string)
    | WroteStamp(path: string, time: int)

  /** What walking `root` yields: nothing for a root the walk cannot enter. */
  function WalkOf(walks: map<string, seq<WalkEntry>>, root: string): seq<WalkEntry>
  {
    if root in walks then walks[root] else []
  }

  class Env {
    /** The existing directories. */
    const dirs: set<string>
    /** The existing regular files, by path. */
    const files: map<string, FileInfo>
    /** The top-down walk of each directory. */
    const walks: map<string, seq<WalkEntry>>
    /** The hexadecimal digest of a file's contents. */
    const digest: seq<bv8> -> string
    /** The current time. */
    const clock: int
    /** The checkpoint files, by path, with the time each one holds. */
    var stamps: map<string, int>
    /** The queries and updates made so far, oldest first. */
    var log: seq<Event>

    constructor (dirs: set<string>, files: map<string, FileInfo>, walks: map<string, seq<WalkEntry>>,
                 digest: seq<bv8> -> string, clock: int, stamps: map<string, int>)
      ensures this.dirs == dirs && this.files == files && this.walks == walks
      ensures this.digest == digest && this.clock == clock && this.stamps == stamps
      ensures log == []
    {
      this.dirs := dirs;
      this.files := files;
      this.walks := walks;
      this.digest := digest;
      this.clock := clock;
      this.stamps := stamps;
      this.log := [];
    }

    /** `os.path.isdir`. */
    method IsDir(path: string) returns (b: bool)
      modifies this`log
      ensures b <==> path in dirs
      ensures log == old(log) + [CheckedDir(path)]
    {
      b := path in dirs;
      log := log + [CheckedDir(path)];
    }

    /** `time.time`. */
    method Time() returns (t: int)
      modifies this`log
      ensures t == clock
      ensures log == old(log) + [ReadClock]
    {
      t := clock;
      log := log + [ReadClock];
    }

    /** `os.path.isfile` on a checkpoint path. */
    method IsStamp(path: string) returns (b: bool)
      modifies this`log
      ensures b <==> path in stamps
      ensures log == old(log) + [CheckedStamp(path)]
    {
      b := path in stamps;
      log := log + [CheckedStamp(path)];
    }

    /** Opening a checkpoint file and reading the time it holds. */
    method ReadStampFile(path: string) returns (t: int)
      requires path in stamps
      modifies this`log
      ensures t == stamps[path]
      ensures log == old(log) + [ReadStamp(path)]
    {
      t := stamps[path];
      log := log + [ReadStamp(path)];
    }

    /** Creating or overwriting a checkpoint file with a time. */
    method WriteStampFile(path: string, t: int)
      modifies this`stamps, this`log
      ensures stamps == old(stamps)[path := t]
      ensures log == old(log) + [WroteStamp(path, t)]
    {
      stamps := stamps[path := t];
      log := log + [WroteStamp(path, t)];
    }

    /** `os.walk`. */
    method Walk(root: string) returns (walk: seq<WalkEntry>)
      modifies this`log
      ensures walk == WalkOf(walks, root)
      ensures log == old(log) + [Walked(root)]
    {
      walk := WalkOf(walks, root);
      log := log + [Walked(root)];
    }

    /** `os.path.isfile`. */
    method IsFile(path: string) returns (b: bool)
      modifies this`log
      ensures b <==> path in files
      ensures log == old(log) + [CheckedFile(path)]
    {
      b := path in files;
      log := log + [CheckedFile(path)];
    }

    /** `os.path.getmtime`, which fails on a missing file. */
    method GetMtime(path: string) returns (t: int)
      requires path in files
      modifies this`log
      ensures t == files[path].mtime
      ensures log == old(log) + [ReadMtime(path)]
    {
      t := files[path].mtime;
      log := log + [ReadMtime(path)];
    }

    /** Reading a file and hashing its contents, which fails on a missing
        file. */
    method GetFileHash(path: string) returns (h: string)
      requires path in files
      modifies this`log
      ensures h == digest(files[path].content)
      ensures log == old(log) + [Hashed(path)]
    {
      h := digest(files[path].content);
      log := log + [Hashed(path)];
    }
  }
}
