/** Which source files the verifier looks at, and where their mirror copies
    are expected: the blacklist filter, the gathering of paths over the walk
    of the source tree, and the source-to-destination path mapping. */
module BackupPaths {
  import opened Text

  /** The Windows path separator, `os.sep`. */
  const Sep: char := '\\'
  /** The root of the tree being backed up. */
  const SourceRoot: string := "D:\\"
  /** The root of its mirror. */
  const DestRoot: string := "F:\\"
  /** Directories whose path contains one of these tokens are skipped. */
  const BlacklistTokens: seq<string> := ["$RECYCLE.BIN"]

  /** One step of the walk of the source tree: a directory and the names of
      the regular files directly inside it. */
  datatype WalkEntry = WalkEntry(root: string, files: seq<string>)

  /** A path passes the blacklist when none of the tokens occurs in it
      (the source tries the tokens in turn and rejects on the first match). */
  function IsValidSourcePath(path: string, tokens: seq<string>): bool
  {
    forall k :: 0 <= k < |tokens| ==> !Contains(path, tokens[k])
  }

  /** A path is rejected exactly when some token occurs in it as a
      contiguous run of characters. */
  lemma IsValidSourcePathIff(path: string, tokens: seq<string>)
    ensures !IsValidSourcePath(path, tokens) <==> exists k, i :: 0 <= k < |tokens| && OccursAt(tokens[k], path, i)
  {
    forall k | 0 <= k < |tokens| {
      ContainsIff(path, tokens[k]);
    }
  }

  /** `ntpath.join` puts nothing between `dir` and a following name when
      `dir` is empty, already ends with a separator, or is a bare drive such
      as `D:` (whose path part is empty: `D:` and `x` give the
      drive-relative `D:x`). */
  predicate JoinsDirectly(dir: string)
  {
    dir == [] || dir[|dir| - 1] == '\\' || dir[|dir| - 1] == '/' || (|dir| == 2 && dir[1] == ':')
  }

  /** `os.path.join(dir, name)` on Windows for a plain file name. */
  function Join(dir: string, name: string): string
  {
    if JoinsDirectly(dir) then dir + name
    else dir + [Sep] + name
  }

  /** A joined path starts with the directory and ends with the name, with
      at most one separator between them, and one exactly when the directory
      is not empty, does not already end with a separator and is not a bare
      drive. */
  lemma JoinSpec(dir: string, name: string)
    ensures dir <= Join(dir, name)
    ensures |name| <= |Join(dir, name)| && Join(dir, name)[|Join(dir, name)| - |name|..] == name
    ensures !JoinsDirectly(dir) ==> |Join(dir, name)| == |dir| + 1 + |name| && Join(dir, name)[|dir|] == Sep
    ensures JoinsDirectly(dir) ==> Join(dir, name) == dir + name
  {
    var r := Join(dir, name);
    assert r[|r| - |name|..] == name;
  }

  /** The joined paths of `names` under `dir`, in order. */
  function JoinAll(dir: string, names: seq<string>): (r: seq<string>)
    ensures |r| == |names|
  {
    seq(|names|, j requires 0 <= j < |names| => Join(dir, names[j]))
  }

  /** Joining one more name adds its path at the end. */
  lemma JoinAllSnoc(dir: string, names: seq<string>, name: string)
    ensures JoinAll(dir, names + [name]) == JoinAll(dir, names) + [Join(dir, name)]
  {
    assert forall j :: 0 <= j < |names| ==> (names + [name])[j] == names[j];
  }

  /** The paths one walk entry adds: all of its files when its directory
      passes the blacklist, none otherwise. */
  function Contribution(e: WalkEntry, tokens: seq<string>): seq<string>
  {
    if IsValidSourcePath(e.root, tokens) then JoinAll(e.root, e.files) else []
  }

  /** The paths collected over a walk, in walk order. */
  function CollectedPaths(walk: seq<WalkEntry>, tokens: seq<string>): seq<string>
  {
    if walk == [] then []
    else CollectedPaths(walk[..|walk| - 1], tokens) + Contribution(walk[|walk| - 1], tokens)
  }

  /** The directories reported as blacklist matches over a walk, in walk order. */
  function BlacklistNotices(walk: seq<WalkEntry>, tokens: seq<string>): seq<string>
  {
    if walk == [] then []
    else
      var last := walk[|walk| - 1];
      BlacklistNotices(walk[..|walk| - 1], tokens)
        + (if IsValidSourcePath(last.root, tokens) then [] else [last.root])
  }

  /** The gathering loop: every file of every walked directory that passes
      the blacklist, in walk order, and a notice for every directory that
      does not. */
  method GatherPaths(walk: seq<WalkEntry>, tokens: seq<string>)
    returns (paths: seq<string>, notices: seq<string>)
    ensures paths == CollectedPaths(walk, tokens)
    ensures notices == BlacklistNotices(walk, tokens)
  {
    paths, notices := [], [];
    for i := 0 to |walk|
      invariant paths == CollectedPaths(walk[..i], tokens)
      invariant notices == BlacklistNotices(walk[..i], tokens)
    {
      var entry := walk[i];
      if IsValidSourcePath(entry.root, tokens) {
        for k := 0 to |entry.files|
          invariant paths == CollectedPaths(walk[..i], tokens) + JoinAll(entry.root, entry.files[..k])
        {
          paths := paths + [Join(entry.root, entry.files[k])];
          assert entry.files[..k + 1] == entry.files[..k] + [entry.files[k]];
          JoinAllSnoc(entry.root, entry.files[..k], entry.files[k]);
        }
        assert entry.files[..|entry.files|] == entry.files;
      } else {
        notices := notices + [entry.root];
      }
      assert walk[..i + 1][..i] == walk[..i];
    }
    assert walk[..|walk|] == walk;
  }

  /** `p` joins a file to the directory of walk entry `e`. */
  ghost predicate FileOf(e: WalkEntry, p: string)
  {
    exists j :: 0 <= j < |e.files| && p == Join(e.root, e.files[j])
  }

  /** One entry contributes exactly the files of a directory that passes
      the blacklist. */
  lemma ContributionMembers(e: WalkEntry, tokens: seq<string>, p: string)
    ensures p in Contribution(e, tokens) <==> IsValidSourcePath(e.root, tokens) && FileOf(e, p)
  {
    if p in Contribution(e, tokens) {
      var j :| 0 <= j < |e.files| && p == JoinAll(e.root, e.files)[j];
    }
    if IsValidSourcePath(e.root, tokens) && FileOf(e, p) {
      var j :| 0 <= j < |e.files| && p == Join(e.root, e.files[j]);
      assert p == JoinAll(e.root, e.files)[j];
    }
  }

  /** A path is collected exactly when it joins a file to a walked directory
      that passes the blacklist. */
  lemma {:induction false} CollectedPathsMembers(walk: seq<WalkEntry>, tokens: seq<string>, p: string)
    ensures p in CollectedPaths(walk, tokens) <==>
      exists i :: 0 <= i < |walk| && IsValidSourcePath(walk[i].root, tokens) && FileOf(walk[i], p)
  {
    if walk != [] {
      var init := walk[..|walk| - 1];
      var last := walk[|walk| - 1];
      CollectedPathsMembers(init, tokens, p);
      ContributionMembers(last, tokens, p);
      if p in CollectedPaths(init, tokens) {
        var i :| 0 <= i < |init| && IsValidSourcePath(init[i].root, tokens) && FileOf(init[i], p);
        assert walk[i] == init[i];
      }
      if exists i :: 0 <= i < |walk| && IsValidSourcePath(walk[i].root, tokens) && FileOf(walk[i], p) {
        var i :| 0 <= i < |walk| && IsValidSourcePath(walk[i].root, tokens) && FileOf(walk[i], p);
        if i < |walk| - 1 {
          assert init[i] == walk[i];
        }
      }
    }
  }

  /** A notice is printed for exactly the walked directories that fail the
      blacklist. */
  lemma {:induction false} BlacklistNoticesMembers(walk: seq<WalkEntry>, tokens: seq<string>, d: string)
    ensures d in BlacklistNotices(walk, tokens) <==>
      exists i :: 0 <= i < |walk| && walk[i].root == d && !IsValidSourcePath(d, tokens)
  {
    if walk != [] {
      var init := walk[..|walk| - 1];
      BlacklistNoticesMembers(init, tokens, d);
      if d in BlacklistNotices(init, tokens) {
        var i :| 0 <= i < |init| && init[i].root == d && !IsValidSourcePath(d, tokens);
        assert walk[i] == init[i];
      }
      if exists i :: 0 <= i < |walk| && walk[i].root == d && !IsValidSourcePath(d, tokens) {
        var i :| 0 <= i < |walk| && walk[i].root == d && !IsValidSourcePath(d, tokens);
        if i < |walk| - 1 {
          assert init[i] == walk[i];
        }
      }
    }
  }

  /** Gathering keeps walk order: the paths of a walk split in two are the
      paths of the first part followed by those of the second. */
  lemma {:induction false} CollectedPathsAppend(w1: seq<WalkEntry>, w2: seq<WalkEntry>, tokens: seq<string>)
    ensures CollectedPaths(w1 + w2, tokens) == CollectedPaths(w1, tokens) + CollectedPaths(w2, tokens)
  {
    if w2 == [] {
      assert w1 + w2 == w1;
    } else {
      var init, last := w2[..|w2| - 1], w2[|w2| - 1];
      var w := w1 + w2;
      assert w[..|w| - 1] == w1 + init;
      assert w[|w| - 1] == last;
      var c := Contribution(last, tokens);
      assert CollectedPaths(w, tokens) == CollectedPaths(w1 + init, tokens) + c;
      CollectedPathsAppend(w1, init, tokens);
      AppendAssociative(CollectedPaths(w1, tokens), CollectedPaths(init, tokens), c);
    }
  }

  /** A directory whose path extends a blacklisted one (a directory inside
      it, at any depth) is blacklisted too, because the token still occurs in
      its path. */
  lemma ExcludedSubtree(d: string, root: string, tokens: seq<string>)
    requires !IsValidSourcePath(d, tokens) && d <= root
    ensures !IsValidSourcePath(root, tokens)
  {
    var k :| 0 <= k < |tokens| && Contains(d, tokens[k]);
    ContainsExtended([], d, root[|d|..], tokens[k]);
    assert [] + d + root[|d|..] == root;
  }

  /** The walk with every directory at or below `d` taken out. */
  function Pruned(walk: seq<WalkEntry>, d: string): (r: seq<WalkEntry>)
    ensures forall e :: e in r ==> e in walk && !(d <= e.root)
  {
    if walk == [] then []
    else
      var last := walk[|walk| - 1];
      Pruned(walk[..|walk| - 1], d) + (if d <= last.root then [] else [last])
  }

  /** Walking into a blacklisted directory gathers nothing from it: the paths
      collected over the full walk are those collected over the walk that
      skips that directory and everything below it. */
  lemma {:induction false} PruningChangesNothing(walk: seq<WalkEntry>, d: string, tokens: seq<string>)
    requires !IsValidSourcePath(d, tokens)
    ensures CollectedPaths(walk, tokens) == CollectedPaths(Pruned(walk, d), tokens)
  {
    if walk != [] {
      var init, last := walk[..|walk| - 1], walk[|walk| - 1];
      var pinit := Pruned(init, d);
      if d <= last.root {
        assert Pruned(walk, d) == pinit + [];
        assert pinit + [] == pinit;
        ExcludedSubtree(d, last.root, tokens);
        PruningChangesNothing(init, d, tokens);
      } else {
        assert Pruned(walk, d) == pinit + [last];
        assert [last][..0] == [];
        CollectedPathsAppend(pinit, [last], tokens);
        PruningChangesNothing(init, d, tokens);
      }
    }
  }

  /** The path under the destination root that mirrors `sourcePath`: the
      source root is removed as a prefix, both parts lose their leading and
      trailing backslashes, and they are joined with the separator. */
  function DestPath(sourcePath: string, sourceRoot: string, destRoot: string): (r: string)
    ensures Strip(destRoot, '\\') + [Sep] <= r
  {
    Strip(destRoot, '\\') + [Sep] + Strip(RemovePrefix(sourcePath, sourceRoot), '\\')
  }

  /** The mirror path of a source path, for the configured roots. */
  function DestinationOf(sourcePath: string): string
  {
    DestPath(sourcePath, SourceRoot, DestRoot)
  }

  /** A path relative to a root, written without a leading or trailing
      backslash. */
  predicate IsRelative(rel: string)
  {
    Unpadded(rel, '\\')
  }

  /** A path under the source root is re-rooted unchanged under the stripped
      destination root. */
  lemma DestPathReroots(sourceRoot: string, rel: string, destRoot: string)
    requires IsRelative(rel)
    ensures DestPath(sourceRoot + rel, sourceRoot, destRoot) == Strip(destRoot, '\\') + [Sep] + rel
  {
    assert RemovePrefix(sourceRoot + rel, sourceRoot) == rel;
    StripUnpadded(rel, Sep);
  }

  /** When the source path does not start with the source root nothing is
      removed: the whole path, stripped, follows the destination root. */
  lemma DestPathOutsideRoot(sourcePath: string, sourceRoot: string, destRoot: string)
    requires !(sourceRoot <= sourcePath)
    ensures DestPath(sourcePath, sourceRoot, destRoot)
      == Strip(destRoot, '\\') + [Sep] + Strip(sourcePath, '\\')
  {
  }

  /** The mapping does not depend on whether the destination root is
      written with a trailing separator, whatever the source path. */
  lemma DestPathIgnoresTrailingDestSeparator(sourcePath: string, sourceRoot: string, destRoot: string)
    ensures DestPath(sourcePath, sourceRoot, destRoot + [Sep]) == DestPath(sourcePath, sourceRoot, destRoot)
  {
    StripPaddedRight(destRoot, Sep);
  }

  /** The mapping does not depend on whether the source root is written with
      a trailing separator, for every file under it. */
  lemma DestPathIgnoresTrailingSourceSeparator(sourceRoot: string, rel: string, destRoot: string)
    requires IsRelative(rel)
    ensures DestPath(sourceRoot + [Sep] + rel, sourceRoot + [Sep], destRoot)
      == DestPath(sourceRoot + [Sep] + rel, sourceRoot, destRoot)
  {
    var path := sourceRoot + [Sep] + rel;
    assert path == (sourceRoot + [Sep]) + rel;
    assert path == sourceRoot + ([Sep] + rel);
    assert RemovePrefix(path, sourceRoot) == [Sep] + rel;
    DestPathReroots(sourceRoot + [Sep], rel, destRoot);
    StripPaddedLeft(rel, Sep);
    StripUnpadded(rel, Sep);
  }

  /** The mapping does not depend on whether either root is written with a
      trailing separator. */
  lemma DestPathIgnoresTrailingSeparator(sourceRoot: string, rel: string, destRoot: string)
    requires IsRelative(rel)
    ensures DestPath(sourceRoot + [Sep] + rel, sourceRoot + [Sep], destRoot + [Sep])
      == DestPath(sourceRoot + [Sep] + rel, sourceRoot, destRoot)
  {
    DestPathIgnoresTrailingDestSeparator(sourceRoot + [Sep] + rel, sourceRoot + [Sep], destRoot);
    DestPathIgnoresTrailingSourceSeparator(sourceRoot, rel, destRoot);
  }

  /** Distinct files under the source root have distinct mirror paths. */
  lemma DestPathInjective(sourceRoot: string, a: string, b: string, destRoot: string)
    requires IsRelative(a) && IsRelative(b)
    requires DestPath(sourceRoot + a, sourceRoot, destRoot) == DestPath(sourceRoot + b, sourceRoot, destRoot)
    ensures a == b
  {
    DestPathReroots(sourceRoot, a, destRoot);
    DestPathReroots(sourceRoot, b, destRoot);
    var n := |Strip(destRoot, '\\') + [Sep]|;
    assert a == DestPath(sourceRoot + a, sourceRoot, destRoot)[n..];
  }

  /** The configured destination root loses its trailing backslash. */
  lemma DestRootStripped()
    ensures Strip(DestRoot, Sep) == "F:"
  {
    var drive := "F:";
    assert DestRoot == drive + [Sep];
    StripPaddedRight(drive, Sep);
    StripUnpadded(drive, Sep);
  }

  /** With the configured roots, `D:\<rel>` is mirrored at `F:\<rel>`. */
  lemma DestinationOfConfigured(rel: string)
    requires IsRelative(rel)
    ensures DestinationOf(SourceRoot + rel) == "F:\\" + rel
  {
    assert "F:" + [Sep] + rel == DestRoot + rel;
    DestPathReroots(SourceRoot, rel, DestRoot);
    DestRootStripped();
  }
}
