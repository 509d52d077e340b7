/**
 * The patch files pr-splitter keeps in its working directory: how their paths
 * are built, how the directories are created, and what the loop that writes
 * one file per commit the language model proposes leaves behind.
 */
module PatchStore {
  import opened Wrappers

  type Path = string

  const BASE_DIR_NAME := "pr-splitter"
  const AI_COMMITS_DIR := "ai-commits"
  /** The directory path handed to the second folder initialisation. */
  const COMMITS_DIR := BASE_DIR_NAME + "/" + AI_COMMITS_DIR
  /** The prefix of every per-commit patch path, and of every listed directory entry. */
  const COMMITS_DIR_PREFIX := "./" + BASE_DIR_NAME + "/" + AI_COMMITS_DIR + "/"
  const PATCH_SUFFIX := ".patch"

  /** One element of the structured answer of the language model: a message and the patch text. */
  datatype CommitUnit = CommitUnit(message: string, diffFileContent: string)

  /**
   * `getDiffFileName`: the path is the fixed prefix, the message and the
   * `.patch` suffix, so the message can be read back from it.
   */
  function DiffFileName(message: string): Path
  {
    "./" + BASE_DIR_NAME + "/" + AI_COMMITS_DIR + "/" + message + ".patch"
  }

  /** The message can be read back from its patch path, between the prefix and the suffix. */
  lemma DiffFileNameParts(message: string)
    ensures var p := DiffFileName(message);
      && |p| == |COMMITS_DIR_PREFIX| + |message| + |PATCH_SUFFIX|
      && p[..|COMMITS_DIR_PREFIX|] == COMMITS_DIR_PREFIX
      && p[|p| - |PATCH_SUFFIX|..] == PATCH_SUFFIX
      && p[|COMMITS_DIR_PREFIX|..|p| - |PATCH_SUFFIX|] == message
  {
    var p := DiffFileName(message);
    assert p == COMMITS_DIR_PREFIX + message + PATCH_SUFFIX;
  }

  /** `getAllDiffFileName`: where `git diff` writes the whole change set. */
  function AllDiffFileName(): Path
  {
    "./" + BASE_DIR_NAME + "/pr-splitter-all-diff.patch"
  }

  /** Different messages never share a patch file. */
  lemma DiffFileNameInjective(a: string, b: string)
    ensures DiffFileName(a) == DiffFileName(b) ==> a == b
  {
    if DiffFileName(a) == DiffFileName(b) {
      var p := DiffFileName(a);
      DiffFileNameParts(a);
      DiffFileNameParts(b);
      assert a == p[|COMMITS_DIR_PREFIX|..|p| - |PATCH_SUFFIX|] == b;
    }
  }

  /**
   * No message names the aggregate diff file: that file does not even lie in
   * the per-commit directory.
   */
  lemma AllDiffFileNameIsNoPatchPath(message: string)
    ensures DiffFileName(message) != AllDiffFileName()
    ensures !(COMMITS_DIR_PREFIX <= AllDiffFileName())
  {
    assert AllDiffFileName()[14] == 'p';
    assert COMMITS_DIR_PREFIX[14] == 'a';
    DiffFileNameParts(message);
    assert DiffFileName(message)[14] == DiffFileName(message)[..|COMMITS_DIR_PREFIX|][14] == 'a';
  }

  /** The path the program builds for one entry of the per-commit directory listing. */
  function ListedPath(fileName: string): Path
  {
    "./" + BASE_DIR_NAME + "/" + AI_COMMITS_DIR + "/" + fileName
  }

  /** The listing entry of a patch written for `message` leads back to the path it was written to. */
  lemma ListedPatchFile(message: string)
    ensures ListedPath(message + PATCH_SUFFIX) == DiffFileName(message)
  {
    var p := ListedPath(message + PATCH_SUFFIX);
    var q := DiffFileName(message);
    DiffFileNameParts(message);
    assert p[..|COMMITS_DIR_PREFIX|] == COMMITS_DIR_PREFIX == q[..|COMMITS_DIR_PREFIX|];
    assert p[|COMMITS_DIR_PREFIX|..] == message + PATCH_SUFFIX == q[|COMMITS_DIR_PREFIX|..];
    assert p == p[..|COMMITS_DIR_PREFIX|] + p[|COMMITS_DIR_PREFIX|..];
    assert q == q[..|COMMITS_DIR_PREFIX|] + q[|COMMITS_DIR_PREFIX|..];
  }

  /** The listing path of `name` is the per-commit prefix followed by `name`, so it determines `name`. */
  lemma ListedPathDeterminesName(name: string, message: string)
    requires ListedPath(name) == DiffFileName(message)
    ensures name == message + PATCH_SUFFIX
  {
    var l := ListedPath(name);
    assert l == COMMITS_DIR_PREFIX + name;
    DiffFileNameParts(message);
    assert DiffFileName(message) == COMMITS_DIR_PREFIX + (message + PATCH_SUFFIX);
    assert name == l[|COMMITS_DIR_PREFIX|..];
    assert message + PATCH_SUFFIX == l[|COMMITS_DIR_PREFIX|..];
  }

  /**
   * A listing entry leads to a patch path of the units exactly when its name
   * is one of their messages followed by `.patch`.
   */
  lemma ListedPathIsPatchPath(units: seq<CommitUnit>, name: string)
    ensures ListedPath(name) in PatchPaths(units) <==> exists m :: m in Messages(units) && name == m + PATCH_SUFFIX
  {
    if ListedPath(name) in PatchPaths(units) {
      var i :| 0 <= i < |units| && ListedPath(name) == DiffFileName(units[i].message);
      ListedPathDeterminesName(name, units[i].message);
      assert units[i].message in Messages(units);
    }
    if exists m :: m in Messages(units) && name == m + PATCH_SUFFIX {
      var m :| m in Messages(units) && name == m + PATCH_SUFFIX;
      var i :| 0 <= i < |units| && units[i].message == m;
      ListedPatchFile(m);
      assert DiffFileName(units[i].message) in PatchPaths(units);
    }
  }

  /**
   * `initializeFolderIfNotExists`: a directory is created only when nothing
   * (directory or file) exists at `path`.
   */
  function EnsureFolder(dirs: set<Path>, files: map<Path, string>, path: Path): (d: set<Path>)
    ensures path in d || path in files
    ensures dirs <= d <= dirs + {path}
    ensures path in dirs || path in files ==> d == dirs
  {
    if path in dirs || path in files then dirs else dirs + {path}
  }

  /** A second initialisation of the same path changes nothing. */
  lemma EnsureFolderIdempotent(dirs: set<Path>, files: map<Path, string>, path: Path)
    ensures EnsureFolder(EnsureFolder(dirs, files, path), files, path) == EnsureFolder(dirs, files, path)
  {
  }

  /** The distinct messages among the units. */
  function Messages(units: seq<CommitUnit>): set<string>
  {
    set i | 0 <= i < |units| :: units[i].message
  }

  /** The patch paths the units are written to. */
  function PatchPaths(units: seq<CommitUnit>): set<Path>
  {
    set i | 0 <= i < |units| :: DiffFileName(units[i].message)
  }

  /** Both sets grow by the last unit's message and path. */
  lemma SplitLast(units: seq<CommitUnit>)
    requires units != []
    ensures Messages(units) == Messages(units[..|units| - 1]) + {units[|units| - 1].message}
    ensures PatchPaths(units) == PatchPaths(units[..|units| - 1]) + {DiffFileName(units[|units| - 1].message)}
  {
    var init := units[..|units| - 1];
    assert forall i :: 0 <= i < |init| ==> init[i] == units[i];
    assert forall m :: m in Messages(units) ==> m in Messages(init) + {units[|units| - 1].message} by {
      forall m | m in Messages(units) ensures m in Messages(init) + {units[|units| - 1].message} {
        var i :| 0 <= i < |units| && units[i].message == m;
        if i < |init| { assert init[i].message == m; }
      }
    }
    assert forall p :: p in PatchPaths(units) ==> p in PatchPaths(init) + {DiffFileName(units[|units| - 1].message)} by {
      forall p | p in PatchPaths(units) ensures p in PatchPaths(init) + {DiffFileName(units[|units| - 1].message)} {
        var i :| 0 <= i < |units| && DiffFileName(units[i].message) == p;
        if i < |init| { assert DiffFileName(init[i].message) == p; }
      }
    }
  }

  /**
   * The write loop of `program` as a sequence of map updates: unit by unit,
   * the patch path of its message is set to its content.
   */
  function WriteAll(files: map<Path, string>, units: seq<CommitUnit>): (r: map<Path, string>)
    ensures r.Keys == files.Keys + PatchPaths(units)
    decreases |units|
  {
    if units == [] then files
    else
      var last := units[|units| - 1];
      SplitLast(units);
      WriteAll(files, units[..|units| - 1])[DiffFileName(last.message) := last.diffFileContent]
  }

  /** The position of the last unit carrying `m`: no later unit has that message. */
  function LastIndexOf(units: seq<CommitUnit>, m: string): (j: nat)
    requires m in Messages(units)
    ensures j < |units| && units[j].message == m
    ensures forall k :: j < k < |units| ==> units[k].message != m
    decreases |units|
  {
    var n := |units|;
    SplitLast(units);
    if units[n - 1].message == m then n - 1
    else
      var j := LastIndexOf(units[..n - 1], m);
      assert forall k :: j < k < n - 1 ==> units[k] == units[..n - 1][k];
      j
  }

  /**
   * After the loop, the file of each message holds the content of the LAST
   * unit carrying that message: an earlier unit with the same message is
   * overwritten.
   */
  lemma {:induction false} WriteAllLastWins(files: map<Path, string>, units: seq<CommitUnit>, m: string)
    requires m in Messages(units)
    ensures DiffFileName(m) in WriteAll(files, units)
    ensures WriteAll(files, units)[DiffFileName(m)] == units[LastIndexOf(units, m)].diffFileContent
    decreases |units|
  {
    var n := |units|;
    var init := units[..n - 1];
    SplitLast(units);
    if units[n - 1].message != m {
      WriteAllLastWins(files, init, m);
      WriteAllOtherMessage(files, units, m);
      assert units[LastIndexOf(init, m)] == init[LastIndexOf(init, m)];
    }
  }

  /** Writing the last unit leaves the file of any other message as it was. */
  lemma WriteAllOtherMessage(files: map<Path, string>, units: seq<CommitUnit>, m: string)
    requires units != [] && units[|units| - 1].message != m
    requires DiffFileName(m) in WriteAll(files, units[..|units| - 1])
    ensures WriteAll(files, units)[DiffFileName(m)] == WriteAll(files, units[..|units| - 1])[DiffFileName(m)]
  {
    DiffFileNameInjective(m, units[|units| - 1].message);
  }

  /** Paths that no unit writes, the aggregate diff among them, keep their content. */
  lemma {:induction false} WriteAllKeepsOthers(files: map<Path, string>, units: seq<CommitUnit>, p: Path)
    requires p in files && p !in PatchPaths(units)
    ensures WriteAll(files, units)[p] == files[p]
    decreases |units|
  {
    if units != [] {
      WriteAllKeepsOthers(files, units[..|units| - 1], p);
    }
  }

  /** Injectivity of the naming: there are as many patch paths as distinct messages. */
  lemma {:induction false} PatchPathsCount(units: seq<CommitUnit>)
    ensures |PatchPaths(units)| == |Messages(units)|
    decreases |units|
  {
    if units != [] {
      var init := units[..|units| - 1];
      var m := units[|units| - 1].message;
      PatchPathsCount(init);
      SplitLast(units);
      if m in Messages(init) {
        var i :| 0 <= i < |init| && init[i].message == m;
        assert DiffFileName(init[i].message) in PatchPaths(init);
        assert PatchPaths(units) == PatchPaths(init);
        assert Messages(units) == Messages(init);
      } else if DiffFileName(m) in PatchPaths(init) {
        var i :| 0 <= i < |init| && DiffFileName(init[i].message) == DiffFileName(m);
        DiffFileNameInjective(init[i].message, m);
        assert false;
      }
    }
  }

  /**
   * Into a directory holding no patch file yet, the loop writes exactly one
   * file per distinct message.
   */
  lemma WrittenFileCount(files: map<Path, string>, units: seq<CommitUnit>)
    requires forall m :: DiffFileName(m) !in files
    ensures |WriteAll(files, units).Keys| == |files.Keys| + |Messages(units)|
  {
    PatchPathsCount(units);
    assert files.Keys * PatchPaths(units) == {};
  }

  /** The position of the first unit whose patch file cannot be written, if any. */
  function FirstUnwritable(units: seq<CommitUnit>, writable: Path -> bool): (r: Option<nat>)
    ensures r.Some? ==> r.value < |units| && !writable(DiffFileName(units[r.value].message))
    ensures forall j :: 0 <= j < |units| && (r.None? || j < r.value) ==> writable(DiffFileName(units[j].message))
    decreases |units|
  {
    if units == [] then None
    else if !writable(DiffFileName(units[0].message)) then Some(0)
    else
      match FirstUnwritable(units[1..], writable)
      case None => None
      case Some(k) => Some(k + 1)
  }

  /** How many units the write loop gets through: all of them, or those before the first failure. */
  function WrittenCount(units: seq<CommitUnit>, writable: Path -> bool): (k: nat)
    ensures k <= |units|
    ensures forall j :: 0 <= j < k ==> writable(DiffFileName(units[j].message))
    ensures k < |units| ==> !writable(DiffFileName(units[k].message))
  {
    match FirstUnwritable(units, writable)
    case None => |units|
    case Some(i) => i
  }
}
